/**
  The recursive-descent parser from a units string (`"m/s^2"`, `"kg m^2 / s"`)
  to its representation. The grammar, with `spaces` = `[ ]*`:

    units          = units-body spaces EOS
    units-body     = terms0 single-fraction-tail?
    single-fraction-tail = spaces "/" terms0
    terms0         = terms1?
    terms1         = term tail-term*
    tail-term      = (spaces "*")? term
    term           = id exponent?
    exponent       = ascii-exponent | unicode-superscript-integer
    ascii-exponent = spaces "^" spaces integer
    integer        = spaces "-"? digit+
    id             = spaces id-char+
*/
module UnitsParser {
  import opened Wrappers
  import opened Streams
  import opened Syntax
  import N = Natural
  import Z = Integers
  import R = Representation

  const IdCharMessage: string := "Numbers and symbols cannot be used as identifiers."
  const DigitMessage: string := "Numbers ( 0 to 9 ) are required."
  const MinusMessage: string := "A minus sign ( - ) is required."
  const ExponentMessage: string := "The exponent symbol ( ^ ) is required."
  const JoinerMessage: string := "A term joiner ( * ) is required."
  const FractionMessage: string := "Fraction symbol required."
  const EndMessage: string := "End of string is required."
  /** The message of the superscript-exponent parser, which is not written yet. */
  const SuperscriptMessage: string := "TODO"

  /** `s2` is `s` moved forward by at least one character. */
  predicate Progress(s: CharStream, s2: CharStream)
  {
    Advances(s, s2) && |s2.remaining| < |s.remaining|
  }

  // ---------- identifiers ----------

  function ParseIdChar(s: CharStream): Parsed<char>
  {
    NoneOf(s, NonIdChars, IdCharMessage)
  }

  /** Appends the longest run of identifier characters to `chars`; never fails. */
  function ParseIdChars0(s: CharStream, chars: string): (r: Parsed<string>)
    ensures r.Ok? && Advances(s, r.stream) && r.value == chars + Taken(s, r.stream)
    ensures AllIdChars(Taken(s, r.stream))
    ensures r.stream.remaining == [] || !IsIdChar(r.stream.remaining[0])
    decreases |s.remaining|
  {
    match ParseIdChar(s)
    case Ok(s2, c) =>
      var r := ParseIdChars0(s2, chars + [c]);
      TakeIdChar(s, s2, r.stream, c, chars);
      r
    case Fail(_) => Ok(s, chars)
  }

  /** `id = spaces id-char+`: a non-empty, maximal identifier after optional spaces. */
  function ParseId(s: CharStream): (r: Parsed<string>)
    ensures var t := SkipSpaces(s);
      && (r.Ok? <==> t.remaining != [] && IsIdChar(t.remaining[0]))
      && (r.Ok? ==>
            && Advances(t, r.stream) && Progress(s, r.stream)
            && r.value == Taken(t, r.stream) && r.value != [] && AllIdChars(r.value)
            && (r.stream.remaining == [] || !IsIdChar(r.stream.remaining[0])))
      && (r.Fail? ==> r.failure == ParseFailure(IdCharMessage, Source(s), |t.consumed|))
  {
    var t := SkipSpaces(s);
    AdvancesKeepsSource(s, t);
    match ParseIdChar(t)
    case Ok(t2, c0) =>
      var r := ParseIdChars0(t2, [c0]);
      AdvancesTransitive(t, t2, r.stream);
      AdvancesTransitive(s, t, r.stream);
      r
    case Fail(f) => Fail(f)
  }

  // ---------- integers ----------

  /** One ASCII digit and its value. */
  function ParseDigit(s: CharStream): (r: Parsed<N.Nat>)
    ensures r.Ok? <==> s.remaining != [] && s.remaining[0] in AsciiDigits
    ensures r.Ok? ==>
      && Advances(s, r.stream) && Taken(s, r.stream) == [s.remaining[0]]
      && N.ToNumber(r.value) == DigitValue(s.remaining[0])
    ensures r.Fail? ==> r.failure == ParseFailure(DigitMessage, Source(s), |s.consumed|)
  {
    match AnyOf(s, AsciiDigits, DigitMessage)
    case Ok(s2, c) => Ok(s2, N.Known(DigitValue(c)))
    case Fail(f) => Fail(f)
  }

  /** Reads the longest run of digits onto `current`, then makes the integer with `sign`; never fails. */
  function ParseDigits0(s: CharStream, sign: Z.Sign, current: N.Nat): (r: Parsed<Z.Integer>)
    ensures r.Ok? && Advances(s, r.stream) && AllDigits(Taken(s, r.stream))
    ensures r.stream.remaining == [] || r.stream.remaining[0] !in AsciiDigits
    ensures Z.IsNormal(r.value)
    decreases |s.remaining|
  {
    match ParseDigit(s)
    case Ok(s2, digit) =>
      var r := ParseDigits0(s2, sign, N.Add(N.Mul(current, N.Ten()), digit));
      TakeDigit(s, s2, r.stream, s.remaining[0]);
      r
    case Fail(_) => Ok(s, Z.Make(sign, current))
  }

  /** At least one digit, or the digit message at the current position. */
  function ParseDigits1(s: CharStream, sign: Z.Sign, current: N.Nat): (r: Parsed<Z.Integer>)
    ensures r.Ok? <==> s.remaining != [] && s.remaining[0] in AsciiDigits
    ensures r.Ok? ==>
      && Progress(s, r.stream) && AllDigits(Taken(s, r.stream)) && Z.IsNormal(r.value)
      && (r.stream.remaining == [] || r.stream.remaining[0] !in AsciiDigits)
    ensures r.Fail? ==> r.failure == ParseFailure(DigitMessage, Source(s), |s.consumed|)
  {
    match ParseDigit(s)
    case Ok(s2, digit) =>
      var r := ParseDigits0(s2, sign, N.Add(N.Mul(current, N.Ten()), digit));
      TakeDigit(s, s2, r.stream, s.remaining[0]);
      r
    case Fail(f) => Fail(f)
  }

  /** `integer = spaces "-"? digit+`. */
  function ParseInteger(s: CharStream): (r: Parsed<Z.Integer>)
    ensures r.Ok? ==> Progress(s, r.stream) && Z.IsNormal(r.value)
  {
    var s2 := SkipSpaces(s);
    match AnyOf(s2, {'-'}, MinusMessage)
    case Ok(s3, _) =>
      var r := ParseDigits1(s3, Z.Minus, N.Known(0));
      if r.Ok? then AdvancesTransitive(s, s2, s3); AdvancesTransitive(s, s3, r.stream); r else r
    case Fail(_) =>
      var r := ParseDigits1(s2, Z.Plus, N.Known(0));
      if r.Ok? then AdvancesTransitive(s, s2, r.stream); r else r
  }

  /** The integer with a sign and a magnitude. */
  function Signed(sign: Z.Sign, magnitude: nat): int
  {
    if sign == Z.Plus then magnitude else -(magnitude as int)
  }

  /** After a digit, `digits0` goes on from the stream after it with the digit accumulated. */
  lemma DigitsStep(s: CharStream, sign: Z.Sign, current: N.Nat, s2: CharStream, digit: N.Nat)
    requires ParseDigit(s) == Ok(s2, digit)
    ensures ParseDigits0(s, sign, current) == ParseDigits0(s2, sign, N.Add(N.Mul(current, N.Ten()), digit))
  {
  }

  /**
    Reading digits onto an accumulator that holds the value of `prefix`
    gives, with the sign, the value of `prefix` followed by the digits read.
  */
  lemma {:induction false} ParseDigits0Value(s: CharStream, sign: Z.Sign, current: N.Nat, prefix: string)
    requires AllDigits(prefix) && N.ToNumber(current) == DecimalValue(prefix)
    ensures var r := ParseDigits0(s, sign, current);
      && AllDigits(prefix + Taken(s, r.stream))
      && Z.Value(r.value) == Signed(sign, DecimalValue(prefix + Taken(s, r.stream)))
    decreases |s.remaining|
  {
    var r := ParseDigits0(s, sign, current);
    if ParseDigit(s).Ok? {
      var Ok(s2, digit) := ParseDigit(s);
      var c := s.remaining[0];
      DecimalSnoc(prefix, c);
      ParseDigits0Value(s2, sign, N.Add(N.Mul(current, N.Ten()), digit), prefix + [c]);
      DigitsStep(s, sign, current, s2, digit);
      TakenAfterOne(s, s2, r.stream, prefix);
    } else {
      assert prefix + Taken(s, r.stream) == prefix;
    }
  }

  /** The value of at least one digit read with a sign. */
  lemma ParseDigits1Value(s: CharStream, sign: Z.Sign)
    requires ParseDigits1(s, sign, N.Known(0)).Ok?
    ensures var r := ParseDigits1(s, sign, N.Known(0));
      Z.Value(r.value) == Signed(sign, DecimalValue(Taken(s, r.stream)))
  {
    var Ok(s1, digit) := ParseDigit(s);
    var c := s.remaining[0];
    var current := N.Add(N.Mul(N.Known(0), N.Ten()), digit);
    assert N.ToNumber(current) == DecimalValue([c]) by {
      DecimalSnoc("", c);
      assert "" + [c] == [c];
    }
    var r := ParseDigits0(s1, sign, current);
    assert ParseDigits1(s, sign, N.Known(0)) == r;
    ParseDigits0Value(s1, sign, current, [c]);
    assert Taken(s, r.stream) == [c] + Taken(s1, r.stream) by {
      AdvancesTransitive(s, s1, r.stream);
    }
  }

  /** Where the digits of an integer start (after spaces and an optional minus), and its sign. */
  function DigitsStart(s: CharStream): (r: (CharStream, Z.Sign))
    ensures Advances(s, r.0)
    ensures var t := SkipSpaces(s);
      var negative := t.remaining != [] && t.remaining[0] == '-';
      && |r.0.consumed| == |t.consumed| + (if negative then 1 else 0)
      && r.1 == if negative then Z.Minus else Z.Plus
  {
    var t := SkipSpaces(s);
    if t.remaining != [] && t.remaining[0] == '-' then
      var t2 := CharStream(t.consumed + "-", t.remaining[1..]);
      AdvancesTransitive(s, t, t2);
      (t2, Z.Minus)
    else (t, Z.Plus)
  }

  lemma ParseIntegerUnfold(s: CharStream)
    ensures ParseInteger(s) == ParseDigits1(DigitsStart(s).0, DigitsStart(s).1, N.Known(0))
  {
  }

  /** Digits read with a sign from `d` on, as a slice of the whole source. */
  lemma DigitsFrom(s: CharStream, d: CharStream, sign: Z.Sign)
    requires Advances(s, d)
    ensures var r := ParseDigits1(d, sign, N.Known(0));
      var start := |d.consumed|;
      && start <= |Source(s)|
      && (r.Ok? <==> start < |Source(s)| && Source(s)[start] in AsciiDigits)
      && (r.Fail? ==> r.failure == ParseFailure(DigitMessage, Source(s), start))
      && (r.Ok? ==>
            && start < |r.stream.consumed| <= |Source(s)|
            && var digits := Source(s)[start..|r.stream.consumed|];
            && AllDigits(digits) && Z.Value(r.value) == Signed(sign, DecimalValue(digits)))
  {
    AdvancesSlices(s, d);
    var r := ParseDigits1(d, sign, N.Known(0));
    if r.Ok? {
      ParseDigits1Value(d, sign);
      AdvancesSlices(d, r.stream);
    }
  }

  /**
    `integer` reads, from where its digits start (`DigitsStart`: after
    spaces and an optional minus), the longest run of digits: its value is
    theirs, negated after a minus. Without a digit there, it fails with the
    digit message at that position.
  */
  lemma ParseIntegerSpec(s: CharStream)
    ensures var (d, sign) := DigitsStart(s);
      var start := |d.consumed|;
      var r := ParseInteger(s);
      && start <= |Source(s)|
      && (r.Ok? <==> start < |Source(s)| && Source(s)[start] in AsciiDigits)
      && (r.Fail? ==> r.failure == ParseFailure(DigitMessage, Source(s), start))
      && (r.Ok? ==>
            && start < |r.stream.consumed| <= |Source(s)|
            && var digits := Source(s)[start..|r.stream.consumed|];
            && AllDigits(digits) && Z.Value(r.value) == Signed(sign, DecimalValue(digits)))
  {
    ParseIntegerUnfold(s);
    var (d, sign) := DigitsStart(s);
    DigitsFrom(s, d, sign);
  }

  // ---------- exponents and terms ----------

  /**
    `ascii-exponent = spaces "^" spaces integer`: after spaces, a `^` and
    more spaces, exactly the integer read there; without a `^`, the
    exponent message where it was required.
  */
  function ParseAsciiExponent(s: CharStream): (r: Parsed<Z.Integer>)
    ensures r.Ok? ==> Progress(s, r.stream) && Z.IsNormal(r.value)
    ensures var s1 := SkipSpaces(s);
      if s1.remaining != [] && s1.remaining[0] == '^' then
        r == ParseInteger(SkipSpaces(CharStream(s1.consumed + "^", s1.remaining[1..])))
      else r == Fail(ParseFailure(ExponentMessage, Source(s), |s1.consumed|))
  {
    var s1 := SkipSpaces(s);
    AdvancesKeepsSource(s, s1);
    match AnyOf(s1, {'^'}, ExponentMessage)
    case Ok(s2, _) =>
      var s3 := SkipSpaces(s2);
      var r := ParseInteger(s3);
      if r.Ok? then
        AdvancesTransitive(s, s1, s2);
        AdvancesTransitive(s, s2, s3);
        AdvancesTransitive(s, s3, r.stream);
        r
      else r
    case Fail(f) => Fail(f)
  }

  /** The superscript exponent (`⁻²`) is not implemented: it always fails. */
  function ParseUnicodeSuperscriptInteger(s: CharStream): (r: Parsed<Z.Integer>)
    ensures r.Fail? && r.failure == ParseFailure(SuperscriptMessage, Source(s), |s.consumed|)
  {
    Fail(ParseError(SuperscriptMessage, s))
  }

  /** The failure reported when both kinds of exponent fail: the ASCII one's. */
  function MergeError(first: ParseFailure, second: ParseFailure): ParseFailure
  {
    first
  }

  /** `exponent = ascii-exponent | unicode-superscript-integer`. */
  function ParseExponent(s: CharStream): (r: Parsed<Z.Integer>)
    ensures r.Ok? ==> Progress(s, r.stream) && Z.IsNormal(r.value)
    ensures r == ParseAsciiExponent(s)
  {
    var ascii := ParseAsciiExponent(s);
    if ascii.Fail? then
      var unicode := ParseUnicodeSuperscriptInteger(s);
      if unicode.Fail? then Fail(MergeError(ascii.failure, unicode.failure)) else unicode
    else ascii
  }

  /** `term = id exponent?`: a one-name units map; a missing or malformed exponent means 1. */
  function ParseTerm(s: CharStream): (r: Parsed<R.Units>)
    ensures r.Ok? <==> ParseId(s).Ok?
    ensures r.Ok? ==> Progress(s, r.stream) && R.AllNormal(r.value)
    ensures r.Fail? ==> r.failure == ParseId(s).failure
  {
    match ParseId(s)
    case Ok(s1, id) =>
      var e := ParseExponent(s1);
      var s2 := if e.Ok? then e.stream else s1;
      ProgressThenAdvance(s, s1, s2);
      Ok(s2, map[id := if e.Ok? then e.value else Z.Int(1)])
    case Fail(f) => Fail(f)
  }

  /**
    A term maps exactly the identifier read to its exponent, or to 1 when no
    exponent follows; it ends after the exponent, or after the identifier.
  */
  lemma ParseTermSpec(s: CharStream)
    requires ParseId(s).Ok?
    ensures var id := ParseId(s); var e := ParseExponent(id.stream); var r := ParseTerm(s);
      && r.Ok? && r.value.Keys == {id.value}
      && r.value[id.value] == (if e.Ok? then e.value else Z.Int(1))
      && r.stream == (if e.Ok? then e.stream else id.stream)
  {
    var id := ParseId(s);
    var e := ParseExponent(id.stream);
    var term := map[id.value := if e.Ok? then e.value else Z.Int(1)];
    assert ParseTerm(s) == Ok(if e.Ok? then e.stream else id.stream, term);
    assert term.Keys == {id.value};
  }

  /** Progress followed by an advance (possibly of nothing) is progress. */
  lemma ProgressThenAdvance(s: CharStream, s1: CharStream, s2: CharStream)
    requires Progress(s, s1)
    requires s2 == s1 || Progress(s1, s2)
    ensures Progress(s, s2)
  {
    if s2 != s1 {
      AdvancesTransitive(s, s1, s2);
    }
  }

  /**
    `tail-term = (spaces "*")? term`: the joiner is optional. After spaces
    and a `*`, the term that follows it; otherwise the term read from where
    the tail term starts.
  */
  function ParseTailTerm(s: CharStream): (r: Parsed<R.Units>)
    ensures r.Ok? ==> Progress(s, r.stream) && R.AllNormal(r.value)
    ensures var s1 := SkipSpaces(s);
      r == if s1.remaining != [] && s1.remaining[0] == '*'
           then ParseTerm(CharStream(s1.consumed + "*", s1.remaining[1..]))
           else ParseTerm(s)
  {
    var s1 := SkipSpaces(s);
    match AnyOf(s1, {'*'}, JoinerMessage)
    case Ok(s2, _) =>
      var r := ParseTerm(s2);
      if r.Ok? then AdvancesTransitive(s, s1, s2); AdvancesTransitive(s, s2, r.stream); r else r
    case Fail(_) => ParseTerm(s)
  }

  /** `tail-term*`, multiplying each term into `terms`; never fails, and stops where no tail term follows. */
  function ParseTailTerms(s: CharStream, terms: R.Units): (r: Parsed<R.Units>)
    ensures r.Ok? && Advances(s, r.stream)
    ensures ParseTailTerm(r.stream).Fail?
    ensures R.AllNormal(terms) ==> R.AllNormal(r.value)
    decreases |s.remaining|
  {
    match ParseTailTerm(s)
    case Ok(s2, term) =>
      R.MulSpec(terms, term);
      var r := ParseTailTerms(s2, R.Mul(terms, term));
      AdvancesTransitive(s, s2, r.stream);
      r
    case Fail(_) => Ok(s, terms)
  }

  /**
    The accumulated `terms` only multiply into the result: reading tail terms
    onto `terms` stops where reading them onto `{}` stops, and every exponent
    is the one in `terms` plus the one read (so `"m m"` gives `m` exponent 2).
  */
  lemma {:induction false} ParseTailTermsAccumulates(s: CharStream, terms: R.Units)
    ensures var r := ParseTailTerms(s, terms); var read := ParseTailTerms(s, Dimensionless);
      && r.stream == read.stream
      && forall k :: R.Exponent(r.value, k) == R.Exponent(terms, k) + R.Exponent(read.value, k)
    decreases |s.remaining|
  {
    match ParseTailTerm(s)
    case Ok(s2, term) =>
      var r2 := ParseTailTerms(s2, R.Mul(terms, term));
      var read2 := ParseTailTerms(s2, R.Mul(Dimensionless, term));
      ParseTailTermsAccumulates(s2, R.Mul(terms, term));
      ParseTailTermsAccumulates(s2, R.Mul(Dimensionless, term));
      R.MulSpec(terms, term);
      R.MulSpec(Dimensionless, term);
      assert ParseTailTerms(s, terms) == r2;
      assert ParseTailTerms(s, Dimensionless) == read2;
    case Fail(_) =>
  }

  /** `terms1 = term tail-term*`. */
  function ParseTerms1(s: CharStream): (r: Parsed<R.Units>)
    ensures r.Ok? <==> ParseId(s).Ok?
    ensures r.Ok? ==> Progress(s, r.stream) && R.AllNormal(r.value)
    ensures r.Fail? ==> r.failure == ParseId(s).failure
  {
    match ParseTerm(s)
    case Ok(s1, term0) =>
      var r := ParseTailTerms(s1, term0);
      AdvancesTransitive(s, s1, r.stream);
      r
    case Fail(f) => Fail(f)
  }

  /** The dimensionless units `{}`. */
  const Dimensionless: R.Units := map[]

  /** `terms0 = terms1?`: no terms at all is the dimensionless units; never fails. */
  function ParseTerms0(s: CharStream): (r: Parsed<R.Units>)
    ensures r.Ok? && Advances(s, r.stream) && R.AllNormal(r.value)
    ensures ParseId(s).Fail? ==> r == Ok(s, Dimensionless)
  {
    match ParseTerms1(s)
    case Ok(s1, value) => Ok(s1, value)
    case Fail(_) => Ok(s, Dimensionless)
  }

  /** `single-fraction-tail = spaces "/" terms0`. */
  function ParseSingleFractionTail(s: CharStream): (r: Parsed<R.Units>)
    ensures r.Ok? <==> SkipSpaces(s).remaining != [] && SkipSpaces(s).remaining[0] == '/'
    ensures r.Ok? ==> Progress(s, r.stream) && R.AllNormal(r.value)
    ensures r.Fail? ==> r.failure == ParseFailure(FractionMessage, Source(s), |SkipSpaces(s).consumed|)
  {
    var s1 := SkipSpaces(s);
    AdvancesKeepsSource(s, s1);
    match AnyOf(s1, {'/'}, FractionMessage)
    case Ok(s2, _) =>
      var r := ParseTerms0(s2);
      AdvancesTransitive(s, s1, s2);
      AdvancesTransitive(s, s2, r.stream);
      r
    case Fail(f) => Fail(f)
  }

  /** `units-body = terms0 single-fraction-tail?`: numerator times the reciprocal of the denominator; never fails. */
  function ParseUnitsBody(s: CharStream): (r: Parsed<R.Units>)
    ensures r.Ok? && Advances(s, r.stream) && R.AllNormal(r.value)
  {
    match ParseTerms0(s)
    case Ok(s1, numerator) =>
      (match ParseSingleFractionTail(s1)
       case Ok(s2, denominator) =>
         AdvancesTransitive(s, s1, s2);
         R.MulSpec(numerator, R.Neg(denominator));
         Ok(s2, R.Mul(numerator, R.Neg(denominator)))
       case Fail(_) => Ok(s1, numerator))
    case Fail(f) => Fail(f)
  }

  /**
    `units = units-body spaces EOS`: the body's units when only spaces
    follow it, or else the end message at the first character left over.
  */
  function ParseUnits(s: CharStream): (r: Parsed<R.Units>)
    ensures r.Ok? ==> Advances(s, r.stream) && AtEnd(r.stream) && R.AllNormal(r.value)
    ensures r.Fail? ==> var f := r.failure;
      && f.message == EndMessage && f.source == Source(s)
      && |s.consumed| <= f.position < |f.source| && f.source[f.position] != ' '
    ensures var body := ParseUnitsBody(s); var rest := SkipSpaces(body.stream);
      && (r.Ok? <==> AtEnd(rest))
      && (r.Ok? ==> r.value == body.value)
      && (r.Fail? ==> r.failure == ParseFailure(EndMessage, Source(s), |rest.consumed|))
  {
    match ParseUnitsBody(s)
    case Ok(s2, terms) =>
      var s3 := SkipSpaces(s2);
      AdvancesTransitive(s, s2, s3);
      AdvancesSlices(s, s3);
      if AtEnd(s3) then Ok(s3, terms) else Fail(ParseError(EndMessage, s3))
    case Fail(f) => Fail(f)
  }

  /** Parses a units string and normalizes the result. */
  function UnitOrFailure(view: string): (r: Result<R.Units, ParseFailure>)
    ensures r.Success? <==> ParseUnits(CharStreamFromString(view)).Ok?
    ensures r.Success? ==>
      && R.Reduced(r.value)
      && forall k :: R.Exponent(r.value, k) == R.Exponent(ParseUnits(CharStreamFromString(view)).value, k)
    ensures r.Failure? ==>
      && r.error.message == EndMessage && r.error.source == view
      && r.error.position < |view| && view[r.error.position] != ' '
    ensures r.Failure? ==> r.error == ParseUnits(CharStreamFromString(view)).failure
  {
    match ParseUnits(CharStreamFromString(view))
    case Ok(_, value) =>
      R.NormalizeSpec(value);
      Success(R.Normalize(value))
    case Fail(f) => Failure(f)
  }

  /**
    With a fraction tail, every exponent of the body is the numerator's
    minus the denominator's; without one, the body is the numerator alone.
  */
  lemma ParseUnitsBodySpec(s: CharStream)
    ensures var numerator := ParseTerms0(s);
      var tail := ParseSingleFractionTail(numerator.stream);
      var body := ParseUnitsBody(s);
      && (tail.Ok? ==>
            && body.stream == tail.stream
            && forall k :: R.Exponent(body.value, k) == R.Exponent(numerator.value, k) - R.Exponent(tail.value, k))
      && (tail.Fail? ==> body == numerator)
  {
    var numerator := ParseTerms0(s);
    var tail := ParseSingleFractionTail(numerator.stream);
    if tail.Ok? {
      R.MulSpec(numerator.value, R.Neg(tail.value));
    }
  }
}

module UnitsParserExamples {
  import opened Wrappers
  import opened Streams
  import opened Syntax
  import opened UnitsParser
  import N = Natural
  import Z = Integers
  import R = Representation

  lemma IdCannotStartWithDigit()
    ensures ParseId(CharStreamFromString(" 123")).failure == ParseFailure(IdCharMessage, " 123", 1)
  {
    assert SkipSpaces(CharStreamFromString(" 123")) == CharStream(" ", "123");
  }

  lemma EmptyInteger()
    ensures ParseInteger(CharStreamFromString("")).failure == ParseFailure(DigitMessage, "", 0)
  {
  }

  lemma MinusWithoutDigits()
    ensures ParseInteger(CharStreamFromString("-")).failure == ParseFailure(DigitMessage, "-", 1)
  {
    ParseIntegerSpec(CharStreamFromString("-"));
  }

  lemma NegativeZero()
    ensures ParseInteger(CharStreamFromString("-0")).value == Z.Int(0)
  {
    ParseIntegerSpec(CharStreamFromString("-0"));
  }

  /** No terms at all is the dimensionless units. */
  lemma EmptyTerms()
    ensures ParseTerms0(CharStreamFromString("")) == Ok(CharStreamFromString(""), Dimensionless)
  {
  }

  /** A bare name has exponent 1. */
  lemma BareName()
    ensures ParseTerm(CharStreamFromString("m")).Ok?
    ensures ParseTerm(CharStreamFromString("m")).value == map["m" := Z.Int(1)]
  {
    assert ['m'] + "" == "m";
    TermWithoutExponent('m', "");
  }

  /** The letters of the examples are identifier characters. */
  lemma LetterIsIdChar(c: char)
    requires c in "ams"
    ensures Syntax.IsIdChar(c)
  {
    assert c !in Syntax.SuperscriptDigits by {
      assert forall i :: 0 <= i < 10 ==> Syntax.Superscript0To9[i] != c;
    }
  }

  /** A one-letter name followed by nothing or by a character that cannot continue it. */
  lemma OneLetterId(c: char, rest: string)
    requires c in "ms" && rest in ["", "123", "^"]
    ensures ParseId(CharStreamFromString([c] + rest)) == Ok(CharStream([c], rest), [c])
  {
    var s := CharStreamFromString([c] + rest);
    var t := CharStream([c], rest);
    LetterIsIdChar(c);
    assert SkipSpaces(s) == s;
    assert ParseIdChar(s) == Ok(t, c);
    assert ParseIdChar(t).Fail?;
    assert ParseIdChars0(t, [c]) == Ok(t, [c]);
  }

  /** With no `^` and integer after a name, the term is that name to the power 1. */
  lemma TermWithoutExponent(c: char, rest: string)
    requires c in "ms" && rest in ["", "123", "^"]
    ensures ParseTerm(CharStreamFromString([c] + rest)) == Ok(CharStream([c], rest), map[[c] := Z.Int(1)])
  {
    var s := CharStreamFromString([c] + rest);
    OneLetterId(c, rest);
    NoExponent(c, rest);
    ParseTermSpec(s);
    var r := ParseTerm(s);
    assert r.value == map[[c] := Z.Int(1)];
  }

  /** Neither a digit, nor a `^` with nothing after it, nor the end starts an exponent. */
  lemma NoExponent(c: char, rest: string)
    requires rest in ["", "123", "^"]
    ensures ParseAsciiExponent(CharStream([c], rest)).Fail?
  {
    var t := CharStream([c], rest);
    assert SkipSpaces(t) == t;
    if rest == "^" {
      var u := CharStream([c] + "^", "");
      assert SkipSpaces(u) == u;
      assert ParseInteger(u).Fail?;
    }
  }

  /** No term follows where a digit or a `^` comes next. */
  lemma NoTailTerm(c: char, rest: string)
    requires rest in ["123", "^"]
    ensures ParseTailTerm(CharStream([c], rest)).Fail?
  {
    var t := CharStream([c], rest);
    assert SkipSpaces(t) == t;
    assert !Syntax.IsIdChar(rest[0]);
    assert ParseId(t).Fail?;
  }

  /** Terms stop at the first character that cannot start a name. */
  lemma TermsStopAtDigits()
    ensures ParseTerms0(CharStreamFromString("m123")) == Ok(CharStream("m", "123"), map["m" := Z.Int(1)])
  {
    var s := CharStreamFromString("m123");
    var t := CharStream("m", "123");
    var term := map["m" := Z.Int(1)];
    assert ['m'] + "123" == "m123";
    TermWithoutExponent('m', "123");
    NoTailTerm('m', "123");
    assert ParseTailTerms(t, term) == Ok(t, term);
    assert ParseTerms1(s) == Ok(t, term);
  }

  /**
    A `^` without an integer after it is not an exponent: the term is read
    with exponent 1, and the `^` is left over where the end is required.
  */
  lemma DanglingCaret()
    ensures ParseUnits(CharStreamFromString("s^")) == Fail(ParseFailure(EndMessage, "s^", 1))
  {
    var s := CharStreamFromString("s^");
    var t := CharStream("s", "^");
    assert ['s'] + "^" == "s^";
    TermWithoutExponent('s', "^");
    NoTailTerm('s', "^");
    assert ParseTerms0(s) == Ok(t, map["s" := Z.Int(1)]);
    assert SkipSpaces(t) == t;
    assert ParseSingleFractionTail(t).Fail?;
  }

  // ---------- one step of each layer, on any stream ----------

  /** A one-character name after spaces, where the next character cannot continue it. */
  lemma IdAt(s: CharStream, consumed: string, c: char, rest: string)
    requires SkipSpaces(s) == CharStream(consumed, [c] + rest)
    requires IsIdChar(c) && (rest == [] || !IsIdChar(rest[0]))
    ensures ParseId(s) == Ok(CharStream(consumed + [c], rest), [c])
  {
    var t := SkipSpaces(s);
    var t2 := CharStream(consumed + [c], rest);
    assert ([c] + rest)[1..] == rest;
    assert ParseIdChar(t) == Ok(t2, c);
    assert ParseIdChars0(t2, [c]) == Ok(t2, [c]);
  }

  /** One digit ending the input: its value with the sign. */
  lemma OneDigit(u: CharStream, sign: Z.Sign, d: char)
    requires u.remaining == [d] && d in AsciiDigits
    ensures var r := ParseDigits1(u, sign, N.Known(0));
      && r.Ok? && r.stream == CharStream(u.consumed + [d], [])
      && Z.Value(r.value) == Signed(sign, DigitValue(d))
  {
    var u2 := CharStream(u.consumed + [d], []);
    assert ParseDigit(u).stream == u2;
    assert ParseDigits0(u2, sign, N.Add(N.Mul(N.Known(0), N.Ten()), ParseDigit(u).value)).stream == u2;
  }

  /** An unsigned one-digit integer ending the input, after spaces. */
  lemma IntegerToEnd(s: CharStream, consumed: string, d: char)
    requires SkipSpaces(s) == CharStream(consumed, [d]) && d in AsciiDigits
    ensures ParseInteger(s) == Ok(CharStream(consumed + [d], []), Z.Int(DigitValue(d)))
  {
    ParseIntegerUnfold(s);
    OneDigit(SkipSpaces(s), Z.Plus, d);
    Z.Canonical(ParseInteger(s).value, Z.Int(DigitValue(d)));
  }

  /** A negative one-digit integer ending the input, after spaces. */
  lemma NegativeIntegerToEnd(s: CharStream, consumed: string, d: char)
    requires SkipSpaces(s) == CharStream(consumed, ['-', d]) && d in AsciiDigits
    ensures ParseInteger(s) == Ok(CharStream(consumed + ['-', d], []), Z.Int(-(DigitValue(d) as int)))
  {
    var u := CharStream(consumed + "-", [d]);
    assert ['-', d][1..] == [d];
    assert DigitsStart(s) == (u, Z.Minus);
    ParseIntegerUnfold(s);
    OneDigit(u, Z.Minus, d);
    SnocPair(consumed, '-', d);
    Z.Canonical(ParseInteger(s).value, Z.Int(-(DigitValue(d) as int)));
  }

  /** Where the digits start, a run of digits that ends the input is the integer, with its sign. */
  lemma IntegerDigitsToEnd(s: CharStream, consumed: string, digits: string)
    requires digits != [] && AllDigits(digits)
    requires DigitsStart(s).0 == CharStream(consumed, digits)
    ensures var r := ParseInteger(s);
      && r.Ok? && AtEnd(r.stream) && Z.IsNormal(r.value)
      && Z.Value(r.value) == Signed(DigitsStart(s).1, DecimalValue(digits))
  {
    var (d, sign) := DigitsStart(s);
    ParseIntegerUnfold(s);
    var r := ParseDigits1(d, sign, N.Known(0));
    DigitsToEnd(d, r.stream);
    ParseDigits1Value(d, sign);
    assert Taken(d, r.stream) == digits;
  }

  lemma Uncons2(a: char, b: char)
    ensures [a, b] == [a] + [b]
  {
  }

  lemma Uncons3(a: char, b: char, c: char)
    ensures [a, b, c] == [a] + [b, c]
  {
  }

  lemma Uncons4(a: char, b: char, c: char, d: char)
    ensures [a, b, c, d] == [a] + [b, c, d]
  {
  }

  lemma Uncons5(a: char, b: char, c: char, d: char, e: char)
    ensures [a, b, c, d, e] == [a] + [b, c, d, e]
  {
  }

  lemma Uncons6(a: char, b: char, c: char, d: char, e: char, f: char)
    ensures [a, b, c, d, e, f] == [a] + [b, c, d, e, f]
  {
  }

  lemma Uncons8(a: char, b: char, c: char, d: char, e: char, f: char, g: char, h: char)
    ensures [a, b, c, d, e, f, g, h] == [a] + [b, c, d, e, f, g, h]
  {
  }

  lemma DropFirst(a: char, rest: string)
    ensures ([a] + rest)[1..] == rest
  {
  }

  lemma SnocPair(a: string, x: char, y: char)
    ensures a + [x] + [y] == a + [x, y]
  {
  }

  /** Right after `^`, the ASCII exponent is the integer read there. */
  lemma ExponentAt(s: CharStream, consumed: string, after: string)
    requires !AtSpace(after)
    requires SkipSpaces(s) == CharStream(consumed, "^" + after)
    ensures ParseAsciiExponent(s) == ParseInteger(CharStream(consumed + "^", after))
  {
    assert ("^" + after)[1..] == after;
    SkipNoSpaces(CharStream(consumed + "^", after));
  }

  /** After `^` and one space, the ASCII exponent is the integer read there. */
  lemma SpacedExponentAt(s: CharStream, consumed: string, after: string)
    requires !AtSpace(after)
    requires SkipSpaces(s) == CharStream(consumed, "^" + (" " + after))
    ensures ParseAsciiExponent(s) == ParseInteger(CharStream(consumed + "^" + " ", after))
  {
    assert ("^" + (" " + after))[1..] == " " + after;
    SkipOneSpace(consumed + "^", after);
  }

  /** A term with a one-character name: the name to the exponent after it, or to 1 without one. */
  lemma TermAt(s: CharStream, consumed: string, c: char, rest: string)
    requires SkipSpaces(s) == CharStream(consumed, [c] + rest)
    requires IsIdChar(c) && (rest == [] || !IsIdChar(rest[0]))
    ensures var s1 := CharStream(consumed + [c], rest);
      var e := ParseAsciiExponent(s1);
      ParseTerm(s) == if e.Ok? then Ok(e.stream, map[[c] := e.value]) else Ok(s1, map[[c] := Z.Int(1)])
  {
    IdAt(s, consumed, c, rest);
  }

  /** A one-character name with no `^` after it (past spaces): the name to the power 1. */
  lemma BareTermAt(s: CharStream, consumed: string, c: char, rest: string)
    requires SkipSpaces(s) == CharStream(consumed, [c] + rest)
    requires IsIdChar(c) && (rest == [] || !IsIdChar(rest[0]))
    requires var t := SkipSpaces(CharStream(consumed + [c], rest)); t.remaining == [] || t.remaining[0] != '^'
    ensures ParseTerm(s) == Ok(CharStream(consumed + [c], rest), map[[c] := Z.Int(1)])
  {
    TermAt(s, consumed, c, rest);
  }

  /** A one-character name ending the input is that name to the power 1. */
  lemma BareTermToEnd(s: CharStream, consumed: string, c: char)
    requires SkipSpaces(s) == CharStream(consumed, [c]) && IsIdChar(c)
    ensures ParseTerm(s) == Ok(CharStream(consumed + [c], []), map[[c] := Z.Int(1)])
  {
    assert [c] == [c] + [];
    SkipNoSpaces(CharStream(consumed + [c], []));
    BareTermAt(s, consumed, c, []);
  }

  /** `^-d` ending the input, right after a name, is the exponent `-d`. */
  lemma NegativeExponentToEnd(s: CharStream, d: char)
    requires s.remaining == ['^', '-', d] && d in AsciiDigits
    ensures var r := ParseAsciiExponent(s);
      r.Ok? && AtEnd(r.stream) && r.value == Z.Int(-(DigitValue(d) as int))
  {
    SkipNoSpaces(s);
    assert s.remaining == "^" + ['-', d];
    ExponentAt(s, s.consumed, ['-', d]);
    var w := CharStream(s.consumed + "^", ['-', d]);
    SkipNoSpaces(w);
    NegativeIntegerToEnd(w, w.consumed, d);
  }

  /** `^d` ending the input, right after a name, is the exponent `d`. */
  lemma ExponentToEnd(s: CharStream, d: char)
    requires s.remaining == ['^', d] && d in AsciiDigits
    ensures var r := ParseAsciiExponent(s);
      r.Ok? && AtEnd(r.stream) && r.value == Z.Int(DigitValue(d))
  {
    SkipNoSpaces(s);
    assert s.remaining == "^" + [d];
    ExponentAt(s, s.consumed, [d]);
    var w := CharStream(s.consumed + "^", [d]);
    SkipNoSpaces(w);
    IntegerToEnd(w, w.consumed, d);
  }

  /** `c^-d` ending the input is `c` to the power `-d`. */
  lemma NegativeTermToEnd(s: CharStream, consumed: string, c: char, d: char)
    requires SkipSpaces(s) == CharStream(consumed, [c, '^', '-', d]) && IsIdChar(c) && d in AsciiDigits
    ensures var r := ParseTerm(s);
      r.Ok? && AtEnd(r.stream) && r.value == map[[c] := Z.Int(-(DigitValue(d) as int))]
  {
    Uncons4(c, '^', '-', d);
    TermAt(s, consumed, c, ['^', '-', d]);
    NegativeExponentToEnd(CharStream(consumed + [c], ['^', '-', d]), d);
  }

  /** `c^d` ending the input is `c` to the power `d`. */
  lemma PositiveTermToEnd(s: CharStream, consumed: string, c: char, d: char)
    requires SkipSpaces(s) == CharStream(consumed, [c, '^', d]) && IsIdChar(c) && d in AsciiDigits
    ensures var r := ParseTerm(s);
      r.Ok? && AtEnd(r.stream) && r.value == map[[c] := Z.Int(DigitValue(d))]
  {
    Uncons3(c, '^', d);
    TermAt(s, consumed, c, ['^', d]);
    ExponentToEnd(CharStream(consumed + [c], ['^', d]), d);
  }

  /** No tail term starts at the end, or at a character that is neither `*` nor a name's. */
  lemma NoTailTermAt(s: CharStream)
    requires var t := SkipSpaces(s); t.remaining == [] || (t.remaining[0] != '*' && !IsIdChar(t.remaining[0]))
    ensures ParseTailTerm(s).Fail?
  {
  }

  /** Exactly one tail term: it is multiplied into `terms`. */
  lemma OneTailTerm(s: CharStream, terms: R.Units)
    requires ParseTailTerm(s).Ok? && ParseTailTerm(ParseTailTerm(s).stream).Fail?
    ensures ParseTailTerms(s, terms) == Ok(ParseTailTerm(s).stream, R.Mul(terms, ParseTailTerm(s).value))
  {
  }

  /** With a first term, `terms0` goes on with the tail terms after it. */
  lemma TermsAfterFirst(s: CharStream)
    requires ParseTerm(s).Ok?
    ensures ParseTerms0(s) == ParseTailTerms(ParseTerm(s).stream, ParseTerm(s).value)
  {
  }

  /** A last tail term that ends the input is multiplied into `terms`. */
  lemma LastTailTerm(s: CharStream, terms: R.Units)
    requires ParseTailTerm(s).Ok? && AtEnd(ParseTailTerm(s).stream)
    ensures ParseTailTerms(s, terms) == Ok(ParseTailTerm(s).stream, R.Mul(terms, ParseTailTerm(s).value))
  {
    NoTailTermAt(ParseTailTerm(s).stream);
    OneTailTerm(s, terms);
  }

  /** Terms that end the input, with no fraction, are the units. */
  lemma UnitsWithoutFraction(s: CharStream)
    requires AtEnd(ParseTerms0(s).stream)
    ensures ParseUnits(s) == Ok(ParseTerms0(s).stream, ParseTerms0(s).value)
  {
    SkipNoSpaces(ParseTerms0(s).stream);
  }

  /** A fraction tail that ends the input: the units are reduced, numerator's exponents minus denominator's. */
  lemma UnitsWithFraction(s: CharStream)
    requires var tail := ParseSingleFractionTail(ParseTerms0(s).stream); tail.Ok? && AtEnd(tail.stream)
    ensures var numerator := ParseTerms0(s); var tail := ParseSingleFractionTail(numerator.stream);
      var r := ParseUnits(s);
      && r.Ok? && R.Reduced(r.value)
      && forall k :: R.Exponent(r.value, k) == R.Exponent(numerator.value, k) - R.Exponent(tail.value, k)
  {
    var numerator := ParseTerms0(s);
    var tail := ParseSingleFractionTail(numerator.stream);
    ParseUnitsBodySpec(s);
    SkipNoSpaces(tail.stream);
    R.MulSpec(numerator.value, R.Neg(tail.value));
  }

  /** The product of two one-name units with different names holds both. */
  lemma MulTwoNames(k1: string, k2: string, a: Z.Integer, b: Z.Integer)
    requires k1 != k2 && Z.IsNormal(a) && Z.IsNormal(b) && Z.Value(a) != 0 && Z.Value(b) != 0
    ensures R.Mul(map[k1 := a], map[k2 := b]) == map[k1 := a, k2 := b]
  {
    R.MulSpec(map[k1 := a], map[k2 := b]);
    R.Extensional(R.Mul(map[k1 := a], map[k2 := b]), map[k1 := a, k2 := b]);
  }

  /** A term ending the input is all of `terms0`. */
  lemma OnlyTermToEnd(s: CharStream)
    requires ParseTerm(s).Ok? && AtEnd(ParseTerm(s).stream)
    ensures ParseTerms0(s) == ParseTerm(s)
  {
    NoTailTermAt(ParseTerm(s).stream);
    TermsAfterFirst(s);
  }

  /** A term followed by something that starts no tail term is all of `terms0`. */
  lemma OnlyTerm(s: CharStream)
    requires ParseTerm(s).Ok? && ParseTailTerm(ParseTerm(s).stream).Fail?
    ensures ParseTerms0(s) == ParseTerm(s)
  {
    TermsAfterFirst(s);
  }

  /** Right after `/`, the fraction tail is the terms read there. */
  lemma FractionAt(s: CharStream, consumed: string, rest: string)
    requires SkipSpaces(s) == CharStream(consumed, ['/'] + rest)
    ensures ParseSingleFractionTail(s) == ParseTerms0(CharStream(consumed + ['/'], rest))
  {
    DropFirst('/', rest);
  }

  /** A one-character numerator followed by `/`. */
  lemma BareNumerator(s: CharStream, c: char, rest: string)
    requires s == CharStream("", [c] + rest) && IsIdChar(c)
    requires rest != [] && rest[0] == '/'
    ensures ParseTerms0(s) == Ok(CharStream([c], rest), map[[c] := Z.Int(1)])
  {
    IdCharIsNoSymbol(c);
    SkipNoSpaces(s);
    var s1 := CharStream("" + [c], rest);
    SkipNoSpaces(s1);
    BareTermAt(s, "", c, rest);
    NoTailTermAt(s1);
    OnlyTerm(s);
    assert "" + [c] == [c];
  }

  // ---------- the examples, step by step ----------

  /** `^-d` is the exponent `-d`. */
  lemma NegativeExponentOf(d: char)
    requires d in AsciiDigits
    ensures var r := ParseAsciiExponent(CharStreamFromString(['^', '-', d]));
      r.Ok? && r.value == Z.Int(-(DigitValue(d) as int))
  {
    NegativeExponentToEnd(CharStreamFromString(['^', '-', d]), d);
  }

  lemma AsciiExponentMinusOne()
    ensures var r := ParseAsciiExponent(CharStreamFromString("^-1")); r.Ok? && r.value == Z.Int(-1)
  {
    NegativeExponentOf('1');
  }

  /** A name character is none of the characters the grammar gives a meaning. */
  lemma IdCharIsNoSymbol(c: char)
    requires IsIdChar(c)
    ensures c != ' ' && c != '^' && c != '*' && c != '/' && c !in AsciiDigits
  {
  }

  /** ` ^ -d` ending the input is the exponent `-d`. */
  lemma SpacedNegativeExponent(s: CharStream, d: char)
    requires s.remaining == [' ', '^', ' ', '-', d] && d in AsciiDigits
    ensures var r := ParseAsciiExponent(s);
      r.Ok? && AtEnd(r.stream) && r.value == Z.Int(-(DigitValue(d) as int))
  {
    assert s.remaining == " " + ("^" + (" " + ['-', d]));
    SkipOneSpace(s.consumed, "^" + (" " + ['-', d]));
    SpacedExponentAt(s, s.consumed + " ", ['-', d]);
    var w := CharStream(s.consumed + " " + "^" + " ", ['-', d]);
    SkipNoSpaces(w);
    NegativeIntegerToEnd(w, w.consumed, d);
  }

  /** Spaces may come before the name, before `^` and after it. */
  lemma SpacedTermOf(c: char, d: char)
    requires IsIdChar(c) && d in AsciiDigits
    ensures var r := ParseTerm(CharStreamFromString([' ', c, ' ', '^', ' ', '-', d]));
      r.Ok? && r.value == map[[c] := Z.Int(-(DigitValue(d) as int))]
  {
    IdCharIsNoSymbol(c);
    var s := CharStreamFromString([' ', c, ' ', '^', ' ', '-', d]);
    assert s.remaining == " " + ([c] + [' ', '^', ' ', '-', d]);
    SkipOneSpace("", [c] + [' ', '^', ' ', '-', d]);
    TermAt(s, "" + " ", c, [' ', '^', ' ', '-', d]);
    SpacedNegativeExponent(CharStream("" + " " + [c], [' ', '^', ' ', '-', d]), d);
  }

  lemma SpacedTerm()
    ensures var r := ParseTerm(CharStreamFromString(" s ^ -6")); r.Ok? && r.value == map["s" := Z.Int(-6)]
  {
    LetterIsIdChar('s');
    SpacedTermOf('s', '6');
  }

  /** `c1 c2^-d`: the first name to the power 1 times the second to `-d`. */
  lemma SpacedTermsOf(c1: char, c2: char, d: char)
    requires IsIdChar(c1) && IsIdChar(c2) && d in AsciiDigits
    ensures var r := ParseTerms0(CharStreamFromString([c1, ' ', c2, '^', '-', d]));
      && r.Ok? && AtEnd(r.stream)
      && r.value == R.Mul(map[[c1] := Z.Int(1)], map[[c2] := Z.Int(-(DigitValue(d) as int))])
  {
    IdCharIsNoSymbol(c1);
    IdCharIsNoSymbol(c2);
    var s := CharStreamFromString([c1, ' ', c2, '^', '-', d]);
    Uncons6(c1, ' ', c2, '^', '-', d);
    SkipNoSpaces(s);
    var s1 := CharStream("" + [c1], [' ', c2, '^', '-', d]);
    Uncons5(' ', c2, '^', '-', d);
    SkipOneSpace(s1.consumed, [c2, '^', '-', d]);
    BareTermAt(s, "", c1, [' ', c2, '^', '-', d]);
    NegativeTermToEnd(s1, s1.consumed + " ", c2, d);
    LastTailTerm(s1, map[[c1] := Z.Int(1)]);
    TermsAfterFirst(s);
  }

  /** `c1 * c2^-d`: the joiner changes nothing. */
  lemma JoinedTermsOf(c1: char, c2: char, d: char)
    requires IsIdChar(c1) && IsIdChar(c2) && d in AsciiDigits
    ensures var r := ParseTerms0(CharStreamFromString([c1, ' ', '*', ' ', c2, '^', '-', d]));
      && r.Ok? && AtEnd(r.stream)
      && r.value == R.Mul(map[[c1] := Z.Int(1)], map[[c2] := Z.Int(-(DigitValue(d) as int))])
  {
    IdCharIsNoSymbol(c1);
    IdCharIsNoSymbol(c2);
    var s := CharStreamFromString([c1, ' ', '*', ' ', c2, '^', '-', d]);
    Uncons8(c1, ' ', '*', ' ', c2, '^', '-', d);
    SkipNoSpaces(s);
    var s1 := CharStream("" + [c1], [' ', '*', ' ', c2, '^', '-', d]);
    Uncons6('*', ' ', c2, '^', '-', d);
    SkipOneSpace(s1.consumed, ['*', ' ', c2, '^', '-', d]);
    BareTermAt(s, "", c1, [' ', '*', ' ', c2, '^', '-', d]);
    DropFirst('*', [' ', c2, '^', '-', d]);
    var u := CharStream(s1.consumed + " " + "*", [' ', c2, '^', '-', d]);
    assert ParseTailTerm(s1) == ParseTerm(u);
    Uncons5(' ', c2, '^', '-', d);
    SkipOneSpace(u.consumed, [c2, '^', '-', d]);
    NegativeTermToEnd(u, u.consumed + " ", c2, d);
    LastTailTerm(s1, map[[c1] := Z.Int(1)]);
    TermsAfterFirst(s);
  }

  /** `c c`: a repeated name multiplies with itself. */
  lemma RepeatedNameOf(c: char)
    requires IsIdChar(c)
    ensures var r := ParseTerms0(CharStreamFromString([c, ' ', c]));
      r.Ok? && AtEnd(r.stream) && r.value == R.Mul(map[[c] := Z.Int(1)], map[[c] := Z.Int(1)])
  {
    IdCharIsNoSymbol(c);
    var s := CharStreamFromString([c, ' ', c]);
    Uncons3(c, ' ', c);
    SkipNoSpaces(s);
    var s1 := CharStream("" + [c], [' ', c]);
    Uncons2(' ', c);
    SkipOneSpace(s1.consumed, [c]);
    BareTermAt(s, "", c, [' ', c]);
    BareTermToEnd(s1, s1.consumed + " ", c);
    LastTailTerm(s1, map[[c] := Z.Int(1)]);
    TermsAfterFirst(s);
  }

  /** A name times itself has exponent 2. */
  lemma MulSameName(k: string)
    ensures R.Mul(map[k := Z.Int(1)], map[k := Z.Int(1)]) == map[k := Z.Int(2)]
  {
    R.MulSpec(map[k := Z.Int(1)], map[k := Z.Int(1)]);
    R.Extensional(R.Mul(map[k := Z.Int(1)], map[k := Z.Int(1)]), map[k := Z.Int(2)]);
  }

  /** Reduced units with the exponents of `{k1: a} / {k2: b}` are `{k1: a, k2: -b}`. */
  lemma QuotientOfNames(r: R.Units, k1: string, a: Z.Integer, k2: string, b: Z.Integer, c: Z.Integer)
    requires R.Reduced(r) && k1 != k2
    requires Z.IsNormal(a) && Z.IsNormal(c) && Z.Value(a) != 0 && Z.Value(c) == -Z.Value(b) != 0
    requires forall k :: R.Exponent(r, k) == R.Exponent(map[k1 := a], k) - R.Exponent(map[k2 := b], k)
    ensures r == map[k1 := a, k2 := c]
  {
    R.Extensional(r, map[k1 := a, k2 := c]);
  }

  /** Reduced units with the exponents of `{} / {k: a}` are `{k: -a}`. */
  lemma ReciprocalOfName(r: R.Units, k1: string, a: Z.Integer, c: Z.Integer)
    requires R.Reduced(r) && Z.IsNormal(c) && Z.Value(c) == -Z.Value(a) != 0
    requires forall k :: R.Exponent(r, k) == R.Exponent(Dimensionless, k) - R.Exponent(map[k1 := a], k)
    ensures r == map[k1 := c]
  {
    R.Extensional(r, map[k1 := c]);
  }

  /** Reduced units with the exponents of `{k: a} / {}` are `{k: a}`. */
  lemma OverDimensionless(r: R.Units, k1: string, a: Z.Integer)
    requires R.Reduced(r) && Z.IsNormal(a) && Z.Value(a) != 0
    requires forall k :: R.Exponent(r, k) == R.Exponent(map[k1 := a], k) - R.Exponent(Dimensionless, k)
    ensures r == map[k1 := a]
  {
    R.Extensional(r, map[k1 := a]);
  }

  /** `c1/c2^d` is read as the numerator `{c1: 1}` over the denominator `{c2: d}`. */
  lemma FractionRead(c1: char, c2: char, d: char)
    requires IsIdChar(c1) && IsIdChar(c2) && d in AsciiDigits
    ensures var r := ParseUnits(CharStreamFromString([c1, '/', c2, '^', d]));
      && r.Ok? && R.Reduced(r.value)
      && forall k :: R.Exponent(r.value, k)
           == R.Exponent(map[[c1] := Z.Int(1)], k) - R.Exponent(map[[c2] := Z.Int(DigitValue(d))], k)
  {
    IdCharIsNoSymbol(c2);
    var s := CharStreamFromString([c1, '/', c2, '^', d]);
    Uncons5(c1, '/', c2, '^', d);
    BareNumerator(s, c1, ['/', c2, '^', d]);
    var s1 := CharStream([c1], ['/', c2, '^', d]);
    SkipNoSpaces(s1);
    Uncons4('/', c2, '^', d);
    FractionAt(s1, [c1], [c2, '^', d]);
    var u := CharStream([c1] + ['/'], [c2, '^', d]);
    SkipNoSpaces(u);
    PositiveTermToEnd(u, u.consumed, c2, d);
    OnlyTermToEnd(u);
    UnitsWithFraction(s);
  }

  /** `c1/c2^d`: the denominator's exponent is negated. */
  lemma FractionOf(c1: char, c2: char, d: char)
    requires IsIdChar(c1) && IsIdChar(c2) && c1 != c2 && d in AsciiDigits && d != '0'
    ensures var r := ParseUnits(CharStreamFromString([c1, '/', c2, '^', d]));
      r.Ok? && r.value == map[[c1] := Z.Int(1), [c2] := Z.Int(-(DigitValue(d) as int))]
  {
    FractionRead(c1, c2, d);
    QuotientOfNames(ParseUnits(CharStreamFromString([c1, '/', c2, '^', d])).value,
      [c1], Z.Int(1), [c2], Z.Int(DigitValue(d)), Z.Int(-(DigitValue(d) as int)));
  }

  /** `/c`: no numerator is the dimensionless units, so the result is the reciprocal. */
  lemma ReciprocalOf(c: char)
    requires IsIdChar(c)
    ensures var r := ParseUnits(CharStreamFromString(['/', c]));
      r.Ok? && r.value == map[[c] := Z.Int(-1)]
  {
    IdCharIsNoSymbol(c);
    var s := CharStreamFromString(['/', c]);
    SkipNoSpaces(s);
    assert ParseTerms0(s) == Ok(s, Dimensionless);
    Uncons2('/', c);
    FractionAt(s, "", [c]);
    var u := CharStream("" + ['/'], [c]);
    SkipNoSpaces(u);
    BareTermToEnd(u, u.consumed, c);
    OnlyTermToEnd(u);
    UnitsWithFraction(s);
    ReciprocalOfName(ParseUnits(s).value, [c], Z.Int(1), Z.Int(-1));
  }

  /** `c/`: an empty denominator is the dimensionless units. */
  lemma EmptyDenominatorOf(c: char)
    requires IsIdChar(c)
    ensures var r := ParseUnits(CharStreamFromString([c, '/']));
      r.Ok? && r.value == map[[c] := Z.Int(1)]
  {
    var s := CharStreamFromString([c, '/']);
    Uncons2(c, '/');
    BareNumerator(s, c, ['/']);
    var s1 := CharStream([c], ['/']);
    SkipNoSpaces(s1);
    assert ['/'] == ['/'] + [];
    FractionAt(s1, [c], []);
    var u := CharStream([c] + ['/'], []);
    SkipNoSpaces(u);
    assert ParseTerms0(u) == Ok(u, Dimensionless);
    UnitsWithFraction(s);
    OverDimensionless(ParseUnits(s).value, [c], Z.Int(1));
  }

  /** The body of `c1/c2/c3` stops before the second `/`. */
  lemma TwoFractionsBody(c1: char, c2: char, c3: char)
    requires IsIdChar(c1) && IsIdChar(c2)
    ensures ParseUnitsBody(CharStreamFromString([c1, '/', c2, '/', c3])).stream
      == CharStream([c1] + ['/'] + [c2], ['/', c3])
  {
    IdCharIsNoSymbol(c2);
    var s := CharStreamFromString([c1, '/', c2, '/', c3]);
    Uncons5(c1, '/', c2, '/', c3);
    BareNumerator(s, c1, ['/', c2, '/', c3]);
    var s1 := CharStream([c1], ['/', c2, '/', c3]);
    SkipNoSpaces(s1);
    Uncons4('/', c2, '/', c3);
    FractionAt(s1, [c1], [c2, '/', c3]);
    var u := CharStream([c1] + ['/'], [c2, '/', c3]);
    SkipNoSpaces(u);
    Uncons3(c2, '/', c3);
    var v := CharStream(u.consumed + [c2], ['/', c3]);
    SkipNoSpaces(v);
    BareTermAt(u, u.consumed, c2, ['/', c3]);
    NoTailTermAt(v);
    OnlyTerm(u);
    ParseUnitsBodySpec(s);
  }

  /** `c1/c2/c3`: only one fraction is allowed; the second `/` is where the end was required. */
  lemma TwoFractionsOf(c1: char, c2: char, c3: char)
    requires IsIdChar(c1) && IsIdChar(c2)
    ensures ParseUnits(CharStreamFromString([c1, '/', c2, '/', c3]))
      == Fail(ParseFailure(EndMessage, [c1, '/', c2, '/', c3], 3))
  {
    var s := CharStreamFromString([c1, '/', c2, '/', c3]);
    TwoFractionsBody(c1, c2, c3);
    SkipNoSpaces(ParseUnitsBody(s).stream);
    assert Source(s) == [c1, '/', c2, '/', c3];
  }

  lemma TwoTerms()
    ensures var r := ParseTerms0(CharStreamFromString("m s^-2"));
      r.Ok? && r.value == map["m" := Z.Int(1), "s" := Z.Int(-2)]
  {
    LetterIsIdChar('m');
    LetterIsIdChar('s');
    SpacedTermsOf('m', 's', '2');
    MulTwoNames("m", "s", Z.Int(1), Z.Int(-2));
  }

  lemma UnitsTwoTerms()
    ensures var r := ParseUnits(CharStreamFromString("m s^-2"));
      r.Ok? && r.value == map["m" := Z.Int(1), "s" := Z.Int(-2)]
  {
    LetterIsIdChar('m');
    LetterIsIdChar('s');
    SpacedTermsOf('m', 's', '2');
    TwoTerms();
    UnitsWithoutFraction(CharStreamFromString("m s^-2"));
  }

  /** The joiner `*` is optional. */
  lemma JoinerOptional()
    ensures var plain := ParseUnits(CharStreamFromString("s m^-2"));
      var joined := ParseUnits(CharStreamFromString("s * m^-2"));
      && plain.Ok? && joined.Ok? && plain.value == joined.value
      && plain.value == map["s" := Z.Int(1), "m" := Z.Int(-2)]
  {
    LetterIsIdChar('m');
    LetterIsIdChar('s');
    SpacedTermsOf('s', 'm', '2');
    JoinedTermsOf('s', 'm', '2');
    UnitsWithoutFraction(CharStreamFromString("s m^-2"));
    UnitsWithoutFraction(CharStreamFromString("s * m^-2"));
    MulTwoNames("s", "m", Z.Int(1), Z.Int(-2));
  }

  lemma RepeatedName()
    ensures var r := ParseUnits(CharStreamFromString("m m")); r.Ok? && r.value == map["m" := Z.Int(2)]
  {
    LetterIsIdChar('m');
    RepeatedNameOf('m');
    UnitsWithoutFraction(CharStreamFromString("m m"));
    MulSameName("m");
  }

  lemma Fraction()
    ensures var r := ParseUnits(CharStreamFromString("m/s^2"));
      r.Ok? && r.value == map["m" := Z.Int(1), "s" := Z.Int(-2)]
  {
    LetterIsIdChar('m');
    LetterIsIdChar('s');
    FractionOf('m', 's', '2');
  }

  lemma ReciprocalOnly()
    ensures var r := ParseUnits(CharStreamFromString("/s")); r.Ok? && r.value == map["s" := Z.Int(-1)]
  {
    LetterIsIdChar('s');
    ReciprocalOf('s');
  }

  lemma EmptyDenominator()
    ensures var r := ParseUnits(CharStreamFromString("m/")); r.Ok? && r.value == map["m" := Z.Int(1)]
  {
    LetterIsIdChar('m');
    EmptyDenominatorOf('m');
  }

  lemma TwoFractions()
    ensures ParseUnits(CharStreamFromString("m/s/s")) == Fail(ParseFailure(EndMessage, "m/s/s", 3))
  {
    LetterIsIdChar('m');
    LetterIsIdChar('s');
    TwoFractionsOf('m', 's', 's');
  }

  /** ` c d1 d2 d3`: the name is read, and the spaces around it are skipped. */
  lemma SpacedIdOf(c: char, rest: string)
    requires IsIdChar(c) && rest != [] && rest[0] == ' '
    ensures var r := ParseId(CharStreamFromString(" " + ([c] + rest))); r.Ok? && r.value == [c]
  {
    IdCharIsNoSymbol(c);
    var s := CharStreamFromString(" " + ([c] + rest));
    SkipOneSpace("", [c] + rest);
    IdAt(s, "" + " ", c, rest);
  }

  lemma SpacedIdText()
    ensures " a 123" == " " + (['a'] + " 123")
  {
  }

  lemma IdAfterSpace()
    ensures var r := ParseId(CharStreamFromString(" a 123")); r.Ok? && r.value == "a"
  {
    LetterIsIdChar('a');
    SpacedIdText();
    SpacedIdOf('a', " 123");
  }

  lemma DigitZeroAndNine()
    ensures ParseDigit(CharStreamFromString("0")).value == N.Known(0)
    ensures ParseDigit(CharStreamFromString("9")).value == N.Known(9)
  {
    N.SameLengthSame(ParseDigit(CharStreamFromString("0")).value, N.Known(0));
    N.SameLengthSame(ParseDigit(CharStreamFromString("9")).value, N.Known(9));
  }

  lemma LetterIsNoDigit()
    ensures ParseDigit(CharStreamFromString("a")) == Fail(ParseFailure(DigitMessage, "a", 0))
  {
  }

  lemma IntegerZero()
    ensures var r := ParseInteger(CharStreamFromString("0")); r.Ok? && r.value == Z.Int(0)
  {
    var s := CharStreamFromString("0");
    SkipNoSpaces(s);
    IntegerToEnd(s, "", '0');
  }

  /** Digits alone are the integer they denote. */
  lemma UnsignedOf(digits: string)
    requires digits != [] && AllDigits(digits)
    ensures var r := ParseInteger(CharStreamFromString(digits));
      r.Ok? && Z.IsNormal(r.value) && Z.Value(r.value) == DecimalValue(digits)
  {
    var s := CharStreamFromString(digits);
    SkipNoSpaces(s);
    IntegerDigitsToEnd(s, "", digits);
  }

  /** A space, a minus and digits are the negated integer the digits denote. */
  lemma SpacedNegativeOf(digits: string)
    requires digits != [] && AllDigits(digits)
    ensures var r := ParseInteger(CharStreamFromString(" " + ("-" + digits)));
      r.Ok? && Z.IsNormal(r.value) && Z.Value(r.value) == -(DecimalValue(digits) as int)
  {
    var s := CharStreamFromString(" " + ("-" + digits));
    SkipOneSpace("", "-" + digits);
    DropFirst('-', digits);
    assert DigitsStart(s).0 == CharStream("" + " " + "-", digits);
    IntegerDigitsToEnd(s, "" + " " + "-", digits);
  }

  lemma DecimalValues()
    ensures AllDigits("001") && DecimalValue("001") == 1
    ensures AllDigits("0012") && DecimalValue("0012") == 12
  {
    assert "0012"[..3] == "001" && "001"[..2] == "00" && "00"[..1] == "0" && "0"[..0] == "";
  }

  lemma SpacedNegativeText()
    ensures " -0012" == " " + ("-" + "0012")
  {
  }

  /** Leading zeros do not count. */
  lemma IntegerLeadingZeros()
    ensures var r := ParseInteger(CharStreamFromString("001")); r.Ok? && r.value == Z.Int(1)
  {
    DecimalValues();
    UnsignedOf("001");
    Z.Canonical(ParseInteger(CharStreamFromString("001")).value, Z.Int(1));
  }

  /** Spaces, a minus and leading zeros: `0 - (6 + 6)`. */
  lemma SpacedNegativeInteger()
    ensures var r := ParseInteger(CharStreamFromString(" -0012"));
      r.Ok? && r.value == Z.Sub(Z.Int(0), Z.Add(Z.Int(6), Z.Int(6)))
  {
    DecimalValues();
    SpacedNegativeText();
    SpacedNegativeOf("0012");
    Z.Canonical(ParseInteger(CharStreamFromString(" -0012")).value, Z.Sub(Z.Int(0), Z.Add(Z.Int(6), Z.Int(6))));
  }
}
