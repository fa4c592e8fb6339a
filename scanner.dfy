/**
  The tokenizer for unit expressions: identifiers, natural numbers and the
  symbols `- ^ * /`, each with the half-open range of source characters it
  was read from. Spaces separate tokens and never become tokens.
*/
module Scanner {
  import opened Wrappers
  import opened Streams
  import opened Syntax
  import N = Natural

  /** A half-open range `[start, end)` of character offsets. */
  datatype Range = Range(start: nat, end: nat)

  datatype Token =
    | SymbolToken(op: char, range: Range)
    | NaturalToken(value: N.Nat, range: Range)
    | IdToken(id: string, range: Range)

  /**
    The result of a scan: the tokens, or the offset of a superscript
    character met at the start of a token (superscript exponents have no
    scanner, so no branch accepts them).
  */
  datatype Scan = Scanned(tokens: seq<Token>) | SuperscriptAt(position: nat)

  // ---------- identifiers ----------

  /** `(?<id-char> ...)`: one character that may occur in an identifier. */
  function ParseIdChar(s: CharStream): Option<Step>
  {
    NoneOrUndefined(s, NonIdChars)
  }

  /** `(?<id-chars0> \k<id-char>*)`: appends the longest run of identifier characters to `chars`. */
  function ParseIdChars0(s: CharStream, chars: string): (r: (CharStream, string))
    ensures Advances(s, r.0) && r.1 == chars + Taken(s, r.0)
    ensures AllIdChars(Taken(s, r.0))
    ensures r.0.remaining == [] || !IsIdChar(r.0.remaining[0])
    decreases |s.remaining|
  {
    match ParseIdChar(s)
    case Some(step) =>
      var r := ParseIdChars0(step.stream, chars + [step.ch]);
      TakeIdChar(s, step.stream, r.0, step.ch, chars);
      r
    case None => (s, chars)
  }

  /** `(?<id> \k<id-char> \k<id-chars0>)`: a non-empty, maximal identifier. */
  function ParseId(s: CharStream): (r: Option<(CharStream, string)>)
    ensures r.Some? <==> s.remaining != [] && IsIdChar(s.remaining[0])
    ensures r.Some? ==> var (s2, id) := r.value;
      && Advances(s, s2) && id == Taken(s, s2) && id != [] && AllIdChars(id)
      && (s2.remaining == [] || !IsIdChar(s2.remaining[0]))
  {
    match ParseIdChar(s)
    case Some(step) =>
      var r := ParseIdChars0(step.stream, [step.ch]);
      AdvancesTransitive(s, step.stream, r.0);
      Some(r)
    case None => None
  }

  // ---------- natural numbers ----------

  /** `(?<digit> [0-9])`: one ASCII digit and its value. */
  function ParseDigit(s: CharStream): (r: Option<(CharStream, N.Nat)>)
    ensures r.Some? <==> s.remaining != [] && s.remaining[0] in AsciiDigits
    ensures r.Some? ==> var (s2, d) := r.value;
      && Advances(s, s2) && Taken(s, s2) == [s.remaining[0]]
      && N.ToNumber(d) == DigitValue(s.remaining[0])
  {
    match AnyOrUndefined(s, AsciiDigits)
    case Some(step) => Some((step.stream, N.Known(DigitValue(step.ch))))
    case None => None
  }

  /** `(?<digits0> \k<digit>*)`: reads the longest run of digits, accumulating `current * 10 + digit`. */
  function ParseDigits0(s: CharStream, current: N.Nat): (r: (CharStream, N.Nat))
    ensures Advances(s, r.0) && AllDigits(Taken(s, r.0))
    ensures r.0.remaining == [] || r.0.remaining[0] !in AsciiDigits
    decreases |s.remaining|
  {
    match ParseDigit(s)
    case Some((s2, digit)) =>
      var r := ParseDigits0(s2, N.Add(N.Mul(current, N.Ten()), digit));
      TakeDigit(s, s2, r.0, s.remaining[0]);
      r
    case None => (s, current)
  }

  /** `(?<digits1> \k<digit> \k<digits0>)`: at least one digit. */
  function ParseNatural(s: CharStream, current: N.Nat): (r: Option<(CharStream, N.Nat)>)
    ensures r.Some? <==> s.remaining != [] && s.remaining[0] in AsciiDigits
    ensures r.Some? ==> var (s2, _) := r.value;
      && Advances(s, s2) && Taken(s, s2) != [] && AllDigits(Taken(s, s2))
      && (s2.remaining == [] || s2.remaining[0] !in AsciiDigits)
  {
    match ParseDigit(s)
    case Some((s2, digit)) =>
      var r := ParseDigits0(s2, N.Add(N.Mul(current, N.Ten()), digit));
      AdvancesTransitive(s, s2, r.0);
      Some(r)
    case None => None
  }

  /**
    Reading digits onto an accumulator that holds the value of `prefix`
    gives the value of `prefix` followed by the digits read.
  */
  lemma {:induction false} ParseDigits0Value(s: CharStream, current: N.Nat, prefix: string)
    requires AllDigits(prefix) && N.ToNumber(current) == DecimalValue(prefix)
    ensures var r := ParseDigits0(s, current);
      AllDigits(prefix + Taken(s, r.0)) && N.ToNumber(r.1) == DecimalValue(prefix + Taken(s, r.0))
    decreases |s.remaining|
  {
    var r := ParseDigits0(s, current);
    if ParseDigit(s).Some? {
      var (s2, digit) := ParseDigit(s).value;
      var c := s.remaining[0];
      DecimalSnoc(prefix, c);
      var current' := N.Add(N.Mul(current, N.Ten()), digit);
      ParseDigits0Value(s2, current', prefix + [c]);
      DigitsStep(s, current, s2, digit, prefix);
    } else {
      assert prefix + Taken(s, r.0) == prefix;
    }
  }

  /** Reading one digit and then the rest reads the digit followed by the rest. */
  lemma DigitsStep(s: CharStream, current: N.Nat, s2: CharStream, digit: N.Nat, prefix: string)
    requires ParseDigit(s) == Some((s2, digit))
    ensures var r := ParseDigits0(s, current);
      r == ParseDigits0(s2, N.Add(N.Mul(current, N.Ten()), digit))
      && prefix + Taken(s, r.0) == prefix + [s.remaining[0]] + Taken(s2, r.0)
  {
    var r := ParseDigits0(s, current);
    AdvancesTransitive(s, s2, r.0);
  }

  /** A natural token's value is the decimal value of its digits. */
  lemma ParseNaturalValue(s: CharStream)
    requires ParseNatural(s, N.Known(0)).Some?
    ensures var (s2, n) := ParseNatural(s, N.Known(0)).value;
      N.ToNumber(n) == DecimalValue(Taken(s, s2))
  {
    var (s1, digit) := ParseDigit(s).value;
    var c := s.remaining[0];
    DecimalSnoc("", c);
    assert "" + [c] == [c];
    ParseDigits0Value(s1, N.Add(N.Mul(N.Known(0), N.Ten()), digit), [c]);
    var s2 := ParseNatural(s, N.Known(0)).value.0;
    AdvancesTransitive(s, s1, s2);
  }

  // ---------- tokens ----------

  function SkipCharOrNop(s: CharStream): (r: CharStream)
    ensures Advances(s, r) && |Taken(s, r)| == if s.remaining == [] then 0 else 1
  {
    if s.remaining != [] then CharStream(s.consumed + [s.remaining[0]], s.remaining[1..]) else s
  }

  function Prepend(t: Token, rest: Scan): Scan
  {
    match rest
    case Scanned(ts) => Scanned([t] + ts)
    case SuperscriptAt(_) => rest
  }

  /**
    What one step of the scanner promises: `t` is a lexeme starting at the
    position of `s`, and `next` is past it and the spaces after it.
  */
  ghost predicate StepsOver(s: CharStream, t: Token, next: CharStream)
  {
    && Advances(s, next) && |next.remaining| < |s.remaining|
    && t.range.start == |s.consumed| && t.range.end <= |next.consumed|
    && Lexeme(Source(s), t)
    && AllSpaces(Source(s)[t.range.end..|next.consumed|])
  }

  /** A symbol: a one-character token. */
  function SymbolStep(s: CharStream): (r: (Token, CharStream))
    requires s.remaining != [] && s.remaining[0] in Symbols
    ensures StepsOver(s, r.0, r.1)
  {
    var c := s.remaining[0];
    var s1 := SkipCharOrNop(s);
    var next := SkipSpaces(s1);
    AdvancesTransitive(s, s1, next);
    AdvancesSlices(s, s1);
    AdvancesSlices(s1, next);
    var t := SymbolToken(c, Range(Position(s), N.ToNumber(N.Add(PositionAsNat(s), N.Known(1)))));
    assert Source(s)[t.range.start..t.range.end] == [c];
    (t, next)
  }

  /** A natural number: the longest run of digits. */
  function NaturalStep(s: CharStream): (r: (Token, CharStream))
    requires s.remaining != [] && s.remaining[0] in AsciiDigits
    ensures StepsOver(s, r.0, r.1)
    ensures var (s2, n) := ParseNatural(s, N.Known(0)).value;
      r == (NaturalToken(n, Range(|s.consumed|, |s2.consumed|)), SkipSpaces(s2))
  {
    var (s2, n) := ParseNatural(s, N.Known(0)).value;
    var next := SkipSpaces(s2);
    AdvancesTransitive(s, s2, next);
    AdvancesSlices(s, s2);
    AdvancesSlices(s2, next);
    ParseNaturalValue(s);
    (NaturalToken(n, Range(Position(s), Position(s2))), next)
  }

  /** An identifier: the longest run of identifier characters, or nothing at a character no token starts with. */
  function IdStep(s: CharStream): (r: Option<(Token, CharStream)>)
    requires s.remaining != [] && s.remaining[0] !in Symbols && s.remaining[0] !in AsciiDigits
    ensures r.Some? ==> StepsOver(s, r.value.0, r.value.1)
    ensures r.None? ==> s.remaining[0] in SuperscriptDigits + {SuperscriptMinus, ' '}
  {
    match ParseId(s)
    case Some((s2, id)) =>
      var next := SkipSpaces(s2);
      AdvancesTransitive(s, s2, next);
      AdvancesSlices(s, s2);
      AdvancesSlices(s2, next);
      Some((IdToken(id, Range(Position(s), Position(s2))), next))
    case None => None
  }

  /** Reads tokens until the end of the stream; spaces after each token are skipped. */
  function ParseTokensWorker(s: CharStream): Scan
    decreases |s.remaining|
  {
    if s.remaining == [] then Scanned([])
    else if s.remaining[0] in Symbols then
      var (t, next) := SymbolStep(s);
      Prepend(t, ParseTokensWorker(next))
    else if s.remaining[0] in AsciiDigits then
      var (t, next) := NaturalStep(s);
      Prepend(t, ParseTokensWorker(next))
    else
      match IdStep(s)
      case Some((t, next)) => Prepend(t, ParseTokensWorker(next))
      case None => SuperscriptAt(Position(s))
  }

  /** Skips leading spaces, then reads every token. */
  function ParseTokens(s: CharStream): Scan
  {
    ParseTokensWorker(SkipSpaces(s))
  }

  // ---------- what a scan means ----------

  /**
    `t` is a token of `src`: its range is non-empty and inside `src`, and the
    text it covers is a maximal lexeme of the token's kind.
  */
  ghost predicate Lexeme(src: string, t: Token)
  {
    && t.range.start < t.range.end <= |src|
    && var text := src[t.range.start..t.range.end];
    && var next := t.range.end;
    match t
    case SymbolToken(op, _) => op in Symbols && text == [op]
    case NaturalToken(n, _) =>
      && AllDigits(text) && N.ToNumber(n) == DecimalValue(text)
      && (next == |src| || src[next] !in AsciiDigits)
    case IdToken(id, _) =>
      && text == id && AllIdChars(id)
      && (next == |src| || !IsIdChar(src[next]))
  }

  /**
    `ts` reads `src` from offset `from` on: the tokens come in order, each a
    lexeme, and only spaces lie before, between and after them.
  */
  ghost predicate Tiles(src: string, from: nat, ts: seq<Token>)
    decreases |ts|
  {
    && from <= |src|
    && if ts == [] then AllSpaces(src[from..])
       else
         && from <= ts[0].range.start
         && Lexeme(src, ts[0])
         && AllSpaces(src[from..ts[0].range.start])
         && Tiles(src, ts[0].range.end, ts[1..])
  }

  lemma TilesAfterSpaces(src: string, from: nat, from': nat, ts: seq<Token>)
    requires from <= from' <= |src| && AllSpaces(src[from..from'])
    requires Tiles(src, from', ts)
    ensures Tiles(src, from, ts)
  {
    if ts == [] {
      assert src[from..] == src[from..from'] + src[from'..];
    } else {
      assert src[from..ts[0].range.start] == src[from..from'] + src[from'..ts[0].range.start];
    }
  }

  /** Whether the worker reads a token at the head of `s` rather than stopping. */
  predicate HasToken(s: CharStream)
  {
    && s.remaining != []
    && (s.remaining[0] in Symbols || s.remaining[0] in AsciiDigits || IdStep(s).Some?)
  }

  /** The token the worker reads at the head of `s`, and where it goes on. */
  function TokenStep(s: CharStream): (r: (Token, CharStream))
    requires HasToken(s)
    ensures StepsOver(s, r.0, r.1)
    ensures ParseTokensWorker(s) == Prepend(r.0, ParseTokensWorker(r.1))
  {
    if s.remaining[0] in Symbols then SymbolStep(s)
    else if s.remaining[0] in AsciiDigits then NaturalStep(s)
    else IdStep(s).value
  }

  lemma TilesCons(src: string, t: Token, end: nat, ts: seq<Token>)
    requires Lexeme(src, t) && t.range.end <= end <= |src|
    requires AllSpaces(src[t.range.end..end]) && Tiles(src, end, ts)
    ensures Tiles(src, t.range.start, [t] + ts)
  {
    TilesAfterSpaces(src, t.range.end, end, ts);
    assert ([t] + ts)[1..] == ts;
  }

  /** Every successful scan reads the stream's remaining text as tokens separated by spaces. */
  lemma {:induction false} WorkerTiles(s: CharStream)
    requires ParseTokensWorker(s).Scanned?
    ensures Tiles(Source(s), |s.consumed|, ParseTokensWorker(s).tokens)
    decreases |s.remaining|
  {
    if s.remaining == [] {
      assert Source(s)[|s.consumed|..] == [];
    } else {
      var (t, next) := TokenStep(s);
      AdvancesKeepsSource(s, next);
      WorkerTiles(next);
      TilesCons(Source(s), t, |next.consumed|, ParseTokensWorker(next).tokens);
    }
  }

  /** A scan that stops does so at a superscript character that starts a token. */
  lemma {:induction false} WorkerStuck(s: CharStream)
    requires !AtSpace(s.remaining)
    requires ParseTokensWorker(s).SuperscriptAt?
    ensures var p := ParseTokensWorker(s).position;
      |s.consumed| <= p < |Source(s)| && Source(s)[p] in SuperscriptDigits + {SuperscriptMinus}
    decreases |s.remaining|
  {
    if HasToken(s) {
      var (t, next) := TokenStep(s);
      AdvancesKeepsSource(s, next);
      WorkerStuck(next);
    } else {
      assert Source(s)[|s.consumed|] == s.remaining[0];
    }
  }

  /**
    Scanning a source string succeeds with tokens that tile it, or stops at
    a superscript character that starts a token.
  */
  lemma ScanSpec(source: string)
    ensures var r := ParseTokens(CharStreamFromString(source));
      && (r.Scanned? ==> Tiles(source, 0, r.tokens))
      && (r.SuperscriptAt? ==> r.position < |source| && source[r.position] in SuperscriptDigits + {SuperscriptMinus})
  {
    var s := CharStreamFromString(source);
    var s1 := SkipSpaces(s);
    AdvancesSlices(s, s1);
    if ParseTokens(s).Scanned? {
      WorkerTiles(s1);
      TilesAfterSpaces(source, 0, |s1.consumed|, ParseTokens(s).tokens);
    } else {
      WorkerStuck(s1);
    }
  }
}

module ScannerExamples {
  import opened Wrappers
  import opened Streams
  import opened Syntax
  import opened Scanner
  import N = Natural

  lemma IdStopsAtSpace()
    ensures ParseId(CharStreamFromString("a 123")).Some?
    ensures ParseId(CharStreamFromString("a 123")).value.1 == "a"
  {
    var s := CharStreamFromString("a 123");
    var step := ParseIdChar(s).value;
    assert step.stream.remaining == " 123";
  }

  lemma MinusAlone()
    ensures ParseTokens(CharStreamFromString("-")) == Scanned([SymbolToken('-', Range(0, 1))])
  {
  }

  lemma TwelveDigits()
    ensures AllDigits("0012") && DecimalValue("0012") == 12
  {
    assert "0012"[..3] == "001" && "001"[..2] == "00" && "00"[..1] == "0" && "0"[..0] == "";
  }

  /** A natural read from a run of digits that ends the input: all of them, with their decimal value. */
  lemma NaturalToEnd(consumed: string, digits: string)
    requires digits != [] && AllDigits(digits)
    ensures var r := ParseNatural(CharStream(consumed, digits), N.Known(0));
      && r.Some? && r.value.0 == CharStream(consumed + digits, "")
      && N.ToNumber(r.value.1) == DecimalValue(digits)
  {
    var s1 := CharStream(consumed, digits);
    var (s2, n) := ParseNatural(s1, N.Known(0)).value;
    DigitsToEnd(s1, s2);
    ParseNaturalValue(s1);
    assert Taken(s1, s2) == digits;
  }

  /** Leading zeros are read and do not count. */
  lemma NaturalWithLeadingZeros()
    ensures ParseNatural(CharStream("-", "0012"), N.Known(0)) ==
      Some((CharStream("-0012", ""), N.Add(N.Known(6), N.Known(6))))
  {
    TwelveDigits();
    NaturalToEnd("-", "0012");
    assert "-" + "0012" == "-0012";
    var n := ParseNatural(CharStream("-", "0012"), N.Known(0)).value.1;
    N.SameLengthSame(n, N.Add(N.Known(6), N.Known(6)));
  }

  lemma OneWithLeadingZeros()
    ensures AllDigits("001") && DecimalValue("001") == 1
  {
    assert "001"[..2] == "00" && "00"[..1] == "0" && "0"[..0] == "";
  }

  /** `"001"` is the natural 1. */
  lemma NaturalWithTwoLeadingZeros()
    ensures ParseNatural(CharStreamFromString("001"), N.Known(0)).value.1 == N.Known(1)
  {
    OneWithLeadingZeros();
    NaturalToEnd("", "001");
    N.SameLengthSame(ParseNatural(CharStreamFromString("001"), N.Known(0)).value.1, N.Known(1));
  }

  /** `"0"` is the natural 0. */
  lemma NaturalZero()
    ensures ParseNatural(CharStreamFromString("0"), N.Known(0)).value.1 == N.Known(0)
  {
    assert "0"[..0] == "";
    NaturalToEnd("", "0");
    N.SameLengthSame(ParseNatural(CharStreamFromString("0"), N.Known(0)).value.1, N.Known(0));
  }

  /** No natural starts in the empty input. */
  lemma NoNaturalInEmpty()
    ensures ParseNatural(CharStreamFromString(""), N.Known(0)) == None
  {
  }

  /** No identifier starts at a digit, once the spaces before it are skipped. */
  lemma NoIdAtDigit()
    ensures ParseId(SkipSpaces(CharStreamFromString(" 123"))) == None
  {
    assert SkipSpaces(CharStreamFromString(" 123")) == CharStream(" ", "123");
  }

  /** The digits `0` and `9`, and a letter that is no digit. */
  lemma Digits()
    ensures ParseDigit(CharStreamFromString("0")).value.1 == N.Known(0)
    ensures ParseDigit(CharStreamFromString("9")).value.1 == N.Known(9)
    ensures ParseDigit(CharStreamFromString("a")) == None
  {
  }

  /** At a symbol, the scan is that symbol's token followed by the scan after it. */
  lemma WorkerAtSymbol(s: CharStream)
    requires s.remaining != [] && s.remaining[0] in Symbols
    ensures ParseTokensWorker(s) == Prepend(SymbolStep(s).0, ParseTokensWorker(SymbolStep(s).1))
  {
  }

  /** At a digit, the scan is the natural's token followed by the scan after it. */
  lemma WorkerAtDigit(s: CharStream)
    requires s.remaining != [] && s.remaining[0] in AsciiDigits
    ensures ParseTokensWorker(s) == Prepend(NaturalStep(s).0, ParseTokensWorker(NaturalStep(s).1))
  {
    DigitIsNoSymbol(s.remaining[0]);
  }

  /** A minus that starts the input is a symbol token at [0, 1), and the scan goes on after it. */
  lemma MinusFirst(rest: string)
    requires rest != [] && rest[0] in AsciiDigits
    ensures ParseTokens(CharStreamFromString("-" + rest)) ==
      Prepend(SymbolToken('-', Range(0, 1)), ParseTokensWorker(CharStream("-", rest)))
  {
    var s := CharStreamFromString("-" + rest);
    var s1 := CharStream("-", rest);
    assert s.remaining[0] == '-' && s.remaining[1..] == rest;
    SkipNoSpaces(s);
    assert SkipCharOrNop(s) == s1;
    DigitIsNoSymbol(rest[0]);
    SkipNoSpaces(s1);
    assert SymbolStep(s) == (SymbolToken('-', Range(0, 1)), s1);
    WorkerAtSymbol(s);
  }

  /** After the minus, a run of digits that ends the input is one natural token. */
  lemma NaturalAfterMinus(digits: string, n: N.Nat)
    requires ParseNatural(CharStream("-", digits), N.Known(0)) == Some((CharStream("-" + digits, ""), n))
    ensures ParseTokensWorker(CharStream("-", digits)) == Scanned([NaturalToken(n, Range(1, 1 + |digits|))])
  {
    var s1 := CharStream("-", digits);
    var s2 := CharStream("-" + digits, "");
    SkipNoSpaces(s2);
    assert NaturalStep(s1) == (NaturalToken(n, Range(1, 1 + |digits|)), s2);
    assert ParseTokensWorker(s2) == Scanned([]);
    WorkerAtDigit(s1);
    PrependTwo(NaturalToken(n, Range(1, 1 + |digits|)), []);
  }

  lemma DigitIsNoSymbol(c: char)
    requires c in AsciiDigits
    ensures c !in Symbols && c != ' '
  {
  }

  /** `"-0"` is a minus at [0, 1) and the natural 0 at [1, 2). */
  lemma MinusZeroTokens()
    ensures ParseTokens(CharStreamFromString("-0")) ==
      Scanned([SymbolToken('-', Range(0, 1)), NaturalToken(N.Known(0), Range(1, 2))])
  {
    MinusThenNatural("0", N.Known(0));
  }

  /** `"-0012"` is a minus at [0, 1) and the natural 12 at [1, 5). */
  lemma MinusTwelveTokens()
    ensures ParseTokens(CharStreamFromString("-0012")) ==
      Scanned([SymbolToken('-', Range(0, 1)), NaturalToken(N.Add(N.Known(6), N.Known(6)), Range(1, 5))])
  {
    NaturalWithLeadingZeros();
    assert "-" + "0012" == "-0012";
    MinusThenNatural("0012", N.Add(N.Known(6), N.Known(6)));
  }

  /** The token list of a minus followed by a run of digits, given the natural those digits read as. */
  lemma MinusThenNatural(digits: string, n: N.Nat)
    requires digits != [] && digits[0] in AsciiDigits
    requires ParseNatural(CharStream("-", digits), N.Known(0)) == Some((CharStream("-" + digits, ""), n))
    ensures ParseTokens(CharStreamFromString("-" + digits)) ==
      Scanned([SymbolToken('-', Range(0, 1)), NaturalToken(n, Range(1, 1 + |digits|))])
  {
    NaturalAfterMinus(digits, n);
    MinusFirst(digits);
    PrependTwo(SymbolToken('-', Range(0, 1)), [NaturalToken(n, Range(1, 1 + |digits|))]);
  }

  lemma PrependTwo(t: Token, ts: seq<Token>)
    requires |ts| <= 1
    ensures Prepend(t, Scanned(ts)) == Scanned([t] + ts)
    ensures ts == [] ==> [t] + ts == [t]
    ensures |ts| == 1 ==> [t] + ts == [t, ts[0]]
  {
  }
}
