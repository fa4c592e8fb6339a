/**
  Persistent input cursors. A character stream is the consumed and the
  remaining part of a source string; an item stream is the same over a list
  of items, plus the diagnostics gathered so far. Every operation returns a
  new stream, and `consumed + remaining` never changes.
*/
module Streams {
  import opened Wrappers
  import N = Natural
  import Strings
  import Syntax

  // ---------- character streams ----------

  datatype CharStream = CharStream(consumed: string, remaining: string)

  function CharStreamFromString(source: string): CharStream
  {
    CharStream("", source)
  }

  /** The whole source the stream walks over. */
  function Source(s: CharStream): string
  {
    s.consumed + s.remaining
  }

  function PositionAsNat(s: CharStream): N.Nat
  {
    Strings.LengthAsNat(s.consumed)
  }

  /** The offset of the next character: the number of characters consumed. */
  function Position(s: CharStream): (p: nat)
    ensures p == |s.consumed|
  {
    N.ToNumber(PositionAsNat(s))
  }

  /** `s2` continues `s`: it consumed what `s` consumed and then some more of `s.remaining`. */
  predicate Advances(s: CharStream, s2: CharStream)
  {
    && |s.consumed| <= |s2.consumed|
    && s2.consumed[..|s.consumed|] == s.consumed
    && s.remaining == s2.consumed[|s.consumed|..] + s2.remaining
  }

  /** The text consumed between `s` and `s2`. */
  function Taken(s: CharStream, s2: CharStream): string
    requires Advances(s, s2)
  {
    s2.consumed[|s.consumed|..]
  }

  lemma AdvancesKeepsSource(s: CharStream, s2: CharStream)
    requires Advances(s, s2)
    ensures Source(s2) == Source(s)
  {
    assert s2.consumed == s.consumed + Taken(s, s2);
  }

  /** What `s2` consumed beyond `s`, and what it has left, as slices of the one source. */
  lemma AdvancesSlices(s: CharStream, s2: CharStream)
    requires Advances(s, s2)
    ensures Source(s2) == Source(s)
    ensures |s2.consumed| <= |Source(s)|
    ensures Taken(s, s2) == Source(s)[|s.consumed|..|s2.consumed|]
    ensures s2.remaining == Source(s)[|s2.consumed|..]
  {
    AdvancesKeepsSource(s, s2);
  }

  lemma AdvancesTransitive(s1: CharStream, s2: CharStream, s3: CharStream)
    requires Advances(s1, s2) && Advances(s2, s3)
    ensures Advances(s1, s3) && Taken(s1, s3) == Taken(s1, s2) + Taken(s2, s3)
  {
    assert s2.consumed == s1.consumed + Taken(s1, s2);
    assert s3.consumed == s2.consumed + Taken(s2, s3);
    assert s3.consumed == s1.consumed + (Taken(s1, s2) + Taken(s2, s3));
    assert s3.consumed[..|s1.consumed|] == s1.consumed;
    assert s3.consumed[|s1.consumed|..] == Taken(s1, s2) + Taken(s2, s3);
  }

  /** What is taken past one character `c` is `c` followed by the rest. */
  lemma TakenAfterOne(s1: CharStream, s2: CharStream, s3: CharStream, prefix: string)
    requires Advances(s1, s2) && Advances(s2, s3) && |Taken(s1, s2)| == 1
    ensures Advances(s1, s3) && s1.remaining != []
    ensures prefix + Taken(s1, s3) == prefix + [s1.remaining[0]] + Taken(s2, s3)
  {
    AdvancesTransitive(s1, s2, s3);
  }

  /**
    One identifier character `c` taken from `s1`, then a run of identifier
    characters from `s2`: together a run of identifier characters from `s1`
    that starts with `c`.
  */
  lemma TakeIdChar(s1: CharStream, s2: CharStream, s3: CharStream, c: char, chars: string)
    requires Advances(s1, s2) && Taken(s1, s2) == [c] && Syntax.IsIdChar(c)
    requires Advances(s2, s3) && Syntax.AllIdChars(Taken(s2, s3))
    ensures Advances(s1, s3) && chars + [c] + Taken(s2, s3) == chars + Taken(s1, s3)
    ensures Syntax.AllIdChars(Taken(s1, s3))
  {
    AdvancesTransitive(s1, s2, s3);
    assert Taken(s1, s3) == [c] + Taken(s2, s3);
  }

  /**
    One digit `c` taken from `s1`, then a run of digits from `s2`: together
    a non-empty run of digits from `s1`.
  */
  lemma TakeDigit(s1: CharStream, s2: CharStream, s3: CharStream, c: char)
    requires Advances(s1, s2) && Taken(s1, s2) == [c] && c in Syntax.AsciiDigits
    requires Advances(s2, s3) && Syntax.AllDigits(Taken(s2, s3))
    ensures Advances(s1, s3) && Syntax.AllDigits(Taken(s1, s3))
    ensures |s3.remaining| < |s1.remaining|
  {
    AdvancesTransitive(s1, s2, s3);
    assert Taken(s1, s3) == [c] + Taken(s2, s3);
  }

  /** A run of digits that stops only at a non-digit reads all of input made only of digits. */
  lemma DigitsToEnd(s1: CharStream, s2: CharStream)
    requires Advances(s1, s2) && Syntax.AllDigits(s1.remaining)
    requires s2.remaining == [] || s2.remaining[0] !in Syntax.AsciiDigits
    ensures s2.remaining == [] && s2.consumed == Source(s1)
  {
    var taken := Taken(s1, s2);
    assert s1.remaining == taken + s2.remaining;
    assert Syntax.AllDigits(s2.remaining) by {
      forall i | 0 <= i < |s2.remaining|
        ensures s2.remaining[i] in Syntax.AsciiDigits
      {
        assert s2.remaining[i] == s1.remaining[|taken| + i];
      }
    }
    AdvancesKeepsSource(s1, s2);
  }

  lemma AdvancesRefl(s: CharStream)
    ensures Advances(s, s) && Taken(s, s) == ""
  {
  }

  /** Does `s` start with a space? */
  predicate AtSpace(s: string)
  {
    s != [] && s[0] == ' '
  }

  /** `[ ]*`: moves every leading space from `remaining` to `consumed`. */
  function SkipSpaces(s: CharStream): (r: CharStream)
    ensures Advances(s, r)
    ensures forall i :: 0 <= i < |Taken(s, r)| ==> Taken(s, r)[i] == ' '
    ensures !AtSpace(r.remaining)
    decreases |s.remaining|
  {
    if AtSpace(s.remaining) then
      var s1 := CharStream(s.consumed + " ", s.remaining[1..]);
      assert Advances(s, s1) && Taken(s, s1) == " ";
      var r := SkipSpaces(s1);
      AdvancesTransitive(s, s1, r);
      r
    else s
  }

  /** Skipping spaces where none is next changes nothing. */
  lemma SkipNoSpaces(s: CharStream)
    requires !AtSpace(s.remaining)
    ensures SkipSpaces(s) == s
  {
  }

  /** Skipping spaces after one space, where no other follows, moves past that space. */
  lemma SkipOneSpace(consumed: string, rest: string)
    requires !AtSpace(rest)
    ensures SkipSpaces(CharStream(consumed, " " + rest)) == CharStream(consumed + " ", rest)
  {
    assert (" " + rest)[1..] == rest;
    SkipNoSpaces(CharStream(consumed + " ", rest));
  }

  /** One character and the stream after it. */
  datatype Step = Step(stream: CharStream, ch: char)

  /** `[^targetChar]`: the next character, if it is not one of `targets`. */
  function NoneOrUndefined(s: CharStream, targets: set<char>): (r: Option<Step>)
    ensures r.Some? <==> s.remaining != [] && s.remaining[0] !in targets
    ensures r.Some? ==>
      r.value.ch == s.remaining[0] && Advances(s, r.value.stream) && Taken(s, r.value.stream) == [r.value.ch]
  {
    if s.remaining != [] then
      var c := s.remaining[0];
      if c in targets then None
      else Some(Step(CharStream(s.consumed + [c], s.remaining[1..]), c))
    else None
  }

  /** `[targetChar]`: the next character, if it is one of `targets`. */
  function AnyOrUndefined(s: CharStream, targets: set<char>): (r: Option<Step>)
    ensures r.Some? <==> s.remaining != [] && s.remaining[0] in targets
    ensures r.Some? ==>
      r.value.ch == s.remaining[0] && Advances(s, r.value.stream) && Taken(s, r.value.stream) == [r.value.ch]
  {
    if s.remaining != [] then
      var c := s.remaining[0];
      if c in targets then Some(Step(CharStream(s.consumed + [c], s.remaining[1..]), c))
      else None
    else None
  }

  // ---------- failing character parsers ----------

  /** A parse failure: its message and where in which source it happened. */
  datatype ParseFailure = ParseFailure(message: string, source: string, position: nat)

  /** The result of a parser: the stream after it and its value, or a failure. */
  datatype Parsed<+T> = Ok(stream: CharStream, value: T) | Fail(failure: ParseFailure)

  /** A failure with `message` at the current position of `s`. */
  function ParseError(message: string, s: CharStream): (f: ParseFailure)
    ensures f.source == Source(s) && f.position == |s.consumed|
  {
    ParseFailure(message, Source(s), Position(s))
  }

  /** One character from `targets`, or `message` at the current position. */
  function AnyOf(s: CharStream, targets: set<char>, message: string): (r: Parsed<char>)
    ensures r.Ok? <==> s.remaining != [] && s.remaining[0] in targets
    ensures r.Ok? ==> r.value == s.remaining[0] && Advances(s, r.stream) && Taken(s, r.stream) == [r.value]
    ensures r.Fail? ==> r.failure == ParseFailure(message, Source(s), |s.consumed|)
  {
    match AnyOrUndefined(s, targets)
    case Some(step) => Ok(step.stream, step.ch)
    case None => Fail(ParseError(message, s))
  }

  /** One character outside `targets`, or `message` at the current position. */
  function NoneOf(s: CharStream, targets: set<char>, message: string): (r: Parsed<char>)
    ensures r.Ok? <==> s.remaining != [] && s.remaining[0] !in targets
    ensures r.Ok? ==> r.value == s.remaining[0] && Advances(s, r.stream) && Taken(s, r.stream) == [r.value]
    ensures r.Fail? ==> r.failure == ParseFailure(message, Source(s), |s.consumed|)
  {
    match NoneOrUndefined(s, targets)
    case Some(step) => Ok(step.stream, step.ch)
    case None => Fail(ParseError(message, s))
  }

  /** The end of a character stream. */
  predicate AtEnd(s: CharStream)
  {
    s.remaining == []
  }

  // ---------- item streams ----------

  datatype ItemStream<Item, Diagnostic> =
    ItemStream(consumed: seq<Item>, remaining: seq<Item>, diagnostics: seq<Diagnostic>)

  function StreamFromItems<Item, Diagnostic>(items: seq<Item>): (s: ItemStream<Item, Diagnostic>)
    ensures Items(s) == items && s.consumed == [] && s.diagnostics == []
  {
    ItemStream([], items, [])
  }

  /** All items of the stream, consumed or not. */
  function Items<Item, Diagnostic>(s: ItemStream<Item, Diagnostic>): seq<Item>
  {
    s.consumed + s.remaining
  }

  predicate IsEos<Item, Diagnostic>(s: ItemStream<Item, Diagnostic>)
  {
    s.remaining == []
  }

  /** Appends a diagnostic; the items and the cursor stay where they are. */
  function PushDiagnostic<Item, Diagnostic>(s: ItemStream<Item, Diagnostic>, diagnostic: Diagnostic)
    : (r: ItemStream<Item, Diagnostic>)
    ensures r.consumed == s.consumed && r.remaining == s.remaining
    ensures r.diagnostics == s.diagnostics + [diagnostic]
  {
    ItemStream(s.consumed, s.remaining, s.diagnostics + [diagnostic])
  }

  /** The next item and the stream after it, or `None` at the end. */
  function TakeOrUndefined<Item, Diagnostic>(s: ItemStream<Item, Diagnostic>)
    : (r: Option<(ItemStream<Item, Diagnostic>, Item)>)
    ensures r.Some? <==> !IsEos(s)
    ensures r.Some? ==> var (s2, item) := r.value;
      && item == s.remaining[0]
      && s2.consumed == s.consumed + [item]
      && Items(s2) == Items(s)
      && s2.diagnostics == s.diagnostics
  {
    if s.remaining != [] then
      Some((ItemStream(s.consumed + [s.remaining[0]], s.remaining[1..], s.diagnostics), s.remaining[0]))
    else None
  }
}
