/**
  Reading a table of weekly price predictions: each row names a variant,
  gives a probability and then twelve cells of the form `N` or `N~M`.
  A row is given as the text of its cells; the rows of the table are
  filtered to those without a class, and the first malformed one stops the
  whole table with an error.
*/
module DetailDataParser {
  import opened Wrappers
  import Syntax
  import F = FixedSizeArrays

  datatype VariantType = Wave | JumpSmall | JumpBig | Decrease | Unknown

  /** Maps the Japanese name of a variant to the variant; any other text is `Unknown`. */
  function ParseVariant(s: string): VariantType
  {
    if s == "波型" then Wave
    else if s == "跳ね小型" then JumpSmall
    else if s == "跳ね大型" then JumpBig
    else if s == "減少型" then Decrease
    else Unknown
  }

  /** The name each known variant is written as; the reference `ParseVariant` inverts. */
  function VariantName(v: VariantType): string
    requires v != Unknown
  {
    match v
    case Wave => "波型"
    case JumpSmall => "跳ね小型"
    case JumpBig => "跳ね大型"
    case Decrease => "減少型"
  }

  // ---------- white space ----------

  /** JavaScript white space and line terminators: what `trim` removes and what `\s` matches. */
  const JsSpaces: set<char> := {
    '\t', '\n', '\U{000B}', '\U{000C}', '\r', ' ', '\U{00A0}', '\U{1680}',
    '\U{2000}', '\U{2001}', '\U{2002}', '\U{2003}', '\U{2004}', '\U{2005}',
    '\U{2006}', '\U{2007}', '\U{2008}', '\U{2009}', '\U{200A}',
    '\U{2028}', '\U{2029}', '\U{202F}', '\U{205F}', '\U{3000}', '\U{FEFF}'
  }

  predicate IsJsSpace(c: char)
  {
    c in JsSpaces
  }

  predicate AllJsSpace(s: string)
  {
    forall i :: 0 <= i < |s| ==> IsJsSpace(s[i])
  }

  /** Drops the leading white space. */
  function TrimStart(s: string): (r: string)
    ensures |r| <= |s| && s[|s| - |r|..] == r && AllJsSpace(s[..|s| - |r|])
    ensures r == [] || !IsJsSpace(r[0])
    decreases |s|
  {
    if s != [] && IsJsSpace(s[0]) then
      var r := TrimStart(s[1..]);
      assert s[..|s| - |r|] == [s[0]] + s[1..][..|s| - 1 - |r|];
      r
    else s
  }

  /** Drops the trailing white space. */
  function TrimEnd(s: string): (r: string)
    ensures |r| <= |s| && s[..|r|] == r && AllJsSpace(s[|r|..])
    ensures r == [] || !IsJsSpace(r[|r| - 1])
    decreases |s|
  {
    if s != [] && IsJsSpace(s[|s| - 1]) then
      var r := TrimEnd(s[..|s| - 1]);
      assert s[|r|..] == s[..|s| - 1][|r|..] + [s[|s| - 1]];
      r
    else s
  }

  /** `String.prototype.trim`: drops white space at both ends. */
  function Trim(s: string): string
  {
    TrimEnd(TrimStart(s))
  }

  // ---------- value cells: /^\s*(\d+)(~(\d+))?\s*$/ ----------

  /** The index of the first character at or after `i` that is not white space. */
  function SkipJsSpaces(s: string, i: nat): (j: nat)
    requires i <= |s|
    ensures i <= j <= |s| && AllJsSpace(s[i..j]) && (j == |s| || !IsJsSpace(s[j]))
    decreases |s| - i
  {
    if i < |s| && IsJsSpace(s[i]) then SkipJsSpaces(s, i + 1) else i
  }

  /** The index of the first character at or after `i` that is not an ASCII digit. */
  function SkipDigits(s: string, i: nat): (j: nat)
    requires i <= |s|
    ensures i <= j <= |s| && Syntax.AllDigits(s[i..j]) && (j == |s| || s[j] !in Syntax.AsciiDigits)
    decreases |s| - i
  {
    if i < |s| && s[i] in Syntax.AsciiDigits then SkipDigits(s, i + 1) else i
  }

  /** Why a row cannot be read. */
  datatype ParseError =
    | Thrown(message: string)
    | WrongLength(error: F.LengthError)

  /**
    A value cell: `N` gives `[N, N]` and `N~M` gives `[N, M]`, with white
    space allowed around; any other text throws "values".
  */
  function ParseValueCell(text: string): (r: Result<(nat, nat), ParseError>)
    ensures r.Failure? ==> r.error == Thrown("values")
    ensures r.Success? ==> var a := SkipJsSpaces(text, 0); var b := SkipDigits(text, a);
      && a < b
      && if b < |text| && text[b] == '~' then
           var c := SkipDigits(text, b + 1); b + 1 < c && SkipJsSpaces(text, c) == |text|
         else SkipJsSpaces(text, b) == |text|
  {
    var a := SkipJsSpaces(text, 0);
    var b := SkipDigits(text, a);
    if a == b then Failure(Thrown("values"))
    else if b < |text| && text[b] == '~' then
      var c := SkipDigits(text, b + 1);
      if c == b + 1 || SkipJsSpaces(text, c) != |text| then Failure(Thrown("values"))
      else Success((Syntax.DecimalValue(text[a..b]), Syntax.DecimalValue(text[b + 1..c])))
    else if SkipJsSpaces(text, b) != |text| then Failure(Thrown("values"))
    else Success((Syntax.DecimalValue(text[a..b]), Syntax.DecimalValue(text[a..b])))
  }

  /** The pieces a matching value cell is made of. */
  datatype ValueCell = ValueCell(lead: string, min: string, max: Option<string>, trail: string)

  predicate WellFormedCell(cell: ValueCell)
  {
    && AllJsSpace(cell.lead) && AllJsSpace(cell.trail)
    && cell.min != [] && Syntax.AllDigits(cell.min)
    && (cell.max.Some? ==> cell.max.value != [] && Syntax.AllDigits(cell.max.value))
  }

  /** The text of a value cell. */
  function CellText(cell: ValueCell): string
  {
    cell.lead + cell.min + (if cell.max.Some? then "~" + cell.max.value else "") + cell.trail
  }

  /** The pair a value cell denotes; a missing maximum is the minimum. */
  function CellValues(cell: ValueCell): (nat, nat)
    requires WellFormedCell(cell)
  {
    var min := Syntax.DecimalValue(cell.min);
    (min, if cell.max.Some? then Syntax.DecimalValue(cell.max.value) else min)
  }

  // ---------- rows ----------

  /** A row of the table: its class names and the text of each of its cells. */
  datatype Row = Row(classes: seq<string>, cells: seq<string>)

  datatype WeeklyPredictions = WeeklyPredictions(variant: VariantType, probabilityText: string, values: seq<(nat, nat)>)

  /** The value cells of a row: after the first three cells, all but the last two. */
  function ValueCells(cells: seq<string>): seq<string>
  {
    var rest := if |cells| >= 3 then cells[3..] else [];
    if |rest| >= 2 then rest[..|rest| - 2] else []
  }

  /**
    The values of `results` in order, or the error of the first one that
    failed: mapping over a list with a function that may throw.
  */
  function MapOrThrow<T>(results: seq<Result<T, ParseError>>): (r: Result<seq<T>, ParseError>)
    decreases |results|
  {
    if results == [] then Success([])
    else
      match results[0]
      case Failure(e) => Failure(e)
      case Success(x) =>
        match MapOrThrow(results[1..])
        case Failure(e) => Failure(e)
        case Success(xs) => Success([x] + xs)
  }

  /** The reading of each value cell, in order. */
  function ValueCellResults(texts: seq<string>): (r: seq<Result<(nat, nat), ParseError>>)
    ensures |r| == |texts| && forall i :: 0 <= i < |texts| ==> r[i] == ParseValueCell(texts[i])
  {
    seq(|texts|, i requires 0 <= i < |texts| => ParseValueCell(texts[i]))
  }

  /** Reads each value cell in order; the first one that does not match stops the row. */
  function ParseValueCells(texts: seq<string>): Result<seq<(nat, nat)>, ParseError>
  {
    MapOrThrow(ValueCellResults(texts))
  }

  /**
    A row: a missing variant or probability cell throws; the variant text is
    trimmed and mapped; the value cells are read and there must be twelve.
  */
  function ParseRow(cells: seq<string>): Result<WeeklyPredictions, ParseError>
  {
    if |cells| < 1 then Failure(Thrown("variant"))
    else if |cells| < 2 then Failure(Thrown("probability"))
    else
      match ParseValueCells(ValueCells(cells))
      case Failure(e) => Failure(e)
      case Success(pairs) =>
        match F.FromArrayOrError(12, pairs)
        case Failure(e) => Failure(WrongLength(e))
        case Success(values) => Success(WeeklyPredictions(ParseVariant(Trim(cells[0])), cells[1], values))
  }

  /** The rows without a class, in order. */
  function UnclassedRows(rows: seq<Row>): (r: seq<Row>)
    ensures |r| <= |rows|
    decreases |rows|
  {
    if rows == [] then []
    else (if |rows[0].classes| == 0 then [rows[0]] else []) + UnclassedRows(rows[1..])
  }

  /** The reading of each row, in order. */
  function RowResults(rows: seq<Row>): (r: seq<Result<WeeklyPredictions, ParseError>>)
    ensures |r| == |rows| && forall i :: 0 <= i < |rows| ==> r[i] == ParseRow(rows[i].cells)
  {
    seq(|rows|, i requires 0 <= i < |rows| => ParseRow(rows[i].cells))
  }

  /** Reads every row in order; the first one that cannot be read stops the table. */
  function ParseRows(rows: seq<Row>): Result<seq<WeeklyPredictions>, ParseError>
  {
    MapOrThrow(RowResults(rows))
  }

  /** The predictions of every row without a class. */
  function CollectWeeklyPredictions(rows: seq<Row>): Result<seq<WeeklyPredictions>, ParseError>
  {
    ParseRows(UnclassedRows(rows))
  }

  // ---------- what the reader promises ----------

  /** Each known variant is read back from its name, and only the four names are known. */
  lemma ParseVariantSpec(s: string, v: VariantType)
    requires v != Unknown
    ensures ParseVariant(VariantName(v)) == v
    ensures ParseVariant(s) == v <==> s == VariantName(v)
  {
  }

  /** Trimming the start of white space alone leaves nothing. */
  lemma {:induction false} TrimStartAllSpace(s: string)
    requires AllJsSpace(s)
    ensures TrimStart(s) == []
    decreases |s|
  {
    if s != [] {
      TrimStartAllSpace(s[1..]);
    }
  }

  /** The start is trimmed up to the first character `s[k]` that is not white space. */
  lemma {:induction false} TrimStartStops(s: string, k: nat)
    requires k < |s| && AllJsSpace(s[..k]) && !IsJsSpace(s[k])
    ensures TrimStart(s) == s[k..]
    decreases k
  {
    if k > 0 {
      assert s[..k][0] == s[0];
      assert s[1..][..k - 1] == s[..k][1..];
      TrimStartStops(s[1..], k - 1);
      assert s[1..][k - 1..] == s[k..];
    }
  }

  /** The end is trimmed back to the last character `s[k - 1]` that is not white space. */
  lemma {:induction false} TrimEndStops(s: string, k: nat)
    requires 0 < k <= |s| && AllJsSpace(s[k..]) && !IsJsSpace(s[k - 1])
    ensures TrimEnd(s) == s[..k]
    decreases |s| - k
  {
    if k < |s| {
      var init := s[..|s| - 1];
      assert s[k..][|s| - 1 - k] == s[|s| - 1];
      assert init[k..] == s[k..][..|s| - 1 - k];
      assert init[k - 1] == s[k - 1];
      TrimEndStops(init, k);
      assert init[..k] == s[..k];
    }
  }

  /** Leading white space before a character that is not white space is trimmed away. */
  lemma TrimStartPadded(lead: string, r: string)
    requires AllJsSpace(lead) && r != [] && !IsJsSpace(r[0])
    ensures TrimStart(lead + r) == r
  {
    var s := lead + r;
    assert s[..|lead|] == lead && s[|lead|] == r[0];
    TrimStartStops(s, |lead|);
    assert s[|lead|..] == r;
  }

  /** Trailing white space after a character that is not white space is trimmed away. */
  lemma TrimEndPadded(t: string, trail: string)
    requires AllJsSpace(trail) && t != [] && !IsJsSpace(t[|t| - 1])
    ensures TrimEnd(t + trail) == t
  {
    var r := t + trail;
    assert r[|t|..] == trail && r[|t| - 1] == t[|t| - 1];
    TrimEndStops(r, |t|);
    assert r[..|t|] == t;
  }

  /** Trimming text padded with white space gives the text back, when it neither starts nor ends with white space. */
  lemma TrimPadded(lead: string, t: string, trail: string)
    requires AllJsSpace(lead) && AllJsSpace(trail)
    requires t == [] || (!IsJsSpace(t[0]) && !IsJsSpace(t[|t| - 1]))
    ensures Trim(lead + t + trail) == t
  {
    if t == [] {
      assert AllJsSpace(lead + t + trail);
      TrimStartAllSpace(lead + t + trail);
    } else {
      assert lead + t + trail == lead + (t + trail);
      TrimStartPadded(lead, t + trail);
      TrimEndPadded(t, trail);
    }
  }

  /** Text without white space at its ends is left alone by trim. */
  lemma TrimIdempotent(s: string)
    ensures Trim(Trim(s)) == Trim(s)
  {
    var t := Trim(s);
    TrimPadded([], t, []);
    assert [] + t + [] == t;
  }

  /** A variant name padded with white space is read as its variant. */
  lemma PaddedVariant(lead: string, v: VariantType, trail: string)
    requires v != Unknown && AllJsSpace(lead) && AllJsSpace(trail)
    ensures ParseVariant(Trim(lead + VariantName(v) + trail)) == v
  {
    var name := VariantName(v);
    assert name != [] && !IsJsSpace(name[0]) && !IsJsSpace(name[|name| - 1]) by {
      match v
      case Wave =>
      case JumpSmall =>
      case JumpBig =>
      case Decrease =>
    }
    TrimPadded(lead, name, trail);
    ParseVariantSpec(name, v);
  }

  /** Every well-formed value cell is read as the pair it denotes. */
  lemma ValueCellComplete(cell: ValueCell)
    requires WellFormedCell(cell)
    ensures ParseValueCell(CellText(cell)) == Success(CellValues(cell))
  {
    if cell.max.Some? {
      RangeCellComplete(cell.lead, cell.min, cell.max.value, cell.trail);
    } else {
      SingleCellComplete(cell.lead, cell.min, cell.trail);
    }
  }

  /** No ASCII digit is white space. */
  lemma DigitIsNotSpace(c: char)
    ensures c in Syntax.AsciiDigits ==> !IsJsSpace(c)
  {
  }

  /** Where the skips stop decides the reading: `N~M` with nothing after but white space. */
  lemma ReadsAsRange(text: string, a: nat, b: nat, c: nat)
    requires a <= |text| && SkipJsSpaces(text, 0) == a && SkipDigits(text, a) == b && a < b
    requires b < |text| && text[b] == '~' && SkipDigits(text, b + 1) == c && b + 1 < c
    requires SkipJsSpaces(text, c) == |text|
    ensures ParseValueCell(text) == Success((Syntax.DecimalValue(text[a..b]), Syntax.DecimalValue(text[b + 1..c])))
  {
  }

  /** Where the skips stop decides the reading: `N` with nothing after but white space. */
  lemma ReadsAsSingle(text: string, a: nat, b: nat)
    requires a <= |text| && SkipJsSpaces(text, 0) == a && SkipDigits(text, a) == b && a < b
    requires !(b < |text| && text[b] == '~') && SkipJsSpaces(text, b) == |text|
    ensures ParseValueCell(text) == Success((Syntax.DecimalValue(text[a..b]), Syntax.DecimalValue(text[a..b])))
  {
  }

  /** `lead N~M trail` is read as `[N, M]`. */
  lemma RangeCellComplete(lead: string, min: string, max: string, trail: string)
    requires AllJsSpace(lead) && AllJsSpace(trail)
    requires min != [] && Syntax.AllDigits(min) && max != [] && Syntax.AllDigits(max)
    ensures ParseValueCell(lead + min + ("~" + max) + trail)
      == Success((Syntax.DecimalValue(min), Syntax.DecimalValue(max)))
  {
    var text := lead + min + ("~" + max) + trail;
    var a := |lead|;
    var b := a + |min|;
    var c := b + 1 + |max|;
    assert text[a..b] == min && text[b] == '~' && text[b + 1..c] == max;
    assert SkipJsSpaces(text, 0) == a by {
      assert text[0..a] == lead && text[a] == min[0];
      DigitIsNotSpace(min[0]);
      SkipSpacesAt(text, 0, a);
    }
    assert SkipDigits(text, a) == b by {
      SkipDigitsAt(text, a, b);
    }
    assert SkipDigits(text, b + 1) == c by {
      if c < |text| {
        assert text[c] == trail[0];
        DigitIsNotSpace(text[c]);
      }
      SkipDigitsAt(text, b + 1, c);
    }
    assert SkipJsSpaces(text, c) == |text| by {
      assert text[c..|text|] == trail;
      SkipSpacesAt(text, c, |text|);
    }
    ReadsAsRange(text, a, b, c);
  }

  /** `lead N trail` is read as `[N, N]`. */
  lemma SingleCellComplete(lead: string, min: string, trail: string)
    requires AllJsSpace(lead) && AllJsSpace(trail)
    requires min != [] && Syntax.AllDigits(min)
    ensures ParseValueCell(lead + min + "" + trail)
      == Success((Syntax.DecimalValue(min), Syntax.DecimalValue(min)))
  {
    var text := lead + min + "" + trail;
    var a := |lead|;
    var b := a + |min|;
    assert text[a..b] == min;
    assert SkipJsSpaces(text, 0) == a by {
      assert text[0..a] == lead && text[a] == min[0];
      DigitIsNotSpace(min[0]);
      SkipSpacesAt(text, 0, a);
    }
    assert SkipDigits(text, a) == b && !(b < |text| && text[b] == '~') by {
      if b < |text| {
        assert text[b] == trail[0];
        DigitIsNotSpace(text[b]);
      }
      SkipDigitsAt(text, a, b);
    }
    assert SkipJsSpaces(text, b) == |text| by {
      assert text[b..|text|] == trail;
      SkipSpacesAt(text, b, |text|);
    }
    ReadsAsSingle(text, a, b);
  }

  /** Skipping white space from `i` stops at `j` when `s[i..j]` is white space and `s[j]` is not. */
  lemma {:induction false} SkipSpacesAt(s: string, i: nat, j: nat)
    requires i <= j <= |s| && AllJsSpace(s[i..j]) && (j == |s| || !IsJsSpace(s[j]))
    ensures SkipJsSpaces(s, i) == j
    decreases j - i
  {
    if i < j {
      assert s[i] == s[i..j][0];
      assert s[i + 1..j] == s[i..j][1..];
      SkipSpacesAt(s, i + 1, j);
    }
  }

  /** Skipping digits from `i` stops at `j` when `s[i..j]` is digits and `s[j]` is not. */
  lemma {:induction false} SkipDigitsAt(s: string, i: nat, j: nat)
    requires i <= j <= |s| && Syntax.AllDigits(s[i..j]) && (j == |s| || s[j] !in Syntax.AsciiDigits)
    ensures SkipDigits(s, i) == j
    decreases j - i
  {
    if i < j {
      assert s[i] == s[i..j][0];
      assert s[i + 1..j] == s[i..j][1..];
      SkipDigitsAt(s, i + 1, j);
    }
  }

  /** A cell read as `N~M` is the text of a well-formed value cell with both numbers. */
  lemma RangeCellSound(text: string, a: nat, b: nat, c: nat)
    requires a == SkipJsSpaces(text, 0) && b == SkipDigits(text, a) && a < b
    requires b < |text| && text[b] == '~' && c == SkipDigits(text, b + 1) && b + 1 < c
    requires SkipJsSpaces(text, c) == |text|
    ensures var cell := ValueCell(text[..a], text[a..b], Some(text[b + 1..c]), text[c..]);
      && WellFormedCell(cell) && CellText(cell) == text
      && ParseValueCell(text) == Success(CellValues(cell))
  {
    var lead, min, max, trail := text[..a], text[a..b], text[b + 1..c], text[c..];
    assert AllJsSpace(lead) by { assert lead == text[0..a]; }
    assert AllJsSpace(trail) by { assert trail == text[c..|text|]; }
    RangeCellParts(text, a, b, c);
    ReadsAsRange(text, a, b, c);
  }

  /** The four parts of an `N~M` cell, put back together, are the cell's text. */
  lemma RangeCellParts(text: string, a: nat, b: nat, c: nat)
    requires a <= b < c <= |text| && text[b] == '~'
    ensures text[..a] + text[a..b] + ("~" + text[b + 1..c]) + text[c..] == text
  {
    assert text[b..c] == "~" + text[b + 1..c];
    assert text[..a] + text[a..b] + text[b..c] + text[c..] == text;
  }

  /** A cell read as `N` is the text of a well-formed value cell with no maximum. */
  lemma SingleCellSound(text: string, a: nat, b: nat)
    requires a == SkipJsSpaces(text, 0) && b == SkipDigits(text, a) && a < b
    requires !(b < |text| && text[b] == '~') && SkipJsSpaces(text, b) == |text|
    ensures var cell := ValueCell(text[..a], text[a..b], None, text[b..]);
      && WellFormedCell(cell) && CellText(cell) == text
      && ParseValueCell(text) == Success(CellValues(cell))
  {
    var lead, min, trail := text[..a], text[a..b], text[b..];
    assert AllJsSpace(lead) by { assert lead == text[0..a]; }
    assert AllJsSpace(trail) by { assert trail == text[b..|text|]; }
    SingleCellParts(text, a, b);
    ReadsAsSingle(text, a, b);
  }

  /** The three parts of an `N` cell, put back together, are the cell's text. */
  lemma SingleCellParts(text: string, a: nat, b: nat)
    requires a <= b <= |text|
    ensures text[..a] + text[a..b] + "" + text[b..] == text
  {
    assert text[..a] + text[a..b] + text[b..] == text;
  }

  /** Every cell that is read is the text of a well-formed value cell denoting the pair read. */
  lemma ValueCellSound(text: string)
    requires ParseValueCell(text).Success?
    ensures exists cell ::
      && WellFormedCell(cell) && CellText(cell) == text
      && CellValues(cell) == ParseValueCell(text).value
  {
    var a := SkipJsSpaces(text, 0);
    var b := SkipDigits(text, a);
    var cell;
    if b < |text| && text[b] == '~' {
      cell := RangeCellWitness(text, a, b);
    } else {
      cell := SingleCellWitness(text, a, b);
    }
  }

  /** The cell behind a successful read of the form `N~M`. */
  lemma RangeCellWitness(text: string, a: nat, b: nat) returns (cell: ValueCell)
    requires ParseValueCell(text).Success?
    requires a == SkipJsSpaces(text, 0) && b == SkipDigits(text, a) && b < |text| && text[b] == '~'
    ensures WellFormedCell(cell) && CellText(cell) == text && CellValues(cell) == ParseValueCell(text).value
  {
    var c := SkipDigits(text, b + 1);
    RangeCellSound(text, a, b, c);
    cell := ValueCell(text[..a], text[a..b], Some(text[b + 1..c]), text[c..]);
  }

  /** The cell behind a successful read of the form `N`. */
  lemma SingleCellWitness(text: string, a: nat, b: nat) returns (cell: ValueCell)
    requires ParseValueCell(text).Success?
    requires a == SkipJsSpaces(text, 0) && b == SkipDigits(text, a) && !(b < |text| && text[b] == '~')
    ensures WellFormedCell(cell) && CellText(cell) == text && CellValues(cell) == ParseValueCell(text).value
  {
    SingleCellSound(text, a, b);
    cell := ValueCell(text[..a], text[a..b], None, text[b..]);
  }

  /** The value cells are the cells between the first three and the last two. */
  lemma ValueCellsSpec(cells: seq<string>)
    ensures |cells| >= 5 ==> ValueCells(cells) == cells[3..|cells| - 2]
    ensures |cells| < 5 ==> ValueCells(cells) == []
  {
  }

  /**
    Mapping succeeds exactly when every result is a success, and then keeps
    their values in order; otherwise it fails with the first failure.
  */
  lemma {:induction false} MapOrThrowSpec<T>(results: seq<Result<T, ParseError>>)
    ensures MapOrThrow(results).Success? <==> forall i :: 0 <= i < |results| ==> results[i].Success?
    ensures MapOrThrow(results).Success? ==>
      |MapOrThrow(results).value| == |results|
      && forall i :: 0 <= i < |results| ==> MapOrThrow(results).value[i] == results[i].value
    ensures MapOrThrow(results).Failure? ==>
      exists i :: 0 <= i < |results| && results[i] == Failure(MapOrThrow(results).error)
        && forall j :: 0 <= j < i ==> results[j].Success?
    decreases |results|
  {
    if results != [] {
      var rest := results[1..];
      MapOrThrowSpec(rest);
      assert forall i :: 0 <= i < |rest| ==> rest[i] == results[i + 1];
      if results[0].Success? && MapOrThrow(rest).Failure? {
        var i :| 0 <= i < |rest| && rest[i] == Failure(MapOrThrow(rest).error)
          && forall j :: 0 <= j < i ==> rest[j].Success?;
        assert results[i + 1] == rest[i];
        assert forall j :: 1 <= j < i + 1 ==> results[j] == rest[j - 1];
      }
      if MapOrThrow(results).Success? {
        forall i | 0 <= i < |results|
          ensures MapOrThrow(results).value[i] == results[i].value
        {
          if i > 0 {
            assert results[i] == rest[i - 1];
          }
        }
      }
    }
  }

  /** Reading the value cells succeeds exactly when every cell matches, and keeps their order. */
  lemma ParseValueCellsSpec(texts: seq<string>)
    ensures ParseValueCells(texts).Success? <==> forall i :: 0 <= i < |texts| ==> ParseValueCell(texts[i]).Success?
    ensures ParseValueCells(texts).Success? ==>
      |ParseValueCells(texts).value| == |texts|
      && forall i :: 0 <= i < |texts| ==> ParseValueCells(texts).value[i] == ParseValueCell(texts[i]).value
  {
    MapOrThrowSpec(ValueCellResults(texts));
  }

  /**
    A row is read exactly when it has seventeen cells whose twelve value
    cells all match; the variant is read from the trimmed first cell and
    the values from the value cells, in order.
  */
  lemma ParseRowSpec(cells: seq<string>)
    ensures ParseRow(cells).Success? <==>
      |cells| == 17 && forall i :: 3 <= i < 15 ==> ParseValueCell(cells[i]).Success?
    ensures ParseRow(cells).Success? ==>
      var p := ParseRow(cells).value;
      && p.variant == ParseVariant(Trim(cells[0]))
      && |p.values| == 12
      && forall i :: 0 <= i < 12 ==> p.values[i] == ParseValueCell(cells[3 + i]).value
  {
    var texts := ValueCells(cells);
    ValueCellsSpec(cells);
    ParseValueCellsSpec(texts);
    if |cells| == 17 {
      assert forall i :: 0 <= i < 12 ==> texts[i] == cells[3 + i];
      if forall i :: 3 <= i < 15 ==> ParseValueCell(cells[i]).Success? {
        assert forall i :: 0 <= i < |texts| ==> ParseValueCell(texts[i]).Success?;
      }
    }
    if ParseRow(cells).Success? {
      assert |texts| == 12;
      assert |cells| == 17;
      forall i | 3 <= i < 15
        ensures ParseValueCell(cells[i]).Success?
      {
        assert texts[i - 3] == cells[i];
      }
    }
  }

  /**
    Only rows without a class are kept, each as often as it occurs: the
    number of copies of a row is its count in `rows` if it has no class,
    and zero otherwise.
  */
  lemma {:induction false} UnclassedRowsSpec(rows: seq<Row>)
    ensures forall i :: 0 <= i < |UnclassedRows(rows)| ==> |UnclassedRows(rows)[i].classes| == 0
    ensures forall row :: row in rows && |row.classes| == 0 <==> row in UnclassedRows(rows)
    ensures forall row ::
      multiset(UnclassedRows(rows))[row] == (if |row.classes| == 0 then multiset(rows)[row] else 0)
    decreases |rows|
  {
    if rows != [] {
      UnclassedRowsSpec(rows[1..]);
      assert rows == [rows[0]] + rows[1..];
    }
  }

  /** Filtering keeps the order: the rows kept from `front + back` are those kept from `front`, then those from `back`. */
  lemma {:induction false} UnclassedRowsAppend(front: seq<Row>, back: seq<Row>)
    ensures UnclassedRows(front + back) == UnclassedRows(front) + UnclassedRows(back)
    decreases |front|
  {
    if front != [] {
      var head := if |front[0].classes| == 0 then [front[0]] else [];
      assert (front + back)[0] == front[0];
      assert (front + back)[1..] == front[1..] + back;
      UnclassedRowsAppend(front[1..], back);
      assert UnclassedRows(front + back) == head + (UnclassedRows(front[1..]) + UnclassedRows(back));
    } else {
      assert front + back == back;
    }
  }

  /**
    The rows are read exactly when every one of them is; the result has one
    prediction per row, in order.
  */
  lemma ParseRowsSpec(rows: seq<Row>)
    ensures ParseRows(rows).Success? <==> forall i :: 0 <= i < |rows| ==> ParseRow(rows[i].cells).Success?
    ensures ParseRows(rows).Success? ==>
      |ParseRows(rows).value| == |rows|
      && forall i :: 0 <= i < |rows| ==> ParseRows(rows).value[i] == ParseRow(rows[i].cells).value
    ensures ParseRows(rows).Failure? ==>
      exists i :: 0 <= i < |rows| && ParseRow(rows[i].cells) == Failure(ParseRows(rows).error)
        && forall j :: 0 <= j < i ==> ParseRow(rows[j].cells).Success?
  {
    MapOrThrowSpec(RowResults(rows));
  }

  /**
    The table is read exactly when every row without a class can be read;
    rows with a class are never looked at.
  */
  lemma CollectWeeklyPredictionsSpec(rows: seq<Row>)
    ensures CollectWeeklyPredictions(rows).Success? <==>
      forall row :: row in rows && |row.classes| == 0 ==> ParseRow(row.cells).Success?
    ensures CollectWeeklyPredictions(rows).Success? ==>
      && |CollectWeeklyPredictions(rows).value| == |UnclassedRows(rows)|
      && forall i :: 0 <= i < |UnclassedRows(rows)| ==>
           && ParseRow(UnclassedRows(rows)[i].cells).Success?
           && CollectWeeklyPredictions(rows).value[i] == ParseRow(UnclassedRows(rows)[i].cells).value
  {
    var kept := UnclassedRows(rows);
    UnclassedRowsSpec(rows);
    ParseRowsSpec(kept);
    assert (forall i :: 0 <= i < |kept| ==> ParseRow(kept[i].cells).Success?) <==>
      (forall row :: row in kept ==> ParseRow(row.cells).Success?);
  }
}
