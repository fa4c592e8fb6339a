/**
  Error messages that point into the source text: each diagnostic's message
  is set in bold and inserted next to the character its range ends at.
*/
module MessageBuilder {
  import Strings
  import TypeArray
  import Scanner

  /** One source character with the messages shown before and after it. */
  datatype CharInfo = CharInfo(readingMessages: seq<string>, sourceChar: string, trailingMessages: seq<string>)

  type MessageBuffer = seq<CharInfo>

  /** A message about a range of the source. */
  datatype Diagnostic = Diagnostic(range: Scanner.Range, message: string)

  /** The text of a buffer with every message taken out. */
  function SourceText(buffer: MessageBuffer): string
  {
    Strings.Concat(seq(|buffer|, i requires 0 <= i < |buffer| => buffer[i].sourceChar))
  }

  /** How many messages a buffer holds. */
  function MessageCount(buffer: MessageBuffer): nat
    decreases |buffer|
  {
    if buffer == [] then 0
    else |buffer[0].readingMessages| + |buffer[0].trailingMessages| + MessageCount(buffer[1..])
  }

  /**
    One cell per source character, with no messages, and one more empty cell
    at the end, since a diagnostic may point just past the last character.
  */
  function CreateMessageBuffer(source: string): (buffer: MessageBuffer)
    ensures |buffer| == |source| + 1
    ensures forall i :: 0 <= i < |source| ==> buffer[i] == CharInfo([], [source[i]], [])
    ensures buffer[|source|] == CharInfo([], "", [])
  {
    seq(|source|, i requires 0 <= i < |source| => CharInfo([], [source[i]], [])) + [CharInfo([], "", [])]
  }

  /** A cell as text: its reading messages, its character, its trailing messages. */
  function ShowCharInfo(info: CharInfo): string
  {
    Strings.Join(info.readingMessages, "") + info.sourceChar + Strings.Join(info.trailingMessages, "")
  }

  function MessageBufferToString(buffer: MessageBuffer): string
  {
    Strings.Join(seq(|buffer|, i requires 0 <= i < |buffer| => ShowCharInfo(buffer[i])), "")
  }

  /** Replaces the cell at `index`; an index past the end changes nothing. */
  function PutCharInfo(buffer: MessageBuffer, index: nat, info: CharInfo): (r: MessageBuffer)
    ensures |r| == |buffer|
    ensures forall i :: 0 <= i < |r| ==> r[i] == if i == index then info else buffer[i]
  {
    seq(|buffer|, i requires 0 <= i < |buffer| => if i == index then info else buffer[i])
  }

  /** Appends a message to those shown before the character at `index`. */
  function InsertReadingMessage(buffer: MessageBuffer, index: nat, message: string): (r: MessageBuffer)
    ensures index < |buffer| ==>
      r == buffer[index := buffer[index].(readingMessages := buffer[index].readingMessages + [message])]
    ensures index >= |buffer| ==> r == buffer
  {
    if index < |buffer| then
      PutCharInfo(buffer, index, CharInfo(
        buffer[index].readingMessages + [message], buffer[index].sourceChar, buffer[index].trailingMessages))
    else buffer
  }

  /** Appends a message to those shown after the character at `index`. */
  function InsertTrailingMessage(buffer: MessageBuffer, index: nat, message: string): (r: MessageBuffer)
    ensures index < |buffer| ==>
      r == buffer[index := buffer[index].(trailingMessages := buffer[index].trailingMessages + [message])]
    ensures index >= |buffer| ==> r == buffer
  {
    if index < |buffer| then
      PutCharInfo(buffer, index, CharInfo(
        buffer[index].readingMessages, buffer[index].sourceChar, buffer[index].trailingMessages + [message]))
    else buffer
  }

  // ---------- bold text ----------

  /** The ASCII digits and letters, in the order the bold table lists them. */
  const AsciiChars: string := AsciiDigitChars + AsciiSmallChars + AsciiCapitalChars

  const AsciiDigitChars: string := "0123456789"
  const AsciiSmallChars: string := "abcdefghijklmnopqrstuvwxyz"
  const AsciiCapitalChars: string := "ABCDEFGHIJKLMNOPQRSTUVWXYZ"

  /** MATHEMATICAL SANS-SERIF BOLD digits, small and capital letters, in the order of `AsciiChars`. */
  const UnicodeBolds: seq<string> := BoldDigits + BoldSmallLetters + BoldCapitalLetters

  const BoldDigits: seq<string> :=
    ["\U{1D7EC}", "\U{1D7ED}", "\U{1D7EE}", "\U{1D7EF}", "\U{1D7F0}", "\U{1D7F1}", "\U{1D7F2}",
     "\U{1D7F3}", "\U{1D7F4}", "\U{1D7F5}"]
  const BoldSmallLetters: seq<string> :=
    ["\U{1D5EE}", "\U{1D5EF}", "\U{1D5F0}", "\U{1D5F1}", "\U{1D5F2}", "\U{1D5F3}", "\U{1D5F4}",
     "\U{1D5F5}", "\U{1D5F6}", "\U{1D5F7}", "\U{1D5F8}", "\U{1D5F9}", "\U{1D5FA}", "\U{1D5FB}",
     "\U{1D5FC}", "\U{1D5FD}", "\U{1D5FE}", "\U{1D5FF}", "\U{1D600}", "\U{1D601}", "\U{1D602}",
     "\U{1D603}", "\U{1D604}", "\U{1D605}", "\U{1D606}", "\U{1D607}"]
  const BoldCapitalLetters: seq<string> :=
    ["\U{1D5D4}", "\U{1D5D5}", "\U{1D5D6}", "\U{1D5D7}", "\U{1D5D8}", "\U{1D5D9}", "\U{1D5DA}",
     "\U{1D5DB}", "\U{1D5DC}", "\U{1D5DD}", "\U{1D5DE}", "\U{1D5DF}", "\U{1D5E0}", "\U{1D5E1}",
     "\U{1D5E2}", "\U{1D5E3}", "\U{1D5E4}", "\U{1D5E5}", "\U{1D5E6}", "\U{1D5E7}", "\U{1D5E8}",
     "\U{1D5E9}", "\U{1D5EA}", "\U{1D5EB}", "\U{1D5EC}", "\U{1D5ED}"]

  /** Each character as a one-character string: pieces that concatenate back to `s`. */
  function ToChars(s: string): (chars: seq<string>)
    ensures |chars| == |s| && forall i :: 0 <= i < |s| ==> chars[i] == [s[i]]
    ensures forall i :: 0 <= i < |chars| ==> |chars[i]| == 1
    ensures Strings.Concat(chars) == s
  {
    Strings.ConcatSingletons(s);
    seq(|s|, i requires 0 <= i < |s| => [s[i]])
  }

  /** Adds each row's character and bold form to `result`. */
  function CharRowsToTable(rows: seq<(string, string)>, result: map<string, string>): map<string, string>
    decreases |rows|
  {
    if rows == [] then result else CharRowsToTable(rows[1..], result[rows[0].0 := rows[0].1])
  }

  /** Every ASCII letter and digit and its bold form. */
  function CharTable(): map<string, string>
  {
    CharRowsToTable(TypeArray.Zip(ToChars(AsciiChars), UnicodeBolds), map[])
  }

  /** The bold form of a letter or digit; any other character is kept. */
  function CharToBold(c: string): string
  {
    if c in CharTable() then CharTable()[c] else c
  }

  function ToBold(source: string): string
  {
    Strings.Join(seq(|source|, i requires 0 <= i < |source| => CharToBold([source[i]])), "")
  }

  // ---------- building the message ----------

  /** The mark for a zero-width range, put before the character: "🕳👈❮" + bold message + "❯". */
  function ReadingMark(message: string): string
  {
    "\U{1F573}\U{1F448}\U{276E}" + ToBold(message) + "\U{276F}"
  }

  /** The mark for a range that covers text, put after the character at the range's end offset: "👈❮" + bold message + "❯". */
  function TrailingMark(message: string): string
  {
    "\U{1F448}\U{276E}" + ToBold(message) + "\U{276F}"
  }

  function InsertMessage(buffer: MessageBuffer, range: Scanner.Range, message: string): MessageBuffer
  {
    if range.start == range.end then InsertReadingMessage(buffer, range.end, ReadingMark(message))
    else InsertTrailingMessage(buffer, range.end, TrailingMark(message))
  }

  /** Inserts the diagnostics' messages in order. */
  function PushMessages(remaining: seq<Diagnostic>, buffer: MessageBuffer): MessageBuffer
    decreases |remaining|
  {
    if remaining == [] then buffer
    else PushMessages(remaining[1..], InsertMessage(buffer, remaining[0].range, remaining[0].message))
  }

  /** The source with every diagnostic's message inserted where its range ends. */
  function BuildErrorMessage(source: string, diagnostics: seq<Diagnostic>): string
  {
    MessageBufferToString(PushMessages(diagnostics, CreateMessageBuffer(source)))
  }

  // ---------- what the bold table holds ----------

  /** The `i`-th character of `AsciiChars`: the digits, then `a` to `z`, then `A` to `Z`. */
  function AsciiAt(i: nat): char
    requires i < 62
  {
    if i < 10 then ('0' as int + i) as char
    else if i < 36 then ('a' as int + (i - 10)) as char
    else ('A' as int + (i - 36)) as char
  }

  predicate IsAsciiAlphanumeric(c: char)
  {
    '0' <= c <= '9' || 'a' <= c <= 'z' || 'A' <= c <= 'Z'
  }

  /**
    The reference definition of bold: MATHEMATICAL SANS-SERIF BOLD DIGIT ZERO
    is U+1D7EC, SMALL A is U+1D5EE and CAPITAL A is U+1D5D4, each followed by
    the rest of its run; other characters are unchanged.
  */
  function BoldChar(c: char): char
  {
    if '0' <= c <= '9' then (0x1D7EC + (c as int - '0' as int)) as char
    else if 'a' <= c <= 'z' then (0x1D5EE + (c as int - 'a' as int)) as char
    else if 'A' <= c <= 'Z' then (0x1D5D4 + (c as int - 'A' as int)) as char
    else c
  }

  /** `n` consecutive code points from `first`, as a string. */
  function CodeRun(first: int, n: nat): (s: string)
    requires (0 <= first && first + n <= 0xD800) || (0xE000 <= first && first + n <= 0x11_0000)
    ensures |s| == n && forall k :: 0 <= k < n ==> s[k] == (first + k) as char
  {
    seq(n, k requires 0 <= k < n => (first + k) as char)
  }

  /** `n` consecutive code points from `first`, each as a one-character string. */
  function SingletonRun(first: int, n: nat): (s: seq<string>)
    requires 0xE000 <= first && first + n <= 0x11_0000
    ensures |s| == n && forall k :: 0 <= k < n ==> s[k] == [(first + k) as char]
  {
    seq(n, k requires 0 <= k < n => [(first + k) as char])
  }

  /** Each literal group is one run of consecutive code points. */
  lemma LiteralRuns()
    ensures AsciiDigitChars == CodeRun('0' as int, 10)
    ensures AsciiSmallChars == CodeRun('a' as int, 26)
    ensures AsciiCapitalChars == CodeRun('A' as int, 26)
    ensures BoldDigits == SingletonRun(0x1D7EC, 10)
    ensures BoldSmallLetters == SingletonRun(0x1D5EE, 26)
    ensures BoldCapitalLetters == SingletonRun(0x1D5D4, 26)
  {
    AsciiRuns();
    BoldRuns();
  }

  lemma AsciiRuns()
    ensures AsciiDigitChars == CodeRun('0' as int, 10)
    ensures AsciiSmallChars == CodeRun('a' as int, 26)
    ensures AsciiCapitalChars == CodeRun('A' as int, 26)
  {
  }

  lemma BoldRuns()
    ensures BoldDigits == SingletonRun(0x1D7EC, 10)
    ensures BoldSmallLetters == SingletonRun(0x1D5EE, 26)
    ensures BoldCapitalLetters == SingletonRun(0x1D5D4, 26)
  {
  }

  /** The literal tables are the digits and letters and their bold forms, row by row. */
  lemma TablesAgree()
    ensures |AsciiChars| == 62 && |UnicodeBolds| == 62
    ensures forall j :: 0 <= j < 62 ==> AsciiChars[j] == AsciiAt(j) && UnicodeBolds[j] == [BoldChar(AsciiAt(j))]
  {
    LiteralRuns();
    forall j | 0 <= j < 62
      ensures AsciiChars[j] == AsciiAt(j) && UnicodeBolds[j] == [BoldChar(AsciiAt(j))]
    {
      if j < 10 {
        assert AsciiChars[j] == AsciiDigitChars[j] && UnicodeBolds[j] == BoldDigits[j];
      } else if j < 36 {
        assert AsciiChars[j] == AsciiSmallChars[j - 10] && UnicodeBolds[j] == BoldSmallLetters[j - 10];
      } else {
        assert AsciiChars[j] == AsciiCapitalChars[j - 36] && UnicodeBolds[j] == BoldCapitalLetters[j - 36];
      }
    }
  }

  /** A row (or table entry) that maps one character to its bold form. */
  predicate BoldRow(row: (string, string))
  {
    |row.0| == 1 && row.1 == [BoldChar(row.0[0])]
  }

  /** The keys of a list of rows. */
  function RowKeys(rows: seq<(string, string)>): set<string>
  {
    set i | 0 <= i < |rows| :: rows[i].0
  }

  /** Folding bold rows into a table of bold entries gives a table of bold entries, keyed by the rows' keys. */
  lemma {:induction false} CharRowsToTableSpec(rows: seq<(string, string)>, result: map<string, string>)
    requires forall i :: 0 <= i < |rows| ==> BoldRow(rows[i])
    requires forall k :: k in result ==> BoldRow((k, result[k]))
    ensures var table := CharRowsToTable(rows, result);
      && table.Keys == result.Keys + RowKeys(rows)
      && forall k :: k in table ==> BoldRow((k, table[k]))
    decreases |rows|
  {
    if rows != [] {
      var result' := result[rows[0].0 := rows[0].1];
      CharRowsToTableSpec(rows[1..], result');
      assert RowKeys(rows) == {rows[0].0} + RowKeys(rows[1..]) by {
        forall k | k in RowKeys(rows)
          ensures k in {rows[0].0} + RowKeys(rows[1..])
        {
          var i :| 0 <= i < |rows| && rows[i].0 == k;
          if i > 0 {
            assert rows[1..][i - 1].0 == k;
          }
        }
        forall k | k in RowKeys(rows[1..])
          ensures k in RowKeys(rows)
        {
          var i :| 0 <= i < |rows[1..]| && rows[1..][i].0 == k;
          assert rows[i + 1].0 == k;
        }
      }
    }
  }

  /** The index of an ASCII letter or digit in `AsciiChars`. */
  function AsciiIndex(c: char): (i: nat)
    requires IsAsciiAlphanumeric(c)
    ensures i < 62 && AsciiAt(i) == c
  {
    if c <= '9' then c as int - '0' as int
    else if 'a' <= c then 10 + (c as int - 'a' as int)
    else 36 + (c as int - 'A' as int)
  }

  /** The keys of the bold table are exactly the ASCII letters and digits. */
  lemma AsciiKeys(rows: seq<(string, string)>)
    requires |rows| == 62 && forall i :: 0 <= i < 62 ==> rows[i].0 == [AsciiAt(i)]
    ensures forall k :: k in RowKeys(rows) <==> |k| == 1 && IsAsciiAlphanumeric(k[0])
  {
    forall k | |k| == 1 && IsAsciiAlphanumeric(k[0])
      ensures k in RowKeys(rows)
    {
      var i := AsciiIndex(k[0]);
      assert rows[i].0 == k;
    }
  }

  /** The bold table maps each ASCII letter and digit to its bold form, and holds nothing else. */
  lemma CharTableSpec()
    ensures forall k :: k in CharTable() <==> |k| == 1 && IsAsciiAlphanumeric(k[0])
    ensures forall k :: k in CharTable() ==> CharTable()[k] == [BoldChar(k[0])]
  {
    TablesAgree();
    var rows := TypeArray.Zip(ToChars(AsciiChars), UnicodeBolds);
    TypeArray.ZipSpec(ToChars(AsciiChars), UnicodeBolds);
    assert forall i :: 0 <= i < 62 ==> rows[i] == ([AsciiAt(i)], [BoldChar(AsciiAt(i))]);
    CharRowsToTableSpec(rows, map[]);
    AsciiKeys(rows);
  }

  /** A one-character string in bold: the bold form of its character. */
  lemma CharToBoldSpec(c: char)
    ensures CharToBold([c]) == [BoldChar(c)]
  {
    CharTableSpec();
    if [c] !in CharTable() {
      assert !IsAsciiAlphanumeric([c][0]);
    }
  }

  /** Bold keeps the length and sets each ASCII letter and digit in bold, leaving other characters alone. */
  lemma ToBoldSpec(source: string)
    ensures ToBold(source) == seq(|source|, i requires 0 <= i < |source| => BoldChar(source[i]))
  {
    var bold := seq(|source|, i requires 0 <= i < |source| => BoldChar(source[i]));
    var parts := seq(|source|, i requires 0 <= i < |source| => CharToBold([source[i]]));
    forall i | 0 <= i < |source|
      ensures parts[i] == [bold[i]]
    {
      CharToBoldSpec(source[i]);
    }
    assert parts == seq(|bold|, i requires 0 <= i < |bold| => [bold[i]]);
    Strings.JoinEmptySeparator(parts);
    Strings.ConcatSingletons(bold);
  }

  // ---------- what the built message holds ----------

  /** A buffer with no messages shows exactly its source text. */
  lemma EmptyBufferShowsSource(source: string)
    ensures MessageBufferToString(CreateMessageBuffer(source)) == source
  {
    var buffer := CreateMessageBuffer(source);
    var shown := seq(|buffer|, i requires 0 <= i < |buffer| => ShowCharInfo(buffer[i]));
    var chars := seq(|source|, i requires 0 <= i < |source| => [source[i]]);
    forall i | 0 <= i < |shown|
      ensures shown[i] == (chars + [""])[i]
    {
      assert Strings.Join([], "") == "";
    }
    assert shown == chars + [""];
    Strings.JoinEmptySeparator(shown);
    Strings.ConcatAppend(chars, [""]);
    Strings.ConcatSingletons(source);
  }

  /** Without diagnostics the error message is the source itself. */
  lemma NoDiagnostics(source: string)
    ensures BuildErrorMessage(source, []) == source
  {
    EmptyBufferShowsSource(source);
  }

  /** Inserting a message keeps the buffer's size and its source text. */
  lemma InsertMessageKeepsSource(buffer: MessageBuffer, range: Scanner.Range, message: string)
    ensures var r := InsertMessage(buffer, range, message);
      && |r| == |buffer|
      && (forall i :: 0 <= i < |r| ==> r[i].sourceChar == buffer[i].sourceChar)
      && SourceText(r) == SourceText(buffer)
  {
    var r := InsertMessage(buffer, range, message);
    assert seq(|r|, i requires 0 <= i < |r| => r[i].sourceChar)
        == seq(|buffer|, i requires 0 <= i < |buffer| => buffer[i].sourceChar);
  }

  /** Replacing one cell changes the message count by the difference in that cell's messages. */
  lemma {:induction false} MessageCountUpdate(buffer: MessageBuffer, index: nat, info: CharInfo)
    requires index < |buffer|
    ensures MessageCount(buffer[index := info]) + |buffer[index].readingMessages| + |buffer[index].trailingMessages|
         == MessageCount(buffer) + |info.readingMessages| + |info.trailingMessages|
    decreases |buffer|
  {
    if index > 0 {
      assert buffer[index := info][1..] == buffer[1..][index - 1 := info];
      MessageCountUpdate(buffer[1..], index - 1, info);
    } else {
      assert buffer[index := info][1..] == buffer[1..];
    }
  }

  /**
    Each diagnostic adds one message, at the cell its range ends at: a
    reading mark for a zero-width range, a trailing mark otherwise. A
    diagnostic whose range ends past the buffer adds nothing.
  */
  lemma InsertMessageSpec(buffer: MessageBuffer, range: Scanner.Range, message: string)
    ensures var r := InsertMessage(buffer, range, message);
      && MessageCount(r) == MessageCount(buffer) + (if range.end < |buffer| then 1 else 0)
      && (range.end < |buffer| && range.start == range.end ==>
            r[range.end].readingMessages == buffer[range.end].readingMessages + [ReadingMark(message)])
      && (range.end < |buffer| && range.start != range.end ==>
            r[range.end].trailingMessages == buffer[range.end].trailingMessages + [TrailingMark(message)])
      && (forall i :: 0 <= i < |r| && i != range.end ==> r[i] == buffer[i])
  {
    if range.end < |buffer| {
      var cell := buffer[range.end];
      if range.start == range.end {
        MessageCountUpdate(buffer, range.end, cell.(readingMessages := cell.readingMessages + [ReadingMark(message)]));
      } else {
        MessageCountUpdate(buffer, range.end, cell.(trailingMessages := cell.trailingMessages + [TrailingMark(message)]));
      }
    }
  }

  /** How many diagnostics point into a buffer of `size` cells. */
  function CountInRange(diagnostics: seq<Diagnostic>, size: nat): nat
    decreases |diagnostics|
  {
    if diagnostics == [] then 0
    else (if diagnostics[0].range.end < size then 1 else 0) + CountInRange(diagnostics[1..], size)
  }

  /** The reading mark one diagnostic puts at `index`: one for a zero-width range ending there, else none. */
  function ReadingMarkAt(d: Diagnostic, index: nat): seq<string>
  {
    if d.range.start == d.range.end && d.range.end == index then [ReadingMark(d.message)] else []
  }

  /** The trailing mark one diagnostic puts at `index`: one for a range that covers text and ends there, else none. */
  function TrailingMarkAt(d: Diagnostic, index: nat): seq<string>
  {
    if d.range.start != d.range.end && d.range.end == index then [TrailingMark(d.message)] else []
  }

  /** The reading marks the diagnostics put at `index`, in list order. */
  function ReadingMarksAt(diagnostics: seq<Diagnostic>, index: nat): seq<string>
    decreases |diagnostics|
  {
    if diagnostics == [] then [] else ReadingMarkAt(diagnostics[0], index) + ReadingMarksAt(diagnostics[1..], index)
  }

  /** The trailing marks the diagnostics put at `index`, in list order. */
  function TrailingMarksAt(diagnostics: seq<Diagnostic>, index: nat): seq<string>
    decreases |diagnostics|
  {
    if diagnostics == [] then [] else TrailingMarkAt(diagnostics[0], index) + TrailingMarksAt(diagnostics[1..], index)
  }

  /** Inserting one diagnostic's message appends its marks to each cell's lists and keeps the characters. */
  lemma InsertMessageCells(buffer: MessageBuffer, d: Diagnostic)
    ensures var r := InsertMessage(buffer, d.range, d.message);
      && |r| == |buffer|
      && forall i :: 0 <= i < |r| ==>
           && r[i].sourceChar == buffer[i].sourceChar
           && r[i].readingMessages == buffer[i].readingMessages + ReadingMarkAt(d, i)
           && r[i].trailingMessages == buffer[i].trailingMessages + TrailingMarkAt(d, i)
  {
    InsertMessageSpec(buffer, d.range, d.message);
    InsertMessageKeepsSource(buffer, d.range, d.message);
  }

  /**
    After pushing the diagnostics, the cell at `index` keeps its character
    and gets, after the marks it had, the marks of the diagnostics whose
    range ends there, in the order of the list.
  */
  lemma {:induction false} PushMessagesCell(diagnostics: seq<Diagnostic>, buffer: MessageBuffer, index: nat)
    requires index < |buffer|
    ensures var r := PushMessages(diagnostics, buffer);
      && |r| == |buffer|
      && r[index].sourceChar == buffer[index].sourceChar
      && r[index].readingMessages == buffer[index].readingMessages + ReadingMarksAt(diagnostics, index)
      && r[index].trailingMessages == buffer[index].trailingMessages + TrailingMarksAt(diagnostics, index)
    decreases |diagnostics|
  {
    if diagnostics != [] {
      var d := diagnostics[0];
      var next := InsertMessage(buffer, d.range, d.message);
      InsertMessageCells(buffer, d);
      PushMessagesCell(diagnostics[1..], next, index);
      var cell := buffer[index];
      AppendAssociates(cell.readingMessages, ReadingMarkAt(d, index), ReadingMarksAt(diagnostics[1..], index));
      AppendAssociates(cell.trailingMessages, TrailingMarkAt(d, index), TrailingMarksAt(diagnostics[1..], index));
    }
  }

  lemma AppendAssociates(a: seq<string>, b: seq<string>, c: seq<string>)
    ensures a + b + c == a + (b + c)
  {
  }

  /** Pushing diagnostics keeps the source text and adds one message per diagnostic that points into it. */
  lemma {:induction false} PushMessagesCount(diagnostics: seq<Diagnostic>, buffer: MessageBuffer)
    ensures var r := PushMessages(diagnostics, buffer);
      && |r| == |buffer| && SourceText(r) == SourceText(buffer)
      && MessageCount(r) == MessageCount(buffer) + CountInRange(diagnostics, |buffer|)
    decreases |diagnostics|
  {
    if diagnostics != [] {
      var d := diagnostics[0];
      InsertMessageKeepsSource(buffer, d.range, d.message);
      InsertMessageSpec(buffer, d.range, d.message);
      PushMessagesCount(diagnostics[1..], InsertMessage(buffer, d.range, d.message));
    }
  }

  /**
    Pushing diagnostics keeps the source text, adds one message per
    diagnostic that points into the buffer, and puts each diagnostic's mark
    after the marks already at the cell its range ends at, in list order.
  */
  lemma PushMessagesSpec(diagnostics: seq<Diagnostic>, buffer: MessageBuffer)
    ensures var r := PushMessages(diagnostics, buffer);
      && |r| == |buffer| && SourceText(r) == SourceText(buffer)
      && MessageCount(r) == MessageCount(buffer) + CountInRange(diagnostics, |buffer|)
      && forall i :: 0 <= i < |r| ==>
           && r[i].sourceChar == buffer[i].sourceChar
           && r[i].readingMessages == buffer[i].readingMessages + ReadingMarksAt(diagnostics, i)
           && r[i].trailingMessages == buffer[i].trailingMessages + TrailingMarksAt(diagnostics, i)
  {
    PushMessagesCount(diagnostics, buffer);
    forall i | 0 <= i < |buffer|
      ensures var r := PushMessages(diagnostics, buffer);
        && r[i].sourceChar == buffer[i].sourceChar
        && r[i].readingMessages == buffer[i].readingMessages + ReadingMarksAt(diagnostics, i)
        && r[i].trailingMessages == buffer[i].trailingMessages + TrailingMarksAt(diagnostics, i)
    {
      PushMessagesCell(diagnostics, buffer, i);
    }
  }

  /** The buffer of `source` holds the source text and no messages. */
  lemma CreateMessageBufferSpec(source: string)
    ensures SourceText(CreateMessageBuffer(source)) == source
    ensures MessageCount(CreateMessageBuffer(source)) == 0
  {
    var buffer := CreateMessageBuffer(source);
    var chars := seq(|source|, i requires 0 <= i < |source| => [source[i]]);
    assert seq(|buffer|, i requires 0 <= i < |buffer| => buffer[i].sourceChar) == chars + [""];
    Strings.ConcatAppend(chars, [""]);
    Strings.ConcatSingletons(source);
    NoMessages(buffer);
  }

  lemma {:induction false} NoMessages(buffer: MessageBuffer)
    requires forall i :: 0 <= i < |buffer| ==> buffer[i].readingMessages == [] && buffer[i].trailingMessages == []
    ensures MessageCount(buffer) == 0
    decreases |buffer|
  {
    if buffer != [] {
      NoMessages(buffer[1..]);
    }
  }

  /**
    The error message's buffer keeps the source text in its cells, and holds
    one message per diagnostic whose range ends at most one past the source.
  */
  lemma BuildErrorMessageSpec(source: string, diagnostics: seq<Diagnostic>)
    ensures var buffer := PushMessages(diagnostics, CreateMessageBuffer(source));
      && BuildErrorMessage(source, diagnostics) == MessageBufferToString(buffer)
      && SourceText(buffer) == source
      && MessageCount(buffer) == CountInRange(diagnostics, |source| + 1)
  {
    CreateMessageBufferSpec(source);
    PushMessagesSpec(diagnostics, CreateMessageBuffer(source));
  }
  /** The cells of a fresh buffer with cell `e` replaced, each shown as text. */
  lemma ShownCells(source: string, e: nat, info: CharInfo)
    requires e <= |source|
    ensures var buffer := CreateMessageBuffer(source)[e := info];
      var before := source[..e];
      var after := if e < |source| then source[e + 1..] else "";
      seq(|buffer|, i requires 0 <= i < |buffer| => ShowCharInfo(buffer[i]))
        == seq(|before|, i requires 0 <= i < |before| => [before[i]]) + [ShowCharInfo(info)]
           + (if e < |source| then seq(|after|, i requires 0 <= i < |after| => [after[i]]) + [""] else [])
  {
    var buffer := CreateMessageBuffer(source)[e := info];
    var shown := seq(|buffer|, i requires 0 <= i < |buffer| => ShowCharInfo(buffer[i]));
    var before := source[..e];
    var after := if e < |source| then source[e + 1..] else "";
    var pre := seq(|before|, i requires 0 <= i < |before| => [before[i]]);
    var singles := seq(|after|, i requires 0 <= i < |after| => [after[i]]);
    var post := if e < |source| then singles + [""] else [];
    assert Strings.Join([], "") == "";
    forall i | 0 <= i < |shown|
      ensures shown[i] == (pre + [ShowCharInfo(info)] + post)[i]
    {
    }
  }

  /** The text of a fresh buffer for `source` whose cell `e` has been replaced by `info`. */
  lemma ShowOneCell(source: string, e: nat, info: CharInfo)
    requires e <= |source|
    ensures MessageBufferToString(CreateMessageBuffer(source)[e := info])
         == source[..e] + ShowCharInfo(info) + (if e < |source| then source[e + 1..] else "")
  {
    var buffer := CreateMessageBuffer(source)[e := info];
    var shown := seq(|buffer|, i requires 0 <= i < |buffer| => ShowCharInfo(buffer[i]));
    var before := source[..e];
    var after := if e < |source| then source[e + 1..] else "";
    var pre := seq(|before|, i requires 0 <= i < |before| => [before[i]]);
    var singles := seq(|after|, i requires 0 <= i < |after| => [after[i]]);
    var post := if e < |source| then singles + [""] else [];
    ShownCells(source, e, info);
    Strings.JoinEmptySeparator(shown);
    Strings.ConcatAppend(pre + [ShowCharInfo(info)], post);
    Strings.ConcatAppend(pre, [ShowCharInfo(info)]);
    assert Strings.Concat([ShowCharInfo(info)]) == ShowCharInfo(info) + Strings.Concat([]);
    Strings.ConcatSingletons(before);
    Strings.ConcatSingletons(after);
    if e < |source| {
      Strings.ConcatAppend(singles, [""]);
    }
  }

  /** The cell a single diagnostic leaves at the end of its range in a fresh buffer. */
  function MarkedCell(source: string, d: Diagnostic): CharInfo
    requires d.range.end <= |source|
  {
    var sourceChar := if d.range.end < |source| then [source[d.range.end]] else "";
    if d.range.start == d.range.end then CharInfo([ReadingMark(d.message)], sourceChar, [])
    else CharInfo([], sourceChar, [TrailingMark(d.message)])
  }

  lemma PushOne(source: string, d: Diagnostic)
    requires d.range.end <= |source|
    ensures PushMessages([d], CreateMessageBuffer(source))
         == CreateMessageBuffer(source)[d.range.end := MarkedCell(source, d)]
  {
    var initial := CreateMessageBuffer(source);
    var cell := initial[d.range.end];
    assert cell.readingMessages == [] && cell.trailingMessages == [];
    assert PushMessages([d], initial) == InsertMessage(initial, d.range, d.message);
    if d.range.start == d.range.end {
      assert cell.readingMessages + [ReadingMark(d.message)] == [ReadingMark(d.message)];
    } else {
      assert cell.trailingMessages + [TrailingMark(d.message)] == [TrailingMark(d.message)];
    }
  }

  /** A cell with one reading mark shows the mark, then its character. */
  lemma ShowReadingCell(mark: string, sourceChar: string)
    ensures ShowCharInfo(CharInfo([mark], sourceChar, [])) == mark + sourceChar
  {
    Strings.JoinSingle(mark, "");
    assert Strings.Join([], "") == "";
  }

  /** A cell with one trailing mark shows its character, then the mark. */
  lemma ShowTrailingCell(mark: string, sourceChar: string)
    ensures ShowCharInfo(CharInfo([], sourceChar, [mark])) == sourceChar + mark
  {
    Strings.JoinSingle(mark, "");
    assert Strings.Join([], "") == "";
  }

  /** A single zero-width diagnostic puts its reading mark before the character its range ends at. */
  lemma OneReadingDiagnostic(source: string, d: Diagnostic)
    requires d.range.start == d.range.end <= |source|
    ensures BuildErrorMessage(source, [d])
         == source[..d.range.end] + ReadingMark(d.message) + source[d.range.end..]
  {
    var e := d.range.end;
    var mark := ReadingMark(d.message);
    var sourceChar := if e < |source| then [source[e]] else "";
    var after := if e < |source| then source[e + 1..] else "";
    var cell := CharInfo([mark], sourceChar, []);
    assert PushMessages([d], CreateMessageBuffer(source)) == CreateMessageBuffer(source)[e := cell] by {
      PushOne(source, d);
    }
    assert BuildErrorMessage(source, [d]) == source[..e] + (mark + sourceChar) + after by {
      ShowOneCell(source, e, cell);
      ShowReadingCell(mark, sourceChar);
    }
    assert sourceChar + after == source[e..] by {
      if e < |source| {
        assert source[e..] == [source[e]] + source[e + 1..];
      }
    }
    Regroup(source[..e], mark, sourceChar, after);
  }

  lemma Regroup(a: string, b: string, c: string, d: string)
    ensures a + (b + c) + d == a + b + (c + d)
  {
  }

  /** A single diagnostic over a non-empty range puts its trailing mark after the character its range ends at. */
  lemma OneTrailingDiagnostic(source: string, d: Diagnostic)
    requires d.range.start != d.range.end && d.range.end < |source|
    ensures var e := d.range.end;
      BuildErrorMessage(source, [d]) == source[..e + 1] + TrailingMark(d.message) + source[e + 1..]
  {
    var e := d.range.end;
    var mark := TrailingMark(d.message);
    PushOne(source, d);
    ShowOneCell(source, e, MarkedCell(source, d));
    ShowTrailingCell(mark, [source[e]]);
    assert source[..e] + ([source[e]] + mark) + source[e + 1..] == source[..e + 1] + mark + source[e + 1..];
  }

  /** A non-empty range that ends at the end of the source puts its trailing mark after the whole source. */
  lemma TrailingDiagnosticAtEnd(source: string, d: Diagnostic)
    requires d.range.start != d.range.end && d.range.end == |source|
    ensures BuildErrorMessage(source, [d]) == source + TrailingMark(d.message)
  {
    var mark := TrailingMark(d.message);
    PushOne(source, d);
    ShowOneCell(source, |source|, MarkedCell(source, d));
    ShowTrailingCell(mark, "");
    assert source[..|source|] == source;
  }

  // ---------- the trailing mark, as evidently intended ----------

  /**
    A diagnostic's mark placed as evidently intended: a zero-width range gets
    its reading mark as before, and a range that covers text gets its trailing
    mark after the last character it covers (cell `end - 1`).
  */
  function InsertMessageAfterRange(buffer: MessageBuffer, range: Scanner.Range, message: string): MessageBuffer
  {
    if range.start < range.end then InsertTrailingMessage(buffer, range.end - 1, TrailingMark(message))
    else InsertReadingMessage(buffer, range.end, ReadingMark(message))
  }

  function PushMessagesAfterRange(remaining: seq<Diagnostic>, buffer: MessageBuffer): MessageBuffer
    decreases |remaining|
  {
    if remaining == [] then buffer
    else PushMessagesAfterRange(remaining[1..], InsertMessageAfterRange(buffer, remaining[0].range, remaining[0].message))
  }

  function BuildErrorMessageAfterRange(source: string, diagnostics: seq<Diagnostic>): string
  {
    MessageBufferToString(PushMessagesAfterRange(diagnostics, CreateMessageBuffer(source)))
  }

  /** A single diagnostic over a non-empty range puts its trailing mark right after the text it covers. */
  lemma OneTrailingDiagnosticAfterRange(source: string, d: Diagnostic)
    requires d.range.start < d.range.end <= |source|
    ensures BuildErrorMessageAfterRange(source, [d])
         == source[..d.range.end] + TrailingMark(d.message) + source[d.range.end..]
  {
    var e := d.range.end - 1;
    var mark := TrailingMark(d.message);
    var initial := CreateMessageBuffer(source);
    var cell := CharInfo([], [source[e]], [mark]);
    assert PushMessagesAfterRange([d], initial) == initial[e := cell] by {
      assert initial[e].trailingMessages + [mark] == [mark];
    }
    assert BuildErrorMessageAfterRange(source, [d]) == source[..e] + ([source[e]] + mark) + source[e + 1..] by {
      ShowOneCell(source, e, cell);
      ShowTrailingCell(mark, [source[e]]);
    }
    assert source[..e] + [source[e]] == source[..e + 1];
  }

  /**
    The symbol `/` at offset 3 of `m/s/s` (range [3, 4)): as written, the mark
    follows the `s` after it; as intended, it follows the `/` itself.
  */
  lemma TrailingMarkOneLate()
    ensures BuildErrorMessage("m/s/s", [Diagnostic(Scanner.Range(3, 4), "x")]) == "m/s/s" + TrailingMark("x")
    ensures BuildErrorMessageAfterRange("m/s/s", [Diagnostic(Scanner.Range(3, 4), "x")])
         == "m/s/" + TrailingMark("x") + "s"
  {
    var d := Diagnostic(Scanner.Range(3, 4), "x");
    OneTrailingDiagnostic("m/s/s", d);
    assert "m/s/s"[..5] == "m/s/s" && "m/s/s"[5..] == "";
    OneTrailingDiagnosticAfterRange("m/s/s", d);
    assert "m/s/s"[..4] == "m/s/" && "m/s/s"[4..] == "s";
  }
}
