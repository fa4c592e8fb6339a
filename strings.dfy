/** String length as a unary natural, and `join`. */
module Strings {
  import N = Natural

  function Sixteen(): N.Nat { N.Add(N.Known(8), N.Known(8)) }
  function ThirtyTwo(): N.Nat { N.Add(Sixteen(), Sixteen()) }

  /**
    Counts the characters of `t` onto `n`, peeling off 32, 16, 8, 4, 2 or 1
    characters at a time (the chunking keeps the source's recursion shallow).
  */
  function LengthAsNatWorker(t: string, n: N.Nat): (r: N.Nat)
    ensures N.ToNumber(r) == |t| + N.ToNumber(n)
    decreases |t|
  {
    if |t| >= 32 then LengthAsNatWorker(t[32..], N.Add(ThirtyTwo(), n))
    else if |t| >= 16 then LengthAsNatWorker(t[16..], N.Add(Sixteen(), n))
    else if |t| >= 8 then LengthAsNatWorker(t[8..], N.Add(N.Known(8), n))
    else if |t| >= 4 then LengthAsNatWorker(t[4..], N.Add(N.Known(4), n))
    else if |t| >= 2 then LengthAsNatWorker(t[2..], N.Add(N.Known(2), n))
    else if |t| >= 1 then LengthAsNatWorker(t[1..], N.Add(N.Known(1), n))
    else n
  }

  function LengthAsNat(t: string): (r: N.Nat)
    ensures N.ToNumber(r) == |t|
  {
    LengthAsNatWorker(t, N.Known(0))
  }

  function Length(t: string): (r: nat)
    ensures r == |t|
  {
    N.ToNumber(LengthAsNat(t))
  }

  /** The separator `join` uses when none is given. */
  const DefaultSeparator: string := ", "

  function JoinWorker(items: seq<string>, separator: string, result: string): string
    decreases |items|
  {
    if items == [] then result
    else JoinWorker(items[1..], separator, result + separator + items[0])
  }

  /** The items with `separator` between each two neighbours. */
  function Join(items: seq<string>, separator: string): string
  {
    if items == [] then "" else JoinWorker(items[1..], separator, items[0])
  }

  /** Plain concatenation, the reference definition `join` is compared with. */
  function Concat(parts: seq<string>): string
    decreases |parts|
  {
    if parts == [] then "" else parts[0] + Concat(parts[1..])
  }

  /** Each item with the separator put in front of it. */
  function Prefixed(items: seq<string>, separator: string): (r: seq<string>)
    ensures |r| == |items|
    ensures forall i :: 0 <= i < |items| ==> r[i] == separator + items[i]
  {
    seq(|items|, i requires 0 <= i < |items| => separator + items[i])
  }

  lemma {:induction false} ConcatAppend(a: seq<string>, b: seq<string>)
    ensures Concat(a + b) == Concat(a) + Concat(b)
    decreases |a|
  {
    if a == [] {
      assert a + b == b;
    } else {
      assert (a + b)[0] == a[0];
      assert (a + b)[1..] == a[1..] + b;
      ConcatAppend(a[1..], b);
    }
  }

  /** Concatenating the one-character strings of `s` gives `s` back. */
  lemma {:induction false} ConcatSingletons(s: string)
    ensures Concat(seq(|s|, i requires 0 <= i < |s| => [s[i]])) == s
    decreases |s|
  {
    if s != [] {
      var parts := seq(|s|, i requires 0 <= i < |s| => [s[i]]);
      assert parts[1..] == seq(|s[1..]|, i requires 0 <= i < |s[1..]| => [s[1..][i]]);
      ConcatSingletons(s[1..]);
      assert s == [s[0]] + s[1..];
    }
  }

  lemma {:induction false} JoinWorkerConcat(items: seq<string>, separator: string, result: string)
    ensures JoinWorker(items, separator, result) == result + Concat(Prefixed(items, separator))
    decreases |items|
  {
    if items != [] {
      var p := Prefixed(items, separator);
      JoinWorkerConcat(items[1..], separator, result + separator + items[0]);
      assert Prefixed(items[1..], separator) == p[1..];
    }
  }

  /**
    `join([])` is empty, and `join(h :: t)` is `h` followed by the separator
    and the item, for each remaining item in order.
  */
  lemma {:induction false} JoinSpec(items: seq<string>, separator: string)
    ensures items == [] ==> Join(items, separator) == ""
    ensures items != [] ==> Join(items, separator) == items[0] + Concat(Prefixed(items[1..], separator))
  {
    if items != [] {
      JoinWorkerConcat(items[1..], separator, items[0]);
    }
  }

  /** Joining a single item gives the item back. */
  lemma JoinSingle(item: string, separator: string)
    ensures Join([item], separator) == item
  {
    JoinSpec([item], separator);
  }

  /** Without a separator given, two items are joined with a comma and a space. */
  lemma JoinDefaultPair(first: string, second: string)
    ensures Join([first, second], DefaultSeparator) == first + ", " + second
  {
    assert [first, second][1..] == [second];
    assert JoinWorker([second], DefaultSeparator, first) == JoinWorker([], DefaultSeparator, first + ", " + second);
  }

  /** Joining with the empty separator is plain concatenation. */
  lemma {:induction false} JoinEmptySeparator(items: seq<string>)
    ensures Join(items, "") == Concat(items)
  {
    JoinSpec(items, "");
    if items != [] {
      var p := Prefixed(items[1..], "");
      assert forall i :: 0 <= i < |p| ==> p[i] == "" + items[1..][i] == items[1..][i];
      assert p == items[1..];
    }
  }

  /** Appending an item to a join appends the separator and the item. */
  lemma {:induction false} JoinSnoc(items: seq<string>, item: string, separator: string)
    requires items != []
    ensures Join(items + [item], separator) == Join(items, separator) + separator + item
  {
    var all := items + [item];
    var p := Prefixed(items[1..], separator);
    var q := Prefixed(all[1..], separator);
    assert all[1..] == items[1..] + [item];
    assert q == p + [separator + item];
    ConcatAppend(p, [separator + item]);
    assert [separator + item][1..] == [];
    calc {
      Join(all, separator);
      { JoinSpec(all, separator); }
      items[0] + Concat(q);
      items[0] + (Concat(p) + (separator + item));
      { JoinSpec(items, separator); }
      Join(items, separator) + (separator + item);
    }
  }
}
