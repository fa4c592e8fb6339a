/**
  Units shown as text: each name followed by its exponent in Unicode
  superscript digits (`m·s⁻²` is shown as `m s⁻²`), the exponent 1 left out.
*/
module Printer {
  import N = Natural
  import Z = Integers
  import R = Representation
  import Syntax
  import Strings

  /** The superscript form of a digit 0..9. */
  function ShowSuperscriptDigit(d: N.Nat): (s: string)
    requires N.ToNumber(d) <= 9
    ensures |s| == 1 && s[0] in Syntax.SuperscriptDigits
  {
    [Syntax.Superscript0To9[N.ToNumber(d)]]
  }

  /** Ten, built as five plus five. */
  function TenNat(): (n: N.Nat)
    ensures N.ToNumber(n) == 10
  {
    N.Add(N.Known(5), N.Known(5))
  }

  /** The superscript digits of `n`, most significant first; zero shows as the empty string. */
  function ShowSuperscriptDigitsNonZero(n: N.Nat): string
    decreases N.ToNumber(n)
  {
    if n == [] then ""
    else
      var (quotient, remainder) := N.DivMod(n, TenNat());
      ShowSuperscriptDigitsNonZero(quotient) + ShowSuperscriptDigit(remainder)
  }

  /** The superscript digits of `n`; zero shows as a single superscript zero. */
  function ShowSuperscriptDigits(n: N.Nat): string
  {
    if n == [] then [Syntax.Superscript0To9[0]] else ShowSuperscriptDigitsNonZero(n)
  }

  /** A superscript minus for a negative sign, then the superscript digits of the magnitude. */
  function ShowSuperscriptInteger(x: Z.Integer): string
  {
    (if x.sign == Z.Minus then [Syntax.SuperscriptMinus] else "") + ShowSuperscriptDigits(x.abs)
  }

  /** A name with its exponent; the exponent 1 is not shown. */
  function ShowTerm(name: string, dimension: Z.Integer): string
  {
    if dimension == Z.Int(1) then name else name + ShowSuperscriptInteger(dimension)
  }

  /** `keys` lists every name of `r` exactly once, in some order. */
  predicate KeyOrder(r: R.Units, keys: seq<string>)
  {
    && (forall i :: 0 <= i < |keys| ==> keys[i] in r)
    && (forall k :: k in r ==> k in keys)
    && (forall i, j :: 0 <= i < j < |keys| ==> keys[i] != keys[j])
  }

  /** The shown terms of `r`, one per name, in the order of `keys`. */
  function Terms(r: R.Units, keys: seq<string>): (terms: seq<string>)
    requires forall i :: 0 <= i < |keys| ==> keys[i] in r
    ensures |terms| == |keys|
  {
    seq(|keys|, i requires 0 <= i < |keys| && keys[i] in r => ShowTerm(keys[i], r[keys[i]]))
  }

  /** The terms of `r` separated by single spaces; the order of the names is given by `keys`. */
  function ShowRepresentation(r: R.Units, keys: seq<string>): string
    requires KeyOrder(r, keys)
  {
    Strings.Join(Terms(r, keys), " ")
  }

  // ---------- reading superscripts back ----------

  predicate AllSuperscriptDigits(s: string)
  {
    forall i :: 0 <= i < |s| ==> s[i] in Syntax.SuperscriptDigits
  }

  /** The digit a superscript digit stands for: its index in the superscript table. */
  function SuperscriptDigitValue(c: char): (d: nat)
    requires c in Syntax.SuperscriptDigits
    ensures d <= 9 && Syntax.Superscript0To9[d] == c
  {
    if c == '\U{2070}' then 0
    else if c == '\U{00B9}' then 1
    else if c == '\U{00B2}' then 2
    else if c == '\U{00B3}' then 3
    else if c == '\U{2074}' then 4
    else if c == '\U{2075}' then 5
    else if c == '\U{2076}' then 6
    else if c == '\U{2077}' then 7
    else if c == '\U{2078}' then 8
    else 9
  }

  /** The number a string of superscript digits denotes, most significant digit first. */
  function SuperscriptValue(s: string): nat
    requires AllSuperscriptDigits(s)
    decreases |s|
  {
    if s == [] then 0
    else SuperscriptValue(s[..|s| - 1]) * 10 + SuperscriptDigitValue(s[|s| - 1])
  }

  /** The value of a shown exponent: a leading superscript minus negates the digits after it. */
  function SuperscriptIntegerValue(s: string): int
    requires s != [] && (if s[0] == Syntax.SuperscriptMinus then AllSuperscriptDigits(s[1..]) else AllSuperscriptDigits(s))
  {
    if s[0] == Syntax.SuperscriptMinus then -(SuperscriptValue(s[1..]) as int) else SuperscriptValue(s)
  }

  // ---------- what the printer promises ----------

  /** Distinct digits have distinct superscripts, so reading a shown digit gives the digit back. */
  lemma SuperscriptDigitRoundTrip(d: nat)
    requires d <= 9
    ensures Syntax.Superscript0To9[d] in Syntax.SuperscriptDigits
    ensures SuperscriptDigitValue(Syntax.Superscript0To9[d]) == d
  {
  }

  /**
    The digits of a non-zero magnitude read back as the magnitude and never
    start with a superscript zero; zero shows as nothing.
  */
  lemma {:induction false} DigitsNonZeroSpec(n: N.Nat)
    ensures var s := ShowSuperscriptDigitsNonZero(n);
      && AllSuperscriptDigits(s)
      && SuperscriptValue(s) == N.ToNumber(n)
      && (s == [] <==> N.ToNumber(n) == 0)
      && (s != [] ==> s[0] != Syntax.Superscript0To9[0])
    decreases N.ToNumber(n)
  {
    if n != [] {
      var (quotient, remainder) := N.DivMod(n, TenNat());
      var init := ShowSuperscriptDigitsNonZero(quotient);
      var s := ShowSuperscriptDigitsNonZero(n);
      var r := N.ToNumber(remainder);
      DigitsNonZeroSpec(quotient);
      SuperscriptDigitRoundTrip(r);
      assert s == init + [Syntax.Superscript0To9[r]];
      assert s[..|s| - 1] == init;
      if init == [] {
        assert r == N.ToNumber(n) && r != 0;
        assert s[0] == Syntax.Superscript0To9[r];
      } else {
        assert s[0] == init[0];
      }
    }
  }

  /** The digits of any magnitude: never empty, read back as the magnitude, no leading zero unless the magnitude is zero. */
  lemma DigitsSpec(n: N.Nat)
    ensures var s := ShowSuperscriptDigits(n);
      && s != [] && AllSuperscriptDigits(s)
      && SuperscriptValue(s) == N.ToNumber(n)
      && (s[0] == Syntax.Superscript0To9[0] ==> s == [Syntax.Superscript0To9[0]] && N.ToNumber(n) == 0)
  {
    DigitsNonZeroSpec(n);
    if n == [] {
      SuperscriptDigitRoundTrip(0);
      assert [Syntax.Superscript0To9[0]][..0] == [];
    }
  }

  /**
    A shown integer starts with a superscript minus exactly when its sign is
    negative, and reads back as its value.
  */
  lemma SuperscriptIntegerSpec(x: Z.Integer)
    ensures var s := ShowSuperscriptInteger(x);
      && s != []
      && (s[0] == Syntax.SuperscriptMinus <==> x.sign == Z.Minus)
      && (if s[0] == Syntax.SuperscriptMinus then AllSuperscriptDigits(s[1..]) else AllSuperscriptDigits(s))
      && SuperscriptIntegerValue(s) == Z.Value(x)
  {
    var digits := ShowSuperscriptDigits(x.abs);
    DigitsSpec(x.abs);
    assert Syntax.SuperscriptMinus !in Syntax.SuperscriptDigits;
    if x.sign == Z.Minus {
      assert ShowSuperscriptInteger(x)[1..] == digits;
    } else {
      assert ShowSuperscriptInteger(x) == digits;
    }
  }

  /**
    A term is its bare name exactly when the exponent is 1; otherwise the
    name is followed by the shown exponent (see `SuperscriptIntegerSpec`).
  */
  lemma ShowTermSpec(name: string, dimension: Z.Integer)
    requires Z.IsNormal(dimension)
    ensures var t := ShowTerm(name, dimension);
      && (t == name <==> Z.Value(dimension) == 1)
      && |t| >= |name| && t[..|name|] == name
      && (t != name ==> t[|name|..] == ShowSuperscriptInteger(dimension))
  {
    SuperscriptIntegerSpec(dimension);
    var t := ShowTerm(name, dimension);
    if Z.Value(dimension) == 1 {
      Z.Canonical(dimension, Z.Int(1));
    } else {
      assert dimension != Z.Int(1);
      assert t[|name|..] == ShowSuperscriptInteger(dimension);
    }
  }

  /** The dimensionless units show as the empty string. */
  lemma ShowDimensionless()
    ensures ShowRepresentation(map[], []) == ""
  {
    Strings.JoinSpec([], " ");
  }

  /**
    Showing is term by term: the last name of the order adds a space and its
    term to the showing of the other names, or is shown alone.
  */
  lemma ShowRepresentationSnoc(r: R.Units, keys: seq<string>, k: string)
    requires KeyOrder(r, keys + [k])
    ensures k in r && KeyOrder(r - {k}, keys)
    ensures ShowRepresentation(r, keys + [k]) ==
      if keys == [] then ShowTerm(k, r[k])
      else ShowRepresentation(r - {k}, keys) + " " + ShowTerm(k, r[k])
  {
    var all := keys + [k];
    assert all[|keys|] == k;
    assert forall i :: 0 <= i < |keys| ==> keys[i] == all[i];
    assert Terms(r, all) == Terms(r - {k}, keys) + [ShowTerm(k, r[k])];
    if keys == [] {
      Strings.JoinSingle(ShowTerm(k, r[k]), " ");
    } else {
      Strings.JoinSnoc(Terms(r - {k}, keys), ShowTerm(k, r[k]), " ");
    }
  }
}
