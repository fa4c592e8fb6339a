/**
  Unary natural numbers, as the type-level code builds them: a natural is a
  list of identical marks and its value is the list's length.
*/
module Natural {
  import opened Wrappers

  /** The one mark a unary natural is made of (the source's `never` element). */
  datatype Mark = Mark

  type Nat = seq<Mark>

  /** The number a unary natural denotes. */
  function ToNumber(n: Nat): nat
  {
    |n|
  }

  /** Two unary naturals of the same length are the same list. */
  lemma {:induction false} SameLengthSame(a: Nat, b: Nat)
    requires ToNumber(a) == ToNumber(b)
    ensures a == b
  {
    forall i | 0 <= i < |a|
      ensures a[i] == b[i]
    {
      assert a[i] == Mark && b[i] == Mark;
    }
  }

  /** A natural is a prefix of another exactly when it is not longer. */
  lemma PrefixByLength(n1: Nat, n2: Nat)
    ensures n2 <= n1 <==> ToNumber(n2) <= ToNumber(n1)
  {
    if |n2| <= |n1| {
      SameLengthSame(n2, n1[..|n2|]);
    }
  }

  /** The literal naturals `Nat<0>` to `Nat<9>`. */
  function Known(k: nat): (n: Nat)
    requires k <= 9
    ensures ToNumber(n) == k
  {
    seq(k, _ => Mark)
  }

  /** Ten, built as the source builds it: `Nat<9>` plus `Nat<1>`. */
  function Ten(): (n: Nat)
    ensures ToNumber(n) == 10
  {
    Add(Known(9), Known(1))
  }

  function Add(n1: Nat, n2: Nat): (r: Nat)
    ensures ToNumber(r) == ToNumber(n1) + ToNumber(n2)
  {
    n1 + n2
  }

  /** `n1 - n2`, or `None` (the source's `never`) when `n2` is the larger. */
  function Sub(n1: Nat, n2: Nat): (r: Option<Nat>)
    ensures r.Some? <==> ToNumber(n1) >= ToNumber(n2)
    ensures r.Some? ==> ToNumber(r.value) == ToNumber(n1) - ToNumber(n2)
  {
    PrefixByLength(n1, n2);
    if n2 <= n1 then Some(n1[|n2|..]) else None
  }

  /** Multiplication by recursion on the second factor. */
  function Mul(n1: Nat, n2: Nat): (r: Nat)
    ensures ToNumber(r) == ToNumber(n1) * ToNumber(n2)
    decreases |n2|
  {
    if |n2| == 0 then []
    else
      var r := Add(Mul(n1, n2[1..]), n1);
      assert |n2| == |n2[1..]| + 1;
      r
  }

  /** Quotient and remainder, by repeatedly stripping the divisor off the front. */
  function DivMod(n1: Nat, n2: Nat): (qr: (Nat, Nat))
    requires ToNumber(n2) > 0
    ensures ToNumber(qr.0) * ToNumber(n2) + ToNumber(qr.1) == ToNumber(n1)
    ensures ToNumber(qr.1) < ToNumber(n2)
    decreases |n1|
  {
    PrefixByLength(n1, n2);
    if n2 <= n1 then
      var qr := DivMod(n1[|n2|..], n2);
      (Add(qr.0, Known(1)), qr.1)
    else
      ([], n1)
  }

  /** Quotient and remainder are unique, so they agree with `/` and `%`. */
  lemma DivModUnique(n: nat, d: nat, q: nat, r: nat)
    requires d > 0 && q * d + r == n && r < d
    ensures q == n / d && r == n % d
  {
    var q', r' := n / d, n % d;
    assert q' * d + r' == n;
    if q < q' {
      MulAtLeast(q' - q, d);
      MulDistributes(q', q, d);
    } else if q' < q {
      MulAtLeast(q - q', d);
      MulDistributes(q, q', d);
    }
  }

  lemma MulAtLeast(k: nat, d: nat)
    requires k >= 1
    ensures k * d >= d
  {
  }

  lemma MulDistributes(a: int, b: int, d: int)
    ensures (a - b) * d == a * d - b * d
  {
  }

  function Div(n1: Nat, n2: Nat): (q: Nat)
    requires ToNumber(n2) > 0
    ensures ToNumber(q) == ToNumber(n1) / ToNumber(n2)
  {
    var qr := DivMod(n1, n2);
    DivModUnique(|n1|, |n2|, |qr.0|, |qr.1|);
    qr.0
  }

  function Mod(n1: Nat, n2: Nat): (r: Nat)
    requires ToNumber(n2) > 0
    ensures ToNumber(r) == ToNumber(n1) % ToNumber(n2)
  {
    var qr := DivMod(n1, n2);
    DivModUnique(|n1|, |n2|, |qr.0|, |qr.1|);
    qr.1
  }
}
