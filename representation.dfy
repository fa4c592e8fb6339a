/**
  Units as a map from unit name to integer exponent (`m/s^2` is
  `{m: 1, s: -2}`), and the products and quotients of such maps.
*/
module Representation {
  import Z = Integers

  type Units = map<string, Z.Integer>

  /** The exponent of `k` in `r`; a missing name has exponent 0. */
  function Exponent(r: Units, k: string): int
  {
    if k in r then Z.Value(r[k]) else 0
  }

  /** Every exponent is in normal form (no negative zero). */
  predicate AllNormal(r: Units)
  {
    forall k :: k in r ==> Z.IsNormal(r[k])
  }

  /** Normal exponents and none of them zero: the form `normalize` produces from normal input. */
  predicate Reduced(r: Units)
  {
    forall k :: k in r ==> Z.IsNormal(r[k]) && Z.Value(r[k]) != 0
  }

  /** The exponent of `k` in a product: the sum where both sides have `k`, otherwise the side that has it. */
  function AddDimension(k: string, r1: Units, r2: Units): (d: Z.Integer)
    requires k in r1 || k in r2
    ensures Z.Value(d) == Exponent(r1, k) + Exponent(r2, k)
    ensures (k in r1 ==> Z.IsNormal(r1[k])) && (k in r2 ==> Z.IsNormal(r2[k])) ==> Z.IsNormal(d)
  {
    if k in r1 then
      if k in r2 then Z.Add(r1[k], r2[k]) else r1[k]
    else r2[k]
  }

  /**
    The exponent of `k` in a quotient as written: the difference where `r1`
    has `k`, but `r2`'s exponent unchanged (not negated) where only `r2` has it.
  */
  function SubDimension(k: string, r1: Units, r2: Units): (d: Z.Integer)
    requires k in r1 || k in r2
    ensures k in r1 ==> Z.Value(d) == Exponent(r1, k) - Exponent(r2, k)
    ensures k !in r1 ==> d == r2[k]
  {
    if k in r1 then
      if k in r2 then Z.Sub(r1[k], r2[k]) else r1[k]
    else r2[k]
  }

  /** The names whose exponent is not the integer zero. */
  function NonZeroDimensionKeys(r: Units): set<string>
  {
    set k | k in r && r[k] != Z.Int(0)
  }

  /** Drops every dimension whose exponent is zero. */
  function Normalize(r: Units): (n: Units)
    ensures forall k :: k in n <==> k in r && r[k] != Z.Int(0)
    ensures forall k :: k in n ==> n[k] == r[k]
  {
    map k | k in NonZeroDimensionKeys(r) :: r[k]
  }

  /** The product of two units: exponents add. */
  function Mul(r1: Units, r2: Units): Units
  {
    Normalize(map k | k in r1.Keys + r2.Keys :: AddDimension(k, r1, r2))
  }

  /** The quotient of two units as written (see `SubDimension`). */
  function Div(r1: Units, r2: Units): Units
  {
    Normalize(map k | k in r1.Keys + r2.Keys :: SubDimension(k, r1, r2))
  }

  /** Negates every exponent: the units of a reciprocal. */
  function Neg(r: Units): (n: Units)
    ensures n.Keys == r.Keys && AllNormal(n)
    ensures forall k :: Exponent(n, k) == -Exponent(r, k)
  {
    map k | k in r :: Z.Sub(Z.Int(0), r[k])
  }

  // ---------- what normalize, mul and neg mean ----------

  /** Normalizing keeps every exponent, and from normal input leaves no zero exponent behind. */
  lemma NormalizeSpec(r: Units)
    ensures forall k :: Exponent(Normalize(r), k) == Exponent(r, k)
    ensures AllNormal(r) ==> Reduced(Normalize(r))
  {
    forall k
      ensures Exponent(Normalize(r), k) == Exponent(r, k)
    {
      if k in r && r[k] == Z.Int(0) {
        assert Z.Value(r[k]) == 0;
      }
    }
    if AllNormal(r) {
      forall k | k in Normalize(r)
        ensures Z.Value(r[k]) != 0
      {
        if Z.Value(r[k]) == 0 {
          Z.Canonical(r[k], Z.Int(0));
        }
      }
    }
  }

  /** A reduced representation is fixed by normalize. */
  lemma NormalizeReduced(r: Units)
    requires Reduced(r)
    ensures Normalize(r) == r
  {
    forall k | k in r
      ensures r[k] != Z.Int(0)
    {
      assert Z.Value(r[k]) != 0;
    }
  }

  /** On normal input, normalize is idempotent. */
  lemma NormalizeIdempotent(r: Units)
    requires AllNormal(r)
    ensures Normalize(Normalize(r)) == Normalize(r)
  {
    NormalizeSpec(r);
    NormalizeReduced(Normalize(r));
  }

  /** Two reduced representations with the same exponents are the same map. */
  lemma {:induction false} Extensional(a: Units, b: Units)
    requires Reduced(a) && Reduced(b)
    requires forall k :: Exponent(a, k) == Exponent(b, k)
    ensures a == b
  {
    forall k | k in a
      ensures k in b && a[k] == b[k]
    {
      assert Exponent(a, k) == Exponent(b, k);
      if k in b {
        Z.Canonical(a[k], b[k]);
      }
    }
    forall k | k in b
      ensures k in a
    {
      assert Exponent(a, k) == Exponent(b, k);
    }
  }

  /** The exponents of a product are the sums of the factors' exponents, and the product is reduced. */
  lemma MulSpec(r1: Units, r2: Units)
    ensures forall k :: Exponent(Mul(r1, r2), k) == Exponent(r1, k) + Exponent(r2, k)
    ensures AllNormal(r1) && AllNormal(r2) ==> Reduced(Mul(r1, r2))
  {
    var m := map k | k in r1.Keys + r2.Keys :: AddDimension(k, r1, r2);
    NormalizeSpec(m);
    forall k
      ensures Exponent(m, k) == Exponent(r1, k) + Exponent(r2, k)
    {
    }
  }

  /** Multiplication of reduced units commutes. */
  lemma MulCommutes(r1: Units, r2: Units)
    requires AllNormal(r1) && AllNormal(r2)
    ensures Mul(r1, r2) == Mul(r2, r1)
  {
    MulSpec(r1, r2);
    MulSpec(r2, r1);
    Extensional(Mul(r1, r2), Mul(r2, r1));
  }

  /** Multiplication of normal units is associative. */
  lemma MulAssociates(r1: Units, r2: Units, r3: Units)
    requires AllNormal(r1) && AllNormal(r2) && AllNormal(r3)
    ensures Mul(Mul(r1, r2), r3) == Mul(r1, Mul(r2, r3))
  {
    MulSpec(r1, r2);
    MulSpec(r2, r3);
    MulSpec(Mul(r1, r2), r3);
    MulSpec(r1, Mul(r2, r3));
    Extensional(Mul(Mul(r1, r2), r3), Mul(r1, Mul(r2, r3)));
  }

  /** The dimensionless units `{}` are the unit of multiplication on reduced units. */
  lemma MulDimensionless(r: Units)
    requires Reduced(r)
    ensures Mul(r, map[]) == r && Mul(map[], r) == r
  {
    MulSpec(r, map[]);
    MulSpec(map[], r);
    Extensional(Mul(r, map[]), r);
    Extensional(Mul(map[], r), r);
  }

  /** A unit times its reciprocal is dimensionless. */
  lemma MulNeg(r: Units)
    requires AllNormal(r)
    ensures Mul(r, Neg(r)) == map[]
  {
    MulSpec(r, Neg(r));
    Extensional(Mul(r, Neg(r)), map[]);
  }

  // ---------- div as written, and as intended ----------

  /**
    Where `r1` has a name, `Div` subtracts exponents; where only `r2` has it,
    the quotient gets `r2`'s exponent with its sign unchanged.
  */
  lemma DivSpec(r1: Units, r2: Units)
    ensures forall k :: k in r1 ==> Exponent(Div(r1, r2), k) == Exponent(r1, k) - Exponent(r2, k)
    ensures forall k :: k !in r1 ==> Exponent(Div(r1, r2), k) == Exponent(r2, k)
  {
    var m := map k | k in r1.Keys + r2.Keys :: SubDimension(k, r1, r2);
    NormalizeSpec(m);
    forall k
      ensures Exponent(m, k) == if k in r1 then Exponent(r1, k) - Exponent(r2, k) else Exponent(r2, k)
    {
    }
  }

  /** Dividing the dimensionless units by `s` gives `s`, not `1/s`. */
  lemma DivKeepsDenominatorSign()
    ensures Div(map[], map["s" := Z.Int(1)]) == map["s" := Z.Int(1)]
    ensures Exponent(Div(map[], map["s" := Z.Int(1)]), "s") == 1
  {
    var r := Div(map[], map["s" := Z.Int(1)]);
    DivSpec(map[], map["s" := Z.Int(1)]);
    assert Z.Int(1) != Z.Int(0) by {
      assert Z.Value(Z.Int(1)) != Z.Value(Z.Int(0));
    }
    assert "s" in r;
  }

  /** The quotient as evidently intended: multiply by the reciprocal. */
  function Quotient(r1: Units, r2: Units): Units
  {
    Mul(r1, Neg(r2))
  }

  /** Quotient exponents are differences, and dividing by `r2` undoes multiplying by it. */
  lemma QuotientSpec(r1: Units, r2: Units)
    requires AllNormal(r1) && AllNormal(r2)
    ensures forall k :: Exponent(Quotient(r1, r2), k) == Exponent(r1, k) - Exponent(r2, k)
    ensures Reduced(Quotient(r1, r2))
    ensures Reduced(r1) ==> Quotient(Mul(r1, r2), r2) == r1
  {
    MulSpec(r1, Neg(r2));
    if Reduced(r1) {
      MulSpec(r1, r2);
      MulSpec(Mul(r1, r2), Neg(r2));
      Extensional(Quotient(Mul(r1, r2), r2), r1);
    }
  }

  /** On names the numerator has, the quotient as written agrees with the intended one. */
  lemma DivAgreesOnNumeratorKeys(r1: Units, r2: Units)
    requires AllNormal(r1) && AllNormal(r2)
    ensures forall k :: k in r1 ==> Exponent(Div(r1, r2), k) == Exponent(Quotient(r1, r2), k)
  {
    DivSpec(r1, r2);
    QuotientSpec(r1, r2);
  }
}
