/**
  Sign/magnitude integers over unary naturals. Zero has two spellings
  (`+0` and `-0`); `Normalize` picks `+0`, and every operation returns a
  normalised value, so a normalised integer has exactly one spelling.
*/
module Integers {
  import opened Wrappers
  import N = Natural

  datatype Sign = Plus | Minus

  datatype Integer = Integer(sign: Sign, abs: N.Nat)

  /** The integer a sign/magnitude pair denotes. */
  function Value(z: Integer): int
  {
    if z.sign == Plus then N.ToNumber(z.abs) else -(N.ToNumber(z.abs) as int)
  }

  /** Zero is spelled with the `+` sign. */
  predicate IsNormal(z: Integer)
  {
    z.abs == [] ==> z.sign == Plus
  }

  /** A normalised integer is determined by the number it denotes. */
  lemma {:induction false} Canonical(a: Integer, b: Integer)
    requires IsNormal(a) && IsNormal(b) && Value(a) == Value(b)
    ensures a == b
  {
    N.SameLengthSame(a.abs, b.abs);
  }

  function Normalize(z: Integer): (r: Integer)
    ensures IsNormal(r) && Value(r) == Value(z)
    ensures z.abs != [] ==> r == z
    ensures z.abs == [] ==> r == Integer(Plus, [])
  {
    if z.abs == [] then Integer(Plus, z.abs) else z
  }

  /** The source's `Integer<sign, abs>`: a pair, normalised. */
  function Make(sign: Sign, abs: N.Nat): (r: Integer)
    ensures IsNormal(r)
    ensures Value(r) == if sign == Plus then N.ToNumber(abs) else -(N.ToNumber(abs) as int)
  {
    Normalize(Integer(sign, abs))
  }

  /** The literal integers `Int<-9>` to `Int<9>`. */
  function Int(k: int): (r: Integer)
    requires -9 <= k <= 9
    ensures IsNormal(r) && Value(r) == k
  {
    if k < 0 then Make(Minus, N.Known(-k)) else Make(Plus, N.Known(k))
  }

  /** `n1 - n2` as an integer, negative when `n2` is the larger. */
  function SubNonZero(n1: N.Nat, n2: N.Nat): (r: Integer)
    ensures IsNormal(r) && Value(r) == N.ToNumber(n1) - N.ToNumber(n2)
  {
    match N.Sub(n1, n2)
    case None => Make(Minus, N.Sub(n2, n1).value)
    case Some(d) => Make(Plus, d)
  }

  function Add(z1: Integer, z2: Integer): (r: Integer)
    ensures IsNormal(r) && Value(r) == Value(z1) + Value(z2)
  {
    if z1.sign == Plus then
      if z2.sign == Plus then Make(Plus, N.Add(z1.abs, z2.abs))
      else SubNonZero(z1.abs, z2.abs)
    else
      if z2.sign == Plus then SubNonZero(z2.abs, z1.abs)
      else Make(Minus, N.Add(z1.abs, z2.abs))
  }

  function Sub(z1: Integer, z2: Integer): (r: Integer)
    ensures IsNormal(r) && Value(r) == Value(z1) - Value(z2)
  {
    if z1.sign == Plus then
      if z2.sign == Plus then SubNonZero(z1.abs, z2.abs)
      else Make(Plus, N.Add(z1.abs, z2.abs))
    else
      if z2.sign == Plus then Make(Minus, N.Add(z1.abs, z2.abs))
      else SubNonZero(z2.abs, z1.abs)
  }

  /** The sign is `+` exactly when the signs agree, unless the product is zero. */
  function Mul(z1: Integer, z2: Integer): (r: Integer)
    ensures IsNormal(r) && Value(r) == Value(z1) * Value(z2)
    ensures N.ToNumber(r.abs) == N.ToNumber(z1.abs) * N.ToNumber(z2.abs)
    ensures r.abs != [] ==> (r.sign == Plus <==> z1.sign == z2.sign)
  {
    Make(if z1.sign == z2.sign then Plus else Minus, N.Mul(z1.abs, z2.abs))
  }

  /** Addition does not depend on the order of its operands, spelling included. */
  lemma {:induction false} AddCommutes(z1: Integer, z2: Integer)
    ensures Add(z1, z2) == Add(z2, z1)
  {
    Canonical(Add(z1, z2), Add(z2, z1));
  }

  /** Adding zero to a normalised integer gives it back unchanged. */
  lemma {:induction false} AddZero(z: Integer)
    requires IsNormal(z)
    ensures Add(z, Int(0)) == z && Add(Int(0), z) == z
  {
    Canonical(Add(z, Int(0)), z);
    Canonical(Add(Int(0), z), z);
  }

  /** Subtraction is addition of the negation `0 - z2`. */
  lemma {:induction false} SubIsAddNeg(z1: Integer, z2: Integer)
    ensures Sub(z1, z2) == Add(z1, Sub(Int(0), z2))
  {
    Canonical(Sub(z1, z2), Add(z1, Sub(Int(0), z2)));
  }
}
