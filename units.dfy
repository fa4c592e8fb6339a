/**
  Unit checking of arithmetic on quantities: adding needs equal units,
  multiplying and dividing combine them. Each operation yields the units of
  its result as text, or why it is rejected.
*/
module Units {
  import opened Wrappers
  import Streams
  import P = UnitsParser
  import R = Representation
  import Printer

  /** Why an operation on two quantities is rejected. */
  datatype UnitsError =
    | NotUnits(failure: Streams.ParseFailure)
    | Mismatch(message: string, units: seq<string>, normalizedUnits: seq<string>)

  const MismatchMessage: string := "Units mismatch."

  /** The order in which the printer lists the names of each representation. */
  ghost predicate ValidOrder(order: R.Units -> seq<string>)
  {
    forall r :: Printer.KeyOrder(r, order(r))
  }

  /** The printed form of `r`, names in the order `order` gives. */
  function Show(r: R.Units, order: R.Units -> seq<string>): string
    requires ValidOrder(order)
  {
    Printer.ShowRepresentation(r, order(r))
  }

  /**
    Units for `u1 + u2` (and `u1 - u2`): `u1` when both parse to the same
    representation, "Units mismatch." with both texts and both printed forms
    when they parse to different ones; otherwise the first parse failure.
  */
  function AddOrFailure(u1: string, u2: string, order: R.Units -> seq<string>): Result<string, UnitsError>
    requires ValidOrder(order)
  {
    match P.UnitOrFailure(u1)
    case Failure(f1) => Failure(NotUnits(f1))
    case Success(r1) =>
      match P.UnitOrFailure(u2)
      case Failure(f2) => Failure(NotUnits(f2))
      case Success(r2) =>
        if r1 == r2 then Success(u1)
        else Failure(Mismatch(MismatchMessage, [u1, u2], [Show(r1, order), Show(r2, order)]))
  }

  /** Units for `u1 * u2`: the printed product of the two representations, or the first parse failure. */
  function MulOrFailure(u1: string, u2: string, order: R.Units -> seq<string>): Result<string, UnitsError>
    requires ValidOrder(order)
  {
    match P.UnitOrFailure(u1)
    case Failure(f1) => Failure(NotUnits(f1))
    case Success(r1) =>
      match P.UnitOrFailure(u2)
      case Failure(f2) => Failure(NotUnits(f2))
      case Success(r2) => Success(Show(R.Mul(r1, r2), order))
  }

  /** Units for `u1 / u2`: the printed quotient of the two representations, or the first parse failure. */
  function DivOrFailure(u1: string, u2: string, order: R.Units -> seq<string>): Result<string, UnitsError>
    requires ValidOrder(order)
  {
    match P.UnitOrFailure(u1)
    case Failure(f1) => Failure(NotUnits(f1))
    case Success(r1) =>
      match P.UnitOrFailure(u2)
      case Failure(f2) => Failure(NotUnits(f2))
      case Success(r2) => Success(Show(R.Div(r1, r2), order))
  }

  // ---------- what the checks promise ----------

  /** The text `u` denotes units. */
  predicate Parses(u: string)
  {
    P.UnitOrFailure(u).Success?
  }

  /** Two texts denote the same dimension: every name has the same exponent in both. */
  ghost predicate SameDimension(u1: string, u2: string)
    requires Parses(u1) && Parses(u2)
  {
    forall k :: R.Exponent(P.UnitOrFailure(u1).value, k) == R.Exponent(P.UnitOrFailure(u2).value, k)
  }

  /** A failure to parse `u1` wins over everything about `u2`; then a failure to parse `u2`. */
  lemma FailurePrecedence(u1: string, u2: string, order: R.Units -> seq<string>)
    requires ValidOrder(order)
    ensures !Parses(u1) ==>
      && AddOrFailure(u1, u2, order) == Failure(NotUnits(P.UnitOrFailure(u1).error))
      && MulOrFailure(u1, u2, order) == Failure(NotUnits(P.UnitOrFailure(u1).error))
      && DivOrFailure(u1, u2, order) == Failure(NotUnits(P.UnitOrFailure(u1).error))
    ensures Parses(u1) && !Parses(u2) ==>
      && AddOrFailure(u1, u2, order) == Failure(NotUnits(P.UnitOrFailure(u2).error))
      && MulOrFailure(u1, u2, order) == Failure(NotUnits(P.UnitOrFailure(u2).error))
      && DivOrFailure(u1, u2, order) == Failure(NotUnits(P.UnitOrFailure(u2).error))
  {
  }

  /**
    Adding succeeds, with the units of the first operand, exactly when both
    texts denote the same dimension; any other pair of units is a mismatch
    that carries both texts and their printed forms.
  */
  lemma AddOrFailureSpec(u1: string, u2: string, order: R.Units -> seq<string>)
    requires ValidOrder(order) && Parses(u1) && Parses(u2)
    ensures AddOrFailure(u1, u2, order).Success? <==> SameDimension(u1, u2)
    ensures AddOrFailure(u1, u2, order).Success? ==> AddOrFailure(u1, u2, order).value == u1
    ensures !SameDimension(u1, u2) ==>
      var r1 := P.UnitOrFailure(u1).value;
      var r2 := P.UnitOrFailure(u2).value;
      AddOrFailure(u1, u2, order)
        == Failure(Mismatch(MismatchMessage, [u1, u2], [Show(r1, order), Show(r2, order)]))
  {
    var r1 := P.UnitOrFailure(u1).value;
    var r2 := P.UnitOrFailure(u2).value;
    if SameDimension(u1, u2) {
      R.Extensional(r1, r2);
    }
  }

  /** Whether two units may be added does not depend on their order. */
  lemma AddOrFailureSymmetric(u1: string, u2: string, order: R.Units -> seq<string>)
    requires ValidOrder(order) && Parses(u1) && Parses(u2)
    ensures AddOrFailure(u1, u2, order).Success? <==> AddOrFailure(u2, u1, order).Success?
  {
    AddOrFailureSpec(u1, u2, order);
    AddOrFailureSpec(u2, u1, order);
  }

  /** Any units may be added to themselves. */
  lemma AddOrFailureReflexive(u: string, order: R.Units -> seq<string>)
    requires ValidOrder(order) && Parses(u)
    ensures AddOrFailure(u, u, order) == Success(u)
  {
  }

  /**
    Multiplying succeeds exactly when both texts parse, and the result is the
    printed form of a reduced representation whose exponents are the sums of
    the operands' exponents.
  */
  lemma MulOrFailureSpec(u1: string, u2: string, order: R.Units -> seq<string>)
    requires ValidOrder(order)
    ensures MulOrFailure(u1, u2, order).Success? <==> Parses(u1) && Parses(u2)
    ensures Parses(u1) && Parses(u2) ==>
      var r1 := P.UnitOrFailure(u1).value;
      var r2 := P.UnitOrFailure(u2).value;
      var product := R.Mul(r1, r2);
      && MulOrFailure(u1, u2, order) == Success(Show(product, order))
      && R.Reduced(product)
      && forall k :: R.Exponent(product, k) == R.Exponent(r1, k) + R.Exponent(r2, k)
  {
    if Parses(u1) && Parses(u2) {
      var r1 := P.UnitOrFailure(u1).value;
      var r2 := P.UnitOrFailure(u2).value;
      R.MulSpec(r1, r2);
    }
  }

  /** When both texts parse, multiplying them in either order gives the same units. */
  lemma MulOrFailureCommutes(u1: string, u2: string, order: R.Units -> seq<string>)
    requires ValidOrder(order) && Parses(u1) && Parses(u2)
    ensures MulOrFailure(u1, u2, order) == MulOrFailure(u2, u1, order)
  {
    R.MulCommutes(P.UnitOrFailure(u1).value, P.UnitOrFailure(u2).value);
  }

  /**
    Dividing succeeds exactly when both texts parse. Names of the numerator
    get the difference of the exponents; a name only the denominator has
    keeps the denominator's exponent with its sign unchanged.
  */
  lemma DivOrFailureSpec(u1: string, u2: string, order: R.Units -> seq<string>)
    requires ValidOrder(order)
    ensures DivOrFailure(u1, u2, order).Success? <==> Parses(u1) && Parses(u2)
    ensures Parses(u1) && Parses(u2) ==>
      var r1 := P.UnitOrFailure(u1).value;
      var r2 := P.UnitOrFailure(u2).value;
      var quotient := R.Div(r1, r2);
      && DivOrFailure(u1, u2, order) == Success(Show(quotient, order))
      && (forall k :: k in r1 ==> R.Exponent(quotient, k) == R.Exponent(r1, k) - R.Exponent(r2, k))
      && (forall k :: k !in r1 ==> R.Exponent(quotient, k) == R.Exponent(r2, k))
  {
    if Parses(u1) && Parses(u2) {
      R.DivSpec(P.UnitOrFailure(u1).value, P.UnitOrFailure(u2).value);
    }
  }
}
