/** Lists whose length is checked against a fixed size. */
module FixedSizeArrays {
  import opened Wrappers

  /** The error thrown for a list of the wrong length: the expected and the actual length. */
  datatype LengthError = LengthError(length: nat, arrayLength: nat)

  /**
    The tuple type of `length` copies of `t`, built by putting `t` in front of
    `tuple` until it is long enough.
  */
  function MakeFixedSizeArray<T>(length: nat, t: T, tuple: seq<T>): seq<T>
    requires |tuple| <= length
    decreases length - |tuple|
  {
    if length == |tuple| then tuple else MakeFixedSizeArray(length, t, [t] + tuple)
  }

  /** The list itself when it has `length` items; the length error otherwise. */
  function FromArrayOrError<T>(length: nat, items: seq<T>): (r: Result<seq<T>, LengthError>)
    ensures r.Success? <==> |items| == length
    ensures r.Success? ==> r.value == items
    ensures r.Failure? ==> r.error == LengthError(length, |items|)
  {
    if |items| == length then Success(items) else Failure(LengthError(length, |items|))
  }

  /** The last item of a non-empty tuple. */
  function Last<T>(tuple: seq<T>): T
    requires tuple != []
  {
    tuple[|tuple| - 1]
  }

  /** The last item of a tuple is the one appended last, whatever comes before it. */
  lemma LastAppended<T>(init: seq<T>, x: T)
    ensures Last(init + [x]) == x
  {
  }

  /** Starting from `tuple`, the result is `length` items: copies of `t`, then `tuple`. */
  lemma {:induction false} MakeFixedSizeArraySpec<T>(length: nat, t: T, tuple: seq<T>)
    requires |tuple| <= length
    ensures var r := MakeFixedSizeArray(length, t, tuple);
      && |r| == length
      && r[length - |tuple|..] == tuple
      && forall i :: 0 <= i < length - |tuple| ==> r[i] == t
    decreases length - |tuple|
  {
    if length != |tuple| {
      MakeFixedSizeArraySpec(length, t, [t] + tuple);
      var r := MakeFixedSizeArray(length, t, tuple);
      assert r[length - |tuple| - 1..] == [t] + tuple;
      assert r[length - |tuple|..] == ([t] + tuple)[1..];
    }
  }

  /** The fixed-size array type of `length` items of `t`: exactly `length` copies of `t`. */
  lemma FixedSizeArraySpec<T>(length: nat, t: T)
    ensures MakeFixedSizeArray(length, t, []) == seq(length, _ => t)
  {
    MakeFixedSizeArraySpec(length, t, []);
  }
}
