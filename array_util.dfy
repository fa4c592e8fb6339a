/** The largest value a mapping takes over a list, starting from a floor. */
module ArrayEx {

  /**
    Folds the items from the first to the last, replacing the running maximum
    with an item's value only when that value is strictly larger.
  */
  function MaxValue<Item>(initialValue: real, items: seq<Item>, mapping: Item -> real): real
    decreases |items|
  {
    if items == [] then initialValue
    else
      var currentMax := MaxValue(initialValue, items[..|items| - 1], mapping);
      var n := mapping(items[|items| - 1]);
      if currentMax < n then n else currentMax
  }

  /**
    The maximum is an upper bound of the floor and of every item's value, and
    it is the floor or one of those values.
  */
  lemma {:induction false} MaxValueSpec<Item>(initialValue: real, items: seq<Item>, mapping: Item -> real)
    ensures var m := MaxValue(initialValue, items, mapping);
      && m >= initialValue
      && (forall i :: 0 <= i < |items| ==> m >= mapping(items[i]))
      && (m == initialValue || exists i :: 0 <= i < |items| && m == mapping(items[i]))
    decreases |items|
  {
    if items != [] {
      var init := items[..|items| - 1];
      MaxValueSpec(initialValue, init, mapping);
      var m := MaxValue(initialValue, init, mapping);
      assert forall i :: 0 <= i < |init| ==> items[i] == init[i];
      if m != initialValue {
        var i :| 0 <= i < |init| && m == mapping(init[i]);
        assert m == mapping(items[i]);
      }
    }
  }

  /** The maximum over no items is the floor. */
  lemma MaxValueEmpty<Item>(initialValue: real, mapping: Item -> real)
    ensures MaxValue(initialValue, [], mapping) == initialValue
  {
  }

  /** Any upper bound of the floor and the items' values bounds the maximum: it is the least such bound. */
  lemma {:induction false} MaxValueLeast<Item>(initialValue: real, items: seq<Item>, mapping: Item -> real, bound: real)
    requires initialValue <= bound
    requires forall i :: 0 <= i < |items| ==> mapping(items[i]) <= bound
    ensures MaxValue(initialValue, items, mapping) <= bound
  {
    MaxValueSpec(initialValue, items, mapping);
  }
}
