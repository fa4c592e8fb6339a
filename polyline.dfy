/**
  A growable path: a flat list of numbers holding, for each segment, its
  kind (move or line) and its end point, three numbers per segment.
*/
module Polyline {
  import opened Wrappers

  datatype SegmentKind = Move | Line

  /** How a segment kind is stored among the numbers: a move is 0, a line is 1. */
  function KindCode(kind: SegmentKind): real
  {
    match kind
    case Move => 0.0
    case Line => 1.0
  }

  /** The three numbers one segment takes: its kind, then its end point. */
  function Segment(kind: SegmentKind, x: real, y: real): (s: seq<real>)
    ensures |s| == 3
  {
    [KindCode(kind), x, y]
  }

  /** Reading a list at an index: the number there, or nothing (JavaScript's `undefined`) outside the list. */
  function At(numbers: seq<real>, i: int): (r: Option<real>)
    ensures r.Some? <==> 0 <= i < |numbers|
    ensures r.Some? ==> r.value == numbers[i]
  {
    if 0 <= i < |numbers| then Some(numbers[i]) else None
  }

  /** The number of segments in a flat list: its length divided by three. */
  function SegmentCount(numbers: seq<real>): real
  {
    (|numbers| as real) / 3.0
  }

  /** The kind code, x and y of segment `index`, each read separately from the flat list. */
  function ItemAt(numbers: seq<real>, index: int): (Option<real>, Option<real>, Option<real>)
  {
    (At(numbers, index * 3), At(numbers, index * 3 + 1), At(numbers, index * 3 + 2))
  }

  class PathBuffer {
    var segments: seq<real>

    /** Whole segments only: the list's length is a multiple of three. */
    ghost predicate Valid()
      reads this
    {
      |segments| % 3 == 0
    }

    /** An empty path. */
    constructor()
      ensures segments == [] && Valid()
    {
      segments := [];
    }

    /** Appends a move to `(x, y)`. */
    method MoveTo(x: real, y: real)
      modifies this
      ensures segments == old(segments) + Segment(Move, x, y)
      ensures old(Valid()) ==> Valid() && Count() == old(Count()) + 1.0
    {
      segments := segments + [KindCode(Move), x, y];
    }

    /** Appends a line to `(x, y)`. */
    method LineTo(x: real, y: real)
      modifies this
      ensures segments == old(segments) + Segment(Line, x, y)
      ensures old(Valid()) ==> Valid() && Count() == old(Count()) + 1.0
    {
      segments := segments + [KindCode(Line), x, y];
    }

    function ItemKind(index: int): Option<real>
      reads this
    {
      At(segments, index * 3)
    }

    function ItemX(index: int): Option<real>
      reads this
    {
      At(segments, index * 3 + 1)
    }

    function ItemY(index: int): Option<real>
      reads this
    {
      At(segments, index * 3 + 2)
    }

    function Count(): real
      reads this
    {
      SegmentCount(segments)
    }

    /** A fresh copy of all the numbers, segment after segment in the order they were added. */
    method Serialize() returns (numbers: array<real>)
      ensures fresh(numbers) && numbers[..] == segments
    {
      numbers := new real[|segments|](i requires 0 <= i < |segments| reads this => segments[i]);
    }
  }

  // ---------- what the buffer promises ----------

  /** The new buffer holds no segments. */
  lemma EmptyCount()
    ensures SegmentCount([]) == 0.0
  {
  }

  /** For whole segments, the count is a whole number: a third of the length. */
  lemma CountIsWhole(numbers: seq<real>)
    requires |numbers| % 3 == 0
    ensures SegmentCount(numbers) == (|numbers| / 3) as real
  {
    var n := |numbers| / 3;
    assert |numbers| == 3 * n;
  }

  /**
    Appending a segment to whole segments keeps them whole, adds one to the
    count, makes the new segment readable at the old count, and leaves every
    earlier segment as it was.
  */
  lemma AppendSegmentSpec(numbers: seq<real>, kind: SegmentKind, x: real, y: real)
    requires |numbers| % 3 == 0
    ensures var longer := numbers + Segment(kind, x, y);
      && |longer| % 3 == 0
      && SegmentCount(longer) == SegmentCount(numbers) + 1.0
      && ItemAt(longer, |numbers| / 3) == (Some(KindCode(kind)), Some(x), Some(y))
      && (forall i :: 0 <= i < |numbers| / 3 ==> ItemAt(longer, i) == ItemAt(numbers, i))
  {
    var longer := numbers + Segment(kind, x, y);
    var n := |numbers| / 3;
    assert |numbers| == 3 * n;
    forall i | 0 <= i < n
      ensures ItemAt(longer, i) == ItemAt(numbers, i)
    {
      assert i * 3 + 2 < |numbers|;
    }
  }

  /** Segment `i` of whole segments is readable exactly when `0 <= i < count`. */
  lemma ItemInRange(numbers: seq<real>, i: int)
    requires |numbers| % 3 == 0
    ensures ItemAt(numbers, i).0.Some? <==> 0 <= i && (i as real) < SegmentCount(numbers)
    ensures ItemAt(numbers, i).0.Some? ==> ItemAt(numbers, i).1.Some? && ItemAt(numbers, i).2.Some?
  {
    var n := |numbers| / 3;
    assert |numbers| == 3 * n;
    CountIsWhole(numbers);
    if 0 <= i < n {
      assert i * 3 + 2 < |numbers|;
    } else if i >= n {
      assert i * 3 >= |numbers|;
    }
  }

  /** A move and a line appended to an empty buffer are read back in order. */
  method MoveThenLine(x1: real, y1: real, x2: real, y2: real) returns (path: PathBuffer)
    ensures fresh(path) && path.Valid() && path.Count() == 2.0
    ensures path.ItemKind(0) == Some(0.0) && path.ItemX(0) == Some(x1) && path.ItemY(0) == Some(y1)
    ensures path.ItemKind(1) == Some(1.0) && path.ItemX(1) == Some(x2) && path.ItemY(1) == Some(y2)
  {
    path := new PathBuffer();
    path.MoveTo(x1, y1);
    path.LineTo(x2, y2);
    assert path.segments == [0.0, x1, y1, 1.0, x2, y2];
  }
}
