/**
  Axis-aligned rectangles for laying out a chart, and the four ways of
  cutting one into two. Coordinates are exact reals.
*/
module Boxes {

  datatype Box = Box(x: real, y: real, width: real, height: real)

  datatype BoxCreateOptions = BoxCreateOptions(x: real, y: real, width: real, height: real)

  /** A box with the position and size the options give. */
  function Create(options: BoxCreateOptions): (b: Box)
    ensures b.x == options.x && b.y == options.y
    ensures b.width == options.width && b.height == options.height
  {
    Box(options.x, options.y, options.width, options.height)
  }

  /** The box cut into a top part `topHeight` high and the bottom part below it. */
  function SplitTop(b: Box, topHeight: real): (parts: (Box, Box))
  {
    (Box(b.x, b.y, b.width, topHeight), Box(b.x, b.y + topHeight, b.width, b.height - topHeight))
  }

  /** The box cut into a bottom part `bottomHeight` high and the top part above it. */
  function SplitBottom(b: Box, bottomHeight: real): (parts: (Box, Box))
  {
    (Box(b.x, b.y, b.width, b.height - bottomHeight), Box(b.x, b.y + (b.height - bottomHeight), b.width, bottomHeight))
  }

  /** The box cut into a left part `leftWidth` wide and the right part beside it. */
  function SplitLeft(b: Box, leftWidth: real): (parts: (Box, Box))
  {
    (Box(b.x, b.y, leftWidth, b.height), Box(b.x + leftWidth, b.y, b.width - leftWidth, b.height))
  }

  /** The box cut into a right part `rightWidth` wide and the left part beside it. */
  function SplitRight(b: Box, rightWidth: real): (parts: (Box, Box))
  {
    (Box(b.x, b.y, b.width - rightWidth, b.height), Box(b.x + (b.width - rightWidth), b.y, rightWidth, b.height))
  }

  /**
    `top` and `bottom` stack into `b`: both span its full width, `top` starts
    at its top edge, `bottom` starts where `top` ends, and the heights add up.
  */
  predicate StacksInto(top: Box, bottom: Box, b: Box)
  {
    && top.x == b.x && bottom.x == b.x && top.width == b.width && bottom.width == b.width
    && top.y == b.y && bottom.y == top.y + top.height
    && top.height + bottom.height == b.height
  }

  /**
    `left` and `right` sit side by side in `b`: both span its full height,
    `left` starts at its left edge, `right` starts where `left` ends, and the
    widths add up.
  */
  predicate SitsBesideInto(left: Box, right: Box, b: Box)
  {
    && left.y == b.y && right.y == b.y && left.height == b.height && right.height == b.height
    && left.x == b.x && right.x == left.x + left.width
    && left.width + right.width == b.width
  }

  /** Splitting off the top gives a top part of the asked height, stacked on the rest. */
  lemma SplitTopSpec(b: Box, topHeight: real)
    ensures var (top, bottom) := SplitTop(b, topHeight);
      StacksInto(top, bottom, b) && top.height == topHeight
  {
  }

  /** Splitting off the bottom gives a bottom part of the asked height, under the rest. */
  lemma SplitBottomSpec(b: Box, bottomHeight: real)
    ensures var (top, bottom) := SplitBottom(b, bottomHeight);
      StacksInto(top, bottom, b) && bottom.height == bottomHeight
  {
  }

  /** Splitting off the left gives a left part of the asked width, beside the rest. */
  lemma SplitLeftSpec(b: Box, leftWidth: real)
    ensures var (left, right) := SplitLeft(b, leftWidth);
      SitsBesideInto(left, right, b) && left.width == leftWidth
  {
  }

  /** Splitting off the right gives a right part of the asked width, beside the rest. */
  lemma SplitRightSpec(b: Box, rightWidth: real)
    ensures var (left, right) := SplitRight(b, rightWidth);
      SitsBesideInto(left, right, b) && right.width == rightWidth
  {
  }

  /** A stacking of `b` is determined by the top part's height. */
  lemma StackUnique(top1: Box, bottom1: Box, top2: Box, bottom2: Box, b: Box)
    requires StacksInto(top1, bottom1, b) && StacksInto(top2, bottom2, b)
    requires top1.height == top2.height
    ensures top1 == top2 && bottom1 == bottom2
  {
  }

  /** A side-by-side split of `b` is determined by the left part's width. */
  lemma BesideUnique(left1: Box, right1: Box, left2: Box, right2: Box, b: Box)
    requires SitsBesideInto(left1, right1, b) && SitsBesideInto(left2, right2, b)
    requires left1.width == left2.width
    ensures left1 == left2 && right1 == right2
  {
  }

  /** Splitting off a bottom of height `h` is splitting off a top of the remaining height. */
  lemma SplitBottomIsSplitTop(b: Box, h: real)
    ensures SplitBottom(b, h) == SplitTop(b, b.height - h)
  {
    SplitBottomSpec(b, h);
    SplitTopSpec(b, b.height - h);
    var (t1, b1) := SplitBottom(b, h);
    var (t2, b2) := SplitTop(b, b.height - h);
    StackUnique(t1, b1, t2, b2, b);
  }

  /** Splitting off a right part of width `w` is splitting off a left part of the remaining width. */
  lemma SplitRightIsSplitLeft(b: Box, w: real)
    ensures SplitRight(b, w) == SplitLeft(b, b.width - w)
  {
    SplitRightSpec(b, w);
    SplitLeftSpec(b, b.width - w);
    var (l1, r1) := SplitRight(b, w);
    var (l2, r2) := SplitLeft(b, b.width - w);
    BesideUnique(l1, r1, l2, r2, b);
  }
}
