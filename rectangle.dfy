/** Rectangle (Rectangle.h): an axis-aligned box given by its corner and
    its size, with an inclusive point test. Floats are reals. */
module Rectangles {

  datatype Rectangle = Rectangle(x: real, y: real, w: real, h: real)

  /** The default constructor: everything zero. */
  const Default := Rectangle(0.0, 0.0, 0.0, 0.0)

  /** pointWithin: the closed box from (x, y) to (x + w, y + h). */
  predicate PointWithin(rect: Rectangle, px: real, py: real)
  {
    px >= rect.x && px <= rect.x + rect.w && py >= rect.y && py <= rect.y + rect.h
  }

  /** The test is inclusive: with a non-negative size all four corners
      are within. */
  lemma CornersWithin(rect: Rectangle)
    requires rect.w >= 0.0 && rect.h >= 0.0
    ensures PointWithin(rect, rect.x, rect.y)
    ensures PointWithin(rect, rect.x + rect.w, rect.y + rect.h)
    ensures PointWithin(rect, rect.x + rect.w, rect.y)
    ensures PointWithin(rect, rect.x, rect.y + rect.h)
  {
  }

  /** A point is within exactly when it is no further from the corner
      than the size, in each axis. */
  lemma WithinOffset(rect: Rectangle, px: real, py: real)
    ensures PointWithin(rect, px, py) <==>
      0.0 <= px - rect.x <= rect.w && 0.0 <= py - rect.y <= rect.h
  {
  }

  /** A negative width or height contains no point. */
  lemma NegativeEmpty(rect: Rectangle, px: real, py: real)
    requires rect.w < 0.0 || rect.h < 0.0
    ensures !PointWithin(rect, px, py)
  {
  }

  /** The default rectangle contains the origin and nothing else. */
  lemma DefaultHoldsOrigin(px: real, py: real)
    ensures PointWithin(Default, px, py) <==> px == 0.0 && py == 0.0
  {
  }
}
