/** Scatter points as the canvas hands them to the fitting code: an ordered
    sequence of (x, y) pairs, with coordinates read as exact reals. */
module Geometry {

  datatype Point = Point(x: real, y: real)

  /** The y-coordinates of `pts`, in order: the right-hand side `b` of every fit. */
  function Ordinates(pts: seq<Point>): (ys: seq<real>)
    ensures |ys| == |pts|
    ensures forall i :: 0 <= i < |pts| ==> ys[i] == pts[i].y
  {
    seq(|pts|, i requires 0 <= i < |pts| => pts[i].y)
  }

  /** No two points share an x-coordinate. */
  ghost predicate DistinctAbscissae(pts: seq<Point>) {
    forall i, j :: 0 <= i < |pts| && 0 <= j < |pts| && i != j ==> pts[i].x != pts[j].x
  }

  /** Every point moved horizontally by `dx`. */
  function Shift(pts: seq<Point>, dx: real): (moved: seq<Point>)
    ensures |moved| == |pts|
    ensures forall i :: 0 <= i < |pts| ==> moved[i] == Point(pts[i].x + dx, pts[i].y)
  {
    seq(|pts|, i requires 0 <= i < |pts| => Point(pts[i].x + dx, pts[i].y))
  }
}
