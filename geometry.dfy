/** Points and rectangles of point_search.h and quad_tree.h, the two overlap
    tests of quad_tree.cpp, and the equality and rank order of points.

    Coordinates are finite floats (points) and doubles (rectangles); every
    operation here only compares them, so they are modelled as reals. */
module Geometry {

  /** A signed 32-bit integer, the type of a point's rank. */
  newtype int32 = x: int | -0x8000_0000 <= x < 0x8000_0000

  /** INT32_MAX, the rank of an empty result slot. */
  const Int32Max: int32 := 0x7FFF_FFFF

  /** Point: a small identifier, a rank (lower is better) and its position. */
  datatype Point = Point(id: int, rank: int32, x: real, y: real)

  /** Rect and DoubleRect: lower-left (lx, ly) and upper-right (hx, hy). */
  datatype Rect = Rect(lx: real, ly: real, hx: real, hy: real)

  /** A rectangle whose lower-left corner is not above or right of its
      upper-right corner. */
  predicate WellFormed(r: Rect)
  {
    r.lx <= r.hx && r.ly <= r.hy
  }

  /** intersect: closed overlap of the two rectangles on both axes. */
  function Intersect(a: Rect, b: Rect): bool
  {
    var ret := true;
    var ret := ret && a.lx <= b.hx;
    var ret := ret && a.hx >= b.lx;
    var ret := ret && a.ly <= b.hy;
    ret && a.hy >= b.ly
  }

  /** intersect_point: the point lies in the closed rectangle. */
  function IntersectPoint(p: Point, b: Rect): bool
  {
    var ret := true;
    var ret := ret && p.x >= b.lx;
    var ret := ret && p.x <= b.hx;
    var ret := ret && p.y >= b.ly;
    ret && p.y <= b.hy
  }

  /** The closed containment of a position in a rectangle. */
  predicate Inside(x: real, y: real, b: Rect)
  {
    b.lx <= x <= b.hx && b.ly <= y <= b.hy
  }

  /** intersect does not depend on the order of its arguments. */
  lemma IntersectSymmetric(a: Rect, b: Rect)
    ensures Intersect(a, b) == Intersect(b, a)
  {}

  /** intersect_point is containment of the point's position. */
  lemma IntersectPointInside(p: Point, b: Rect)
    ensures IntersectPoint(p, b) <==> Inside(p.x, p.y, b)
  {}

  /** Two well-formed rectangles intersect exactly when some position lies in
      both: the lower-left corner of their overlap when they do. */
  lemma IntersectCommonPoint(a: Rect, b: Rect)
    requires WellFormed(a) && WellFormed(b)
    ensures Intersect(a, b) <==> exists x: real, y: real :: Inside(x, y, a) && Inside(x, y, b)
  {
    if Intersect(a, b) {
      var x := if a.lx <= b.lx then b.lx else a.lx;
      var y := if a.ly <= b.ly then b.ly else a.ly;
      assert Inside(x, y, a) && Inside(x, y, b);
    }
  }

  /** A rectangle holding a point that the query holds intersects the query:
      the reason pruning by node bounds never loses a match. */
  lemma SharedPointIntersects(p: Point, query: Rect, bounds: Rect)
    requires IntersectPoint(p, query) && IntersectPoint(p, bounds)
    ensures Intersect(query, bounds)
  {}

  /** operator== on points: identifier, rank and both coordinates agree. */
  function PointEq(a: Point, b: Point): (r: bool)
    ensures r <==> a == b
  {
    a.id == b.id && a.rank == b.rank && a.x == b.x && a.y == b.y
  }

  /** operator!= on points: the negation of operator==. */
  function PointNe(a: Point, b: Point): (r: bool)
    ensures r <==> a != b
  {
    !PointEq(a, b)
  }

  /** operator== on rectangles: all four corners' coordinates agree. */
  function RectEq(a: Rect, b: Rect): (r: bool)
    ensures r <==> a == b
  {
    a.lx == b.lx && a.ly == b.ly && a.hx == b.hx && a.hy == b.hy
  }

  /** operator!= on rectangles: the negation of operator==. */
  function RectNe(a: Rect, b: Rect): (r: bool)
    ensures r <==> a != b
  {
    !RectEq(a, b)
  }

  /** operator< on points: rank only. */
  predicate RankLess(a: Point, b: Point)
  {
    a.rank < b.rank
  }

  /** operator< is a strict weak order: irreflexive, transitive, and points
      of equal rank (incomparable ones) are interchangeable. */
  lemma RankLessStrictWeakOrder(a: Point, b: Point, c: Point)
    ensures !RankLess(a, a)
    ensures RankLess(a, b) && RankLess(b, c) ==> RankLess(a, c)
    ensures RankLess(a, b) ==> !RankLess(b, a)
    ensures !RankLess(a, b) && !RankLess(b, a) ==> (RankLess(a, c) <==> RankLess(b, c))
  {}

  /** operator< ignores everything but the rank: distinct points can be
      incomparable. */
  lemma RankLessIgnoresId()
    ensures var a := Point(0, 5, 0.0, 0.0);
            var b := Point(1, 5, 1.0, 1.0);
            a != b && !RankLess(a, b) && !RankLess(b, a)
  {}
}
