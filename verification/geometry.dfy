/**
 Planar points and the point-set summaries of the geometry module: vector
 primitives, the strict right-turn test, the centroid and the center of the
 axis-aligned bounding box. Coordinates are C doubles, modelled as `real`
 (rounding is not modelled).
 */
module Geometry {

  datatype Point = Point(x: real, y: real)

  /** The two coordinate axes, so that per-axis definitions are written once. */
  datatype Axis = X | Y

  function Coord(p: Point, a: Axis): real
  {
    match a
    case X => p.x
    case Y => p.y
  }

  // ---------------------------------------------------------------------
  // Vector primitives (geometry.c point_perp, point_dot, point_cross, point_sub)
  // ---------------------------------------------------------------------

  /** Componentwise difference `p - q`. */
  function Sub(p: Point, q: Point): (r: Point)
    ensures Point(r.x + q.x, r.y + q.y) == p
  {
    Point(p.x - q.x, p.y - q.y)
  }

  function Dot(p: Point, q: Point): real
  {
    p.x * q.x + p.y * q.y
  }

  /** The dot product is symmetric, and a vector dotted with itself, its squared
      length, is never negative. */
  lemma DotSelf(p: Point, q: Point)
    ensures Dot(p, p) >= 0.0
    ensures Dot(p, q) == Dot(q, p)
  {
    SquarePositive(p.x);
    SquarePositive(p.y);
  }

  lemma SquarePositive(a: real)
    ensures a * a >= 0.0
    ensures a != 0.0 ==> a * a > 0.0
  {
    if a < 0.0 {
      assert a * a == (-a) * (-a);
    }
  }

  /** The vector rotated a quarter turn: orthogonal to `p` and just as long. */
  function Perp(p: Point): (r: Point)
    ensures Dot(r, p) == 0.0
    ensures Dot(r, r) == Dot(p, p)
  {
    Point(-p.y, p.x)
  }

  /** The "signed area" of the source: the dot product of `p` with the perpendicular of `q`. */
  function Cross(p: Point, q: Point): (r: real)
    ensures r == p.y * q.x - p.x * q.y
  {
    Dot(p, Perp(q))
  }

  lemma CrossAntisymmetric(p: Point, q: Point)
    ensures Cross(p, q) == -Cross(q, p)
    ensures Cross(p, p) == 0.0
  {
  }

  /** The source's strict turn test: the summed cross products are positive. A
      triple with a repeated point never passes it. */
  function RightTurn(p: Point, q: Point, r: Point): (b: bool)
    ensures b ==> p != q && q != r && r != p
  {
    CrossAntisymmetric(p, q);
    CrossAntisymmetric(q, r);
    CrossAntisymmetric(r, p);
    Cross(p, q) + Cross(q, r) + Cross(r, p) > 0.0
  }

  /** The three-term sum equals the cross product of the two edge vectors from `p`,
      so the test only depends on the shape of the triangle, not on its position. */
  lemma RightTurnOfEdges(p: Point, q: Point, r: Point)
    ensures RightTurn(p, q, r) <==> Cross(Sub(q, p), Sub(r, p)) > 0.0
  {
    assert Cross(Sub(q, p), Sub(r, p)) == Cross(p, q) + Cross(q, r) + Cross(r, p);
  }

  /** The test in coordinates: going from `p` through `q` to `r` turns clockwise. */
  lemma RightTurnClosed(p: Point, q: Point, r: Point)
    ensures RightTurn(p, q, r) <==> (q.y - p.y) * (r.x - p.x) - (q.x - p.x) * (r.y - p.y) > 0.0
  {
    RightTurnOfEdges(p, q, r);
    var u, v := Sub(q, p), Sub(r, p);
    assert u == Point(q.x - p.x, q.y - p.y) && v == Point(r.x - p.x, r.y - p.y);
  }

  /** Collinear triples, and triples with a repeated point, are never right turns. */
  lemma RightTurnStrict(p: Point, q: Point, r: Point)
    ensures Cross(Sub(q, p), Sub(r, p)) == 0.0 ==> !RightTurn(p, q, r)
    ensures p == q || q == r || r == p ==> !RightTurn(p, q, r)
  {
    RightTurnOfEdges(p, q, r);
    CrossAntisymmetric(p, q);
    CrossAntisymmetric(q, r);
    CrossAntisymmetric(r, p);
  }

  /** Rotating the triple keeps the turn; reversing it never yields another right turn. */
  lemma RightTurnRotateReverse(p: Point, q: Point, r: Point)
    ensures RightTurn(p, q, r) <==> RightTurn(q, r, p)
    ensures RightTurn(p, q, r) ==> !RightTurn(r, q, p)
  {
    CrossAntisymmetric(p, q);
    CrossAntisymmetric(q, r);
    CrossAntisymmetric(r, p);
  }

  // ---------------------------------------------------------------------
  // Reference folds over a point sequence
  // ---------------------------------------------------------------------

  /** Sum of one coordinate, accumulated left to right as the source loop does. */
  function SumCoord(s: seq<Point>, a: Axis): real
  {
    if |s| == 0 then 0.0 else SumCoord(s[..|s| - 1], a) + Coord(s[|s| - 1], a)
  }

  /** Smallest coordinate on an axis, folded left to right with a strict `<` update. */
  function MinCoord(s: seq<Point>, a: Axis): real
    requires |s| >= 1
  {
    if |s| == 1 then Coord(s[0], a)
    else
      var m := MinCoord(s[..|s| - 1], a);
      var last := Coord(s[|s| - 1], a);
      if last < m then last else m
  }

  /** Largest coordinate on an axis, folded left to right with a strict `>` update. */
  function MaxCoord(s: seq<Point>, a: Axis): real
    requires |s| >= 1
  {
    if |s| == 1 then Coord(s[0], a)
    else
      var m := MaxCoord(s[..|s| - 1], a);
      var last := Coord(s[|s| - 1], a);
      if last > m then last else m
  }

  /** The minimum fold is a lower bound of every coordinate and is attained by some point. */
  lemma {:induction false} MinCoordIsLeast(s: seq<Point>, a: Axis)
    requires |s| >= 1
    ensures forall i :: 0 <= i < |s| ==> MinCoord(s, a) <= Coord(s[i], a)
    ensures exists i :: 0 <= i < |s| && Coord(s[i], a) == MinCoord(s, a)
  {
    if |s| > 1 {
      var init := s[..|s| - 1];
      MinCoordIsLeast(init, a);
      assert forall i :: 0 <= i < |init| ==> init[i] == s[i];
      var j :| 0 <= j < |init| && Coord(init[j], a) == MinCoord(init, a);
      if Coord(s[|s| - 1], a) >= MinCoord(init, a) {
        assert Coord(s[j], a) == MinCoord(s, a);
      } else {
        assert Coord(s[|s| - 1], a) == MinCoord(s, a);
      }
    } else {
      assert Coord(s[0], a) == MinCoord(s, a);
    }
  }

  /** The maximum fold is an upper bound of every coordinate and is attained by some point. */
  lemma {:induction false} MaxCoordIsGreatest(s: seq<Point>, a: Axis)
    requires |s| >= 1
    ensures forall i :: 0 <= i < |s| ==> Coord(s[i], a) <= MaxCoord(s, a)
    ensures exists i :: 0 <= i < |s| && Coord(s[i], a) == MaxCoord(s, a)
  {
    if |s| > 1 {
      var init := s[..|s| - 1];
      MaxCoordIsGreatest(init, a);
      assert forall i :: 0 <= i < |init| ==> init[i] == s[i];
      var j :| 0 <= j < |init| && Coord(init[j], a) == MaxCoord(init, a);
      if Coord(s[|s| - 1], a) <= MaxCoord(init, a) {
        assert Coord(s[j], a) == MaxCoord(s, a);
      } else {
        assert Coord(s[|s| - 1], a) == MaxCoord(s, a);
      }
    } else {
      assert Coord(s[0], a) == MaxCoord(s, a);
    }
  }

  /** The centroid: the coordinate-wise mean. */
  function CentroidOf(s: seq<Point>): Point
    requires |s| >= 1
  {
    Point(SumCoord(s, X) / |s| as real, SumCoord(s, Y) / |s| as real)
  }

  /** The center of the axis-aligned bounding box; the origin for no points. */
  function BboxCenterOf(s: seq<Point>): Point
  {
    if |s| == 0 then Point(0.0, 0.0)
    else Point((MinCoord(s, X) + MaxCoord(s, X)) / 2.0, (MinCoord(s, Y) + MaxCoord(s, Y)) / 2.0)
  }

  // ---------------------------------------------------------------------
  // The source routines
  // ---------------------------------------------------------------------

  /** points_centroid: there is no guard against n == 0, so callers must pass a point. */
  method Centroid(pts: seq<Point>, n: int) returns (c: Point)
    requires 1 <= n <= |pts|
    ensures c.x * n as real == SumCoord(pts[..n], X)
    ensures c.y * n as real == SumCoord(pts[..n], Y)
    ensures c == CentroidOf(pts[..n])
  {
    var tx, ty := 0.0, 0.0;
    var i := 0;
    while i < n
      invariant 0 <= i <= n
      invariant tx == SumCoord(pts[..i], X)
      invariant ty == SumCoord(pts[..i], Y)
    {
      assert pts[..i + 1][..i] == pts[..i];
      tx := tx + pts[i].x;
      ty := ty + pts[i].y;
      i := i + 1;
    }
    c := Point(tx / n as real, ty / n as real);
  }

  /** points_bbox_center: the origin when n < 1, otherwise the middle of the extremes. */
  method BboxCenter(pts: seq<Point>, n: int) returns (c: Point)
    requires n <= |pts|
    ensures n < 1 ==> c == Point(0.0, 0.0)
    ensures n >= 1 ==> c == BboxCenterOf(pts[..n])
  {
    if n < 1 {
      return Point(0.0, 0.0);
    }
    var min, max := pts[0], pts[0];
    var i := 1;
    while i < n
      invariant 1 <= i <= n
      invariant min.x == MinCoord(pts[..i], X) && min.y == MinCoord(pts[..i], Y)
      invariant max.x == MaxCoord(pts[..i], X) && max.y == MaxCoord(pts[..i], Y)
    {
      MinMaxStep(pts, i, X);
      MinMaxStep(pts, i, Y);
      assert Coord(pts[i], X) == pts[i].x && Coord(pts[i], Y) == pts[i].y;
      if pts[i].x < min.x {
        min := min.(x := pts[i].x);
      }
      if pts[i].x > max.x {
        max := max.(x := pts[i].x);
      }
      if pts[i].y < min.y {
        min := min.(y := pts[i].y);
      }
      if pts[i].y > max.y {
        max := max.(y := pts[i].y);
      }
      i := i + 1;
    }
    c := Point((min.x + max.x) / 2.0, (min.y + max.y) / 2.0);
    assert pts[..i] == pts[..n];
  }

  /** One step of the extreme folds: the prefix grows by the point at index i. */
  lemma MinMaxStep(s: seq<Point>, i: int, a: Axis)
    requires 1 <= i < |s|
    ensures MinCoord(s[..i + 1], a)
            == if Coord(s[i], a) < MinCoord(s[..i], a) then Coord(s[i], a) else MinCoord(s[..i], a)
    ensures MaxCoord(s[..i + 1], a)
            == if Coord(s[i], a) > MaxCoord(s[..i], a) then Coord(s[i], a) else MaxCoord(s[..i], a)
  {
    assert s[..i + 1] == s[..i] + [s[i]];
    FoldsAppend(s[..i], s[i], a);
  }

  /** The folds extended by one point at the end, for loops that append. */
  lemma FoldsAppend(q: seq<Point>, p: Point, a: Axis)
    ensures SumCoord(q + [p], a) == SumCoord(q, a) + Coord(p, a)
    ensures |q| >= 1 ==>
      MinCoord(q + [p], a) == if Coord(p, a) < MinCoord(q, a) then Coord(p, a) else MinCoord(q, a)
    ensures |q| >= 1 ==>
      MaxCoord(q + [p], a) == if Coord(p, a) > MaxCoord(q, a) then Coord(p, a) else MaxCoord(q, a)
  {
    assert (q + [p])[..|q|] == q;
  }

  // ---------------------------------------------------------------------
  // Properties of the summaries
  // ---------------------------------------------------------------------

  /** A sum of |s| values that are all at least `lo` (at most `hi`) is at least |s|*lo (at most |s|*hi). */
  lemma {:induction false} SumCoordBounds(s: seq<Point>, a: Axis, lo: real, hi: real)
    requires forall i :: 0 <= i < |s| ==> lo <= Coord(s[i], a) <= hi
    ensures |s| as real * lo <= SumCoord(s, a) <= |s| as real * hi
  {
    if |s| > 0 {
      var init := s[..|s| - 1];
      assert forall i :: 0 <= i < |init| ==> init[i] == s[i];
      SumCoordBounds(init, a, lo, hi);
    }
  }

  /** The centroid lies in the bounding box of its points. */
  lemma CentroidWithinBounds(s: seq<Point>, a: Axis)
    requires |s| >= 1
    ensures MinCoord(s, a) <= Coord(CentroidOf(s), a) <= MaxCoord(s, a)
  {
    MinCoordIsLeast(s, a);
    MaxCoordIsGreatest(s, a);
    MeanBounds(s, a, MinCoord(s, a), MaxCoord(s, a));
    CentroidCoord(s, a);
  }

  /** The mean of values within [lo, hi] lies within [lo, hi]. */
  lemma MeanBounds(s: seq<Point>, a: Axis, lo: real, hi: real)
    requires |s| >= 1
    requires forall i :: 0 <= i < |s| ==> lo <= Coord(s[i], a) <= hi
    ensures lo <= SumCoord(s, a) / |s| as real <= hi
  {
    SumCoordBounds(s, a, lo, hi);
    DivideBounds(SumCoord(s, a), |s| as real, lo, hi);
  }

  /** Each coordinate of the centroid is that coordinate's sum over the count. */
  lemma CentroidCoord(s: seq<Point>, a: Axis)
    requires |s| >= 1
    ensures Coord(CentroidOf(s), a) == SumCoord(s, a) / |s| as real
  {
  }

  /** Dividing by a positive count keeps the bounds that the count times lo and hi give. */
  lemma DivideBounds(sum: real, n: real, lo: real, hi: real)
    requires n > 0.0
    requires n * lo <= sum <= n * hi
    ensures lo <= sum / n <= hi
  {
  }

  /** The centroid of one point is that point. */
  lemma CentroidSingle(p: Point)
    ensures CentroidOf([p]) == p
  {
    assert [p][..0] == [];
    assert SumCoord([p], X) == p.x;
    assert SumCoord([p], Y) == p.y;
  }

  /** The bounding-box center lies between the extremes on each axis. */
  lemma BboxCenterWithinBounds(s: seq<Point>, a: Axis)
    requires |s| >= 1
    ensures MinCoord(s, a) <= Coord(BboxCenterOf(s), a) <= MaxCoord(s, a)
  {
    MinCoordIsLeast(s, a);
    MaxCoordIsGreatest(s, a);
    assert MinCoord(s, a) <= Coord(s[0], a) <= MaxCoord(s, a);
  }

  /** The bounding-box center of one point is that point. */
  lemma BboxCenterSingle(p: Point)
    ensures BboxCenterOf([p]) == p
  {
  }
}
