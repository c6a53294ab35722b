/**
 * Geometry primitives of lib/utils.js: cross product, vector difference, the
 * parametric segment test, edge-against-edge search, ray casting and the
 * coordinate-to-tile projection. Coordinates are exact reals.
 */
module Utils {

  /** A point or a vector `[x, y]`. */
  datatype Point = Point(x: real, y: real)

  /** z-component of the cross product of two plane vectors. */
  function Cross(a: Point, b: Point): real {
    a.x * b.y - a.y * b.x
  }

  /** Component-wise difference `a - b`. */
  function Diff(a: Point, b: Point): Point {
    Point(a.x - b.x, a.y - b.y)
  }

  lemma CrossAntisymmetric(a: Point, b: Point)
    ensures Cross(a, b) == -Cross(b, a)
  {
  }

  /** Parallel vectors (one a multiple of the other) have cross product 0. */
  lemma CrossOfParallel(a: Point, k: real)
    ensures Cross(a, Point(k * a.x, k * a.y)) == 0.0
  {
  }

  /** The difference is undone by adding the subtrahend back; a point minus itself is the origin. */
  lemma DiffInverse(a: Point, b: Point)
    ensures Point(Diff(a, b).x + b.x, Diff(a, b).y + b.y) == a
    ensures Diff(a, a) == Point(0.0, 0.0)
  {
  }

  // ---------------------------------------------------------------------------
  // Segment intersection

  /**
   * The parametric test: with r = p2 - p1, s = q2 - q1, parallel segments meet
   * iff they are collinear (the coarse rule: collinear counts as intersecting
   * even when the segments are disjoint); otherwise they meet iff both
   * parameters t and u lie in [0, 1].
   */
  predicate SegmentsIntersect(p1: Point, p2: Point, q1: Point, q2: Point) {
    var r := Diff(p2, p1);
    var s := Diff(q2, q1);
    var rCrossS := Cross(r, s);
    var qMinusP := Diff(q1, p1);
    if rCrossS == 0.0 then
      Cross(qMinusP, r) == 0.0
    else
      var t := Cross(qMinusP, s) / rCrossS;
      var u := Cross(qMinusP, r) / rCrossS;
      0.0 <= t <= 1.0 && 0.0 <= u <= 1.0
  }

  /** The point at parameter t on the segment from a to b. */
  function Lerp(a: Point, b: Point, t: real): Point {
    Point(a.x + t * (b.x - a.x), a.y + t * (b.y - a.y))
  }

  /** The two closed segments share a point: the geometric meaning of "intersect". */
  ghost predicate SegmentsMeet(p1: Point, p2: Point, q1: Point, q2: Point) {
    exists t: real, u: real :: 0.0 <= t <= 1.0 && 0.0 <= u <= 1.0 && Lerp(p1, p2, t) == Lerp(q1, q2, u)
  }

  /** Where the lines meet, the parameters are the cross-product ratios of the parametric test. */
  lemma ParametersAtMeeting(p1: Point, p2: Point, q1: Point, q2: Point, t: real, u: real)
    requires Lerp(p1, p2, t) == Lerp(q1, q2, u)
    ensures Cross(Diff(q1, p1), Diff(q2, q1)) == t * Cross(Diff(p2, p1), Diff(q2, q1))
    ensures Cross(Diff(q1, p1), Diff(p2, p1)) == u * Cross(Diff(p2, p1), Diff(q2, q1))
  {
    var r, s, qp := Diff(p2, p1), Diff(q2, q1), Diff(q1, p1);
    assert qp.x == t * r.x - u * s.x;
    assert qp.y == t * r.y - u * s.y;
    calc {
      Cross(qp, s);
      (t * r.x - u * s.x) * s.y - (t * r.y - u * s.y) * s.x;
      t * (r.x * s.y - r.y * s.x);
    }
    calc {
      Cross(qp, r);
      (t * r.x - u * s.x) * r.y - (t * r.y - u * s.y) * r.x;
      u * (r.x * s.y - r.y * s.x);
    }
  }

  /** For non-parallel segments the meeting parameters are unique. */
  lemma ParametersUnique(p1: Point, p2: Point, q1: Point, q2: Point, t: real, u: real)
    requires Cross(Diff(p2, p1), Diff(q2, q1)) != 0.0
    requires Lerp(p1, p2, t) == Lerp(q1, q2, u)
    ensures t == Cross(Diff(q1, p1), Diff(q2, q1)) / Cross(Diff(p2, p1), Diff(q2, q1))
    ensures u == Cross(Diff(q1, p1), Diff(p2, p1)) / Cross(Diff(p2, p1), Diff(q2, q1))
  {
    ParametersAtMeeting(p1, p2, q1, q2, t, u);
  }

  lemma CancelNonZero(a: real, b: real, d: real)
    requires d != 0.0 && a * d == b * d
    ensures a == b
  {
    assert (a - b) * d == 0.0;
  }

  /**
   * For non-parallel segments the parametric test is exact: it answers true
   * exactly when the two closed segments share a point.
   */
  lemma {:induction false} SegmentsIntersectExact(p1: Point, p2: Point, q1: Point, q2: Point)
    requires Cross(Diff(p2, p1), Diff(q2, q1)) != 0.0
    ensures SegmentsIntersect(p1, p2, q1, q2) <==> SegmentsMeet(p1, p2, q1, q2)
  {
    var r, s, qp := Diff(p2, p1), Diff(q2, q1), Diff(q1, p1);
    var d := Cross(r, s);
    var t := Cross(qp, s) / d;
    var u := Cross(qp, r) / d;
    if SegmentsIntersect(p1, p2, q1, q2) {
      assert t * d == Cross(qp, s);
      assert u * d == Cross(qp, r);
      assert (t * r.x - u * s.x) * d == qp.x * d by {
        calc {
          (t * r.x - u * s.x) * d;
          (t * d) * r.x - (u * d) * s.x;
          (qp.x * s.y - qp.y * s.x) * r.x - (qp.x * r.y - qp.y * r.x) * s.x;
          qp.x * (r.x * s.y - r.y * s.x);
          qp.x * d;
        }
      }
      assert (t * r.y - u * s.y) * d == qp.y * d by {
        calc {
          (t * r.y - u * s.y) * d;
          (t * d) * r.y - (u * d) * s.y;
          (qp.x * s.y - qp.y * s.x) * r.y - (qp.x * r.y - qp.y * r.x) * s.y;
          qp.y * (r.x * s.y - r.y * s.x);
          qp.y * d;
        }
      }
      CancelNonZero(t * r.x - u * s.x, qp.x, d);
      CancelNonZero(t * r.y - u * s.y, qp.y, d);
      assert Lerp(p1, p2, t) == Lerp(q1, q2, u);
    }
    if SegmentsMeet(p1, p2, q1, q2) {
      var t', u' :| 0.0 <= t' <= 1.0 && 0.0 <= u' <= 1.0 && Lerp(p1, p2, t') == Lerp(q1, q2, u');
      ParametersUnique(p1, p2, q1, q2, t', u');
    }
  }

  /**
   * The test never misses a real intersection: segments that share a point are
   * always reported. (The converse fails only for collinear segments.)
   */
  lemma {:induction false} SegmentsIntersectComplete(p1: Point, p2: Point, q1: Point, q2: Point)
    requires SegmentsMeet(p1, p2, q1, q2)
    ensures SegmentsIntersect(p1, p2, q1, q2)
  {
    var r, s, qp := Diff(p2, p1), Diff(q2, q1), Diff(q1, p1);
    if Cross(r, s) != 0.0 {
      SegmentsIntersectExact(p1, p2, q1, q2);
    } else {
      var t, u :| 0.0 <= t <= 1.0 && 0.0 <= u <= 1.0 && Lerp(p1, p2, t) == Lerp(q1, q2, u);
      ParametersAtMeeting(p1, p2, q1, q2, t, u);
    }
  }

  /** Parallel segments that are not collinear are reported disjoint, and are disjoint. */
  lemma {:induction false} ParallelSegmentsDisjoint(p1: Point, p2: Point, q1: Point, q2: Point)
    requires Cross(Diff(p2, p1), Diff(q2, q1)) == 0.0
    requires Cross(Diff(q1, p1), Diff(p2, p1)) != 0.0
    ensures !SegmentsIntersect(p1, p2, q1, q2)
    ensures !SegmentsMeet(p1, p2, q1, q2)
  {
    if SegmentsMeet(p1, p2, q1, q2) {
      var t, u :| 0.0 <= t <= 1.0 && 0.0 <= u <= 1.0 && Lerp(p1, p2, t) == Lerp(q1, q2, u);
      ParametersAtMeeting(p1, p2, q1, q2, t, u);
    }
  }

  /** The two segments are not on one common line (the only case the test gets wrong). */
  predicate NotCollinear(p1: Point, p2: Point, q1: Point, q2: Point) {
    Cross(Diff(p2, p1), Diff(q2, q1)) != 0.0 || Cross(Diff(q1, p1), Diff(p2, p1)) != 0.0
  }

  /** `NotCollinear` in coordinates, for evaluating it at given points. */
  lemma NotCollinearInCoordinates(p1: Point, p2: Point, q1: Point, q2: Point)
    ensures NotCollinear(p1, p2, q1, q2) <==>
              (p2.x - p1.x) * (q2.y - q1.y) - (p2.y - p1.y) * (q2.x - q1.x) != 0.0
              || (q1.x - p1.x) * (p2.y - p1.y) - (q1.y - p1.y) * (p2.x - p1.x) != 0.0
  {}

  /** Signed side of q relative to the line through o with direction d: positive on the left. */
  function Side(o: Point, d: Point, q: Point): real {
    Cross(d, Diff(q, o))
  }

  /** `Side` in coordinates, for evaluating it at given points. */
  lemma SideInCoordinates(o: Point, d: Point, q: Point)
    ensures Side(o, d, q) == d.x * (q.y - o.y) - d.y * (q.x - o.x)
  {}

  /** The side changes linearly along a segment. */
  lemma SideOfLerp(o: Point, d: Point, a: Point, b: Point, t: real)
    ensures Side(o, d, Lerp(a, b, t)) == (1.0 - t) * Side(o, d, a) + t * Side(o, d, b)
  {
    calc {
      Side(o, d, Lerp(a, b, t));
      d.x * (a.y + t * (b.y - a.y) - o.y) - d.y * (a.x + t * (b.x - a.x) - o.x);
      (1.0 - t) * (d.x * (a.y - o.y) - d.y * (a.x - o.x)) + t * (d.x * (b.y - o.y) - d.y * (b.x - o.x));
    }
  }

  lemma ConvexCombinationBounds(a: real, b: real, t: real)
    requires 0.0 <= t <= 1.0
    ensures a < 0.0 && b < 0.0 ==> (1.0 - t) * a + t * b < 0.0
    ensures a >= 0.0 && b >= 0.0 ==> (1.0 - t) * a + t * b >= 0.0
  {
    var m := if a >= b then a else b;
    MulNonNegative(1.0 - t, m - a);
    MulNonNegative(t, m - b);
    if a >= 0.0 && b >= 0.0 {
      MulNonNegative(1.0 - t, a);
      MulNonNegative(t, b);
    }
  }

  /**
   * Segments on opposite sides of a line (the first strictly right of it, the
   * second on or left of it) share no point, and the test reports them
   * disjoint unless they are collinear.
   */
  lemma {:induction false} SeparatedSegmentsDisjoint(p1: Point, p2: Point, q1: Point, q2: Point, o: Point, d: Point)
    requires Side(o, d, p1) < 0.0 && Side(o, d, p2) < 0.0
    requires Side(o, d, q1) >= 0.0 && Side(o, d, q2) >= 0.0
    requires NotCollinear(p1, p2, q1, q2)
    ensures !SegmentsMeet(p1, p2, q1, q2)
    ensures !SegmentsIntersect(p1, p2, q1, q2)
  {
    forall t: real, u: real | 0.0 <= t <= 1.0 && 0.0 <= u <= 1.0
      ensures Lerp(p1, p2, t) != Lerp(q1, q2, u)
    {
      SideOfLerp(o, d, p1, p2, t);
      SideOfLerp(o, d, q1, q2, u);
      ConvexCombinationBounds(Side(o, d, p1), Side(o, d, p2), t);
      ConvexCombinationBounds(Side(o, d, q1), Side(o, d, q2), u);
    }
    if Cross(Diff(p2, p1), Diff(q2, q1)) != 0.0 {
      SegmentsIntersectExact(p1, p2, q1, q2);
    }
  }

  /** Segments on one horizontal line are always reported, whatever their extent. */
  lemma SameLineReported(p1: Point, p2: Point, q1: Point, q2: Point)
    requires p1.y == p2.y == q1.y == q2.y
    ensures SegmentsIntersect(p1, p2, q1, q2)
  {
  }

  /** Segments on one vertical line are always reported, whatever their extent. */
  lemma SameVerticalLineReported(p1: Point, p2: Point, q1: Point, q2: Point)
    requires p1.x == p2.x == q1.x == q2.x
    ensures SegmentsIntersect(p1, p2, q1, q2)
  {
  }

  /**
   * The coarse collinear rule: two disjoint pieces of the x-axis, [0, 1] and
   * [k, k + 1] for k > 1, are reported as intersecting although they share no point.
   */
  lemma {:induction false} CollinearDisjointReported(k: real)
    requires k > 1.0
    ensures SegmentsIntersect(Point(0.0, 0.0), Point(1.0, 0.0), Point(k, 0.0), Point(k + 1.0, 0.0))
    ensures !SegmentsMeet(Point(0.0, 0.0), Point(1.0, 0.0), Point(k, 0.0), Point(k + 1.0, 0.0))
  {
    SameLineReported(Point(0.0, 0.0), Point(1.0, 0.0), Point(k, 0.0), Point(k + 1.0, 0.0));
    DisjointOnAxis(k);
  }

  lemma DisjointOnAxis(k: real)
    requires k > 1.0
    ensures !SegmentsMeet(Point(0.0, 0.0), Point(1.0, 0.0), Point(k, 0.0), Point(k + 1.0, 0.0))
  {
    var a, b, c, d := Point(0.0, 0.0), Point(1.0, 0.0), Point(k, 0.0), Point(k + 1.0, 0.0);
    forall t: real, u: real | 0.0 <= t <= 1.0 && 0.0 <= u <= 1.0
      ensures Lerp(a, b, t) != Lerp(c, d, u)
    {
      assert Lerp(a, b, t).x == t;
      assert Lerp(c, d, u).x == k + u;
    }
  }

  // ---------------------------------------------------------------------------
  // Edges of two rings

  /** Edge i of ring a (from a[i] to a[i+1]) and edge j of ring b intersect. */
  predicate EdgePairIntersects(a: seq<Point>, b: seq<Point>, i: int, j: int)
    requires 0 <= i < |a| - 1 && 0 <= j < |b| - 1
  {
    SegmentsIntersect(a[i], a[i + 1], b[j], b[j + 1])
  }

  /** Some consecutive-vertex segment of a intersects some consecutive-vertex segment of b. */
  predicate EdgesIntersect(a: seq<Point>, b: seq<Point>) {
    exists i, j :: 0 <= i < |a| - 1 && 0 <= j < |b| - 1 && EdgePairIntersects(a, b, i, j)
  }

  /** All-pairs search over the edges of both rings, stopping at the first hit. */
  method HaveIntersectingEdges(poly1: seq<Point>, poly2: seq<Point>) returns (found: bool)
    ensures found == EdgesIntersect(poly1, poly2)
    ensures |poly1| < 2 || |poly2| < 2 ==> !found
  {
    var idx1 := 0;
    while idx1 < |poly1| - 1
      invariant 0 <= idx1 && (idx1 <= |poly1| - 1 || idx1 == 0)
      invariant forall i, j :: 0 <= i < idx1 && 0 <= j < |poly2| - 1 ==> !EdgePairIntersects(poly1, poly2, i, j)
    {
      var idx2 := 0;
      while idx2 < |poly2| - 1
        invariant 0 <= idx2 && (idx2 <= |poly2| - 1 || idx2 == 0)
        invariant forall i, j :: 0 <= i < idx1 && 0 <= j < |poly2| - 1 ==> !EdgePairIntersects(poly1, poly2, i, j)
        invariant forall j :: 0 <= j < idx2 ==> !EdgePairIntersects(poly1, poly2, idx1, j)
      {
        if SegmentsIntersect(poly1[idx1], poly1[idx1 + 1], poly2[idx2], poly2[idx2 + 1]) {
          assert EdgePairIntersects(poly1, poly2, idx1, idx2);
          return true;
        }
        idx2 := idx2 + 1;
      }
      idx1 := idx1 + 1;
    }
    return false;
  }

  /**
   * Two rings on opposite sides of a line (the first strictly right of it, the
   * second on or left of it) have no intersecting edges, provided no two of
   * their edges lie on one line.
   */
  lemma SeparatedRingsNoEdgeContact(a: seq<Point>, b: seq<Point>, o: Point, d: Point)
    requires forall k :: 0 <= k < |a| ==> Side(o, d, a[k]) < 0.0
    requires forall k :: 0 <= k < |b| ==> Side(o, d, b[k]) >= 0.0
    requires forall i, j :: 0 <= i < |a| - 1 && 0 <= j < |b| - 1 ==> NotCollinear(a[i], a[i + 1], b[j], b[j + 1])
    ensures !EdgesIntersect(a, b)
  {
    forall i, j | 0 <= i < |a| - 1 && 0 <= j < |b| - 1
      ensures !EdgePairIntersects(a, b, i, j)
    {
      SeparatedSegmentsDisjoint(a[i], a[i + 1], b[j], b[j + 1], o, d);
    }
  }

  // ---------------------------------------------------------------------------
  // Ray casting

  /**
   * Edge (a, b) of the ring is crossed by the horizontal ray from p towards +x.
   * The test is half-open in y, which fixes how points on an edge are classified.
   */
  predicate RayCrosses(p: Point, a: Point, b: Point) {
    ((a.y > p.y) != (b.y > p.y)) && p.x < (b.x - a.x) * (p.y - a.y) / (b.y - a.y) + a.x
  }

  /** Index of the vertex before i around the ring (the loop's j). */
  function Prev(n: nat, i: nat): nat
    requires i < n
  {
    if i == 0 then n - 1 else i - 1
  }

  /** Number of edges (vs[i], vs[Prev(i)]) with i < n that the ray from p crosses. */
  function Crossings(p: Point, vs: seq<Point>, n: nat): nat
    requires n <= |vs|
  {
    if n == 0 then 0
    else Crossings(p, vs, n - 1) + (if RayCrosses(p, vs[n - 1], vs[Prev(|vs|, n - 1)]) then 1 else 0)
  }

  /** The ray-casting verdict: an odd number of crossings. */
  predicate InPolygon(p: Point, vs: seq<Point>) {
    Crossings(p, vs, |vs|) % 2 == 1
  }

  /** The pnpoly loop: walks i with j trailing one vertex behind and flips `inside` at each crossing. */
  method PointInPolygon(point: Point, vs: seq<Point>) returns (inside: bool)
    ensures inside == InPolygon(point, vs)
  {
    inside := false;
    var i, j := 0, |vs| - 1;
    while i < |vs|
      invariant 0 <= i <= |vs|
      invariant i < |vs| ==> j == Prev(|vs|, i)
      invariant inside == (Crossings(point, vs, i) % 2 == 1)
    {
      var intersect := RayCrosses(point, vs[i], vs[j]);
      if intersect {
        inside := !inside;
      }
      j, i := i, i + 1;
    }
  }

  /** A point whose y is below every vertex, or at or above every vertex, crosses no edge. */
  lemma {:induction false} NoCrossingsOutsideYRange(p: Point, vs: seq<Point>, n: nat)
    requires n <= |vs|
    requires (forall k :: 0 <= k < |vs| ==> vs[k].y > p.y) || (forall k :: 0 <= k < |vs| ==> vs[k].y <= p.y)
    ensures Crossings(p, vs, n) == 0
  {
    if n > 0 {
      NoCrossingsOutsideYRange(p, vs, n - 1);
      assert !RayCrosses(p, vs[n - 1], vs[Prev(|vs|, n - 1)]);
    }
  }

  /** Outside the ring's vertical extent (half-open at the top) nothing is inside. */
  lemma OutsideYRangeNotInside(p: Point, vs: seq<Point>)
    requires (forall k :: 0 <= k < |vs| ==> vs[k].y > p.y) || (forall k :: 0 <= k < |vs| ==> vs[k].y <= p.y)
    ensures !InPolygon(p, vs)
  {
    NoCrossingsOutsideYRange(p, vs, |vs|);
  }

  /** An edge that straddles the ray's line meets it at a convex combination of the edge's x ends. */
  lemma CrossingAbscissa(p: Point, a: Point, b: Point) returns (lambda: real)
    requires (a.y > p.y) != (b.y > p.y)
    ensures 0.0 <= lambda <= 1.0
    ensures (b.x - a.x) * (p.y - a.y) / (b.y - a.y) + a.x == (1.0 - lambda) * a.x + lambda * b.x
  {
    var dy := b.y - a.y;
    lambda := (p.y - a.y) / dy;
    assert lambda * dy == p.y - a.y;
    if dy > 0.0 {
      if lambda < 0.0 { MulNonNegative(-lambda, dy); }
      if lambda > 1.0 { MulNonNegative(lambda - 1.0, dy); }
    } else {
      if lambda < 0.0 { MulNonNegative(-lambda, -dy); }
      if lambda > 1.0 { MulNonNegative(lambda - 1.0, -dy); }
    }
  }

  /** The ray from a point at or right of both ends of an edge does not cross it. */
  lemma RightOfEdgeNotCrossed(p: Point, a: Point, b: Point)
    requires a.x <= p.x && b.x <= p.x
    ensures !RayCrosses(p, a, b)
  {
    if (a.y > p.y) != (b.y > p.y) {
      var lambda := CrossingAbscissa(p, a, b);
      ConvexCombinationBounds(p.x - a.x, p.x - b.x, lambda);
    }
  }

  /** The ray from a point strictly left of both ends of an edge crosses it exactly when the edge straddles the ray's line. */
  lemma LeftOfEdgeCrossed(p: Point, a: Point, b: Point)
    requires p.x < a.x && p.x < b.x
    ensures RayCrosses(p, a, b) <==> Straddles(p, a, b)
  {
    if Straddles(p, a, b) {
      var lambda := CrossingAbscissa(p, a, b);
      ConvexCombinationBounds(p.x - a.x, p.x - b.x, lambda);
    }
  }

  /** One end of the edge is above p's line and the other at or below it. */
  predicate Straddles(p: Point, a: Point, b: Point) {
    (a.y > p.y) != (b.y > p.y)
  }

  /**
   * Left of every vertex the ray crosses exactly the straddling edges. Going
   * round the ring from vs[0] to vs[n - 1], the edges crossed so far change
   * sides an even number of times counting the closing edge (vs[0], vs[|vs| - 1])
   * and the way back from vs[n - 1] to vs[0].
   */
  lemma {:induction false} LeftOfRingCrossingParity(p: Point, vs: seq<Point>, n: nat)
    requires 1 <= n <= |vs|
    requires forall k :: 0 <= k < |vs| ==> p.x < vs[k].x
    ensures (Crossings(p, vs, n)
             + (if Straddles(p, vs[0], vs[|vs| - 1]) then 1 else 0)
             + (if Straddles(p, vs[0], vs[n - 1]) then 1 else 0)) % 2 == 0
  {
    if n == 1 {
      LeftOfEdgeCrossed(p, vs[0], vs[|vs| - 1]);
    } else {
      LeftOfRingCrossingParity(p, vs, n - 1);
      LeftOfEdgeCrossed(p, vs[n - 1], vs[n - 2]);
    }
  }

  /** Strictly left of the ring's horizontal extent nothing is inside: the ray crosses the ring an even number of times. */
  lemma LeftOfRingNotInside(p: Point, vs: seq<Point>)
    requires forall k :: 0 <= k < |vs| ==> p.x < vs[k].x
    ensures !InPolygon(p, vs)
  {
    if |vs| > 0 {
      LeftOfRingCrossingParity(p, vs, |vs|);
    }
  }

  /** A point at or right of every vertex crosses no edge. */
  lemma {:induction false} NoCrossingsRightOfRing(p: Point, vs: seq<Point>, n: nat)
    requires n <= |vs|
    requires forall k :: 0 <= k < |vs| ==> vs[k].x <= p.x
    ensures Crossings(p, vs, n) == 0
  {
    if n > 0 {
      NoCrossingsRightOfRing(p, vs, n - 1);
      RightOfEdgeNotCrossed(p, vs[n - 1], vs[Prev(|vs|, n - 1)]);
    }
  }

  /** Right of the ring's horizontal extent nothing is inside. */
  lemma RightOfRingNotInside(p: Point, vs: seq<Point>)
    requires forall k :: 0 <= k < |vs| ==> vs[k].x <= p.x
    ensures !InPolygon(p, vs)
  {
    NoCrossingsRightOfRing(p, vs, |vs|);
  }

  /**
   * Appending the first vertex (closing the ring) does not change the verdict:
   * the new edge from the first vertex to its copy is horizontal-degenerate and
   * the old closing edge reappears as the last one.
   */
  lemma {:induction false} ClosingKeepsInPolygon(p: Point, vs: seq<Point>)
    requires |vs| > 0
    ensures InPolygon(p, vs + [vs[0]]) == InPolygon(p, vs)
  {
    var ws := vs + [vs[0]];
    var n := |vs|;
    var e0 := if RayCrosses(p, vs[0], vs[n - 1]) then 1 else 0;
    ClosedPrefixCrossings(p, vs, n);
    assert Crossings(p, ws, n + 1) == Crossings(p, ws, n) + e0;
  }

  lemma {:induction false} ClosedPrefixCrossings(p: Point, vs: seq<Point>, k: nat)
    requires 1 <= k <= |vs|
    ensures Crossings(p, vs + [vs[0]], k) + (if RayCrosses(p, vs[0], vs[|vs| - 1]) then 1 else 0)
            == Crossings(p, vs, k)
  {
    var ws := vs + [vs[0]];
    if k == 1 {
      assert !RayCrosses(p, ws[0], ws[Prev(|ws|, 0)]);
    } else {
      ClosedPrefixCrossings(p, vs, k - 1);
      assert ws[k - 1] == vs[k - 1] && ws[k - 2] == vs[k - 2];
    }
  }

  /** The unit-square cases: a point on the top edge is outside, one just above the bottom edge inside. */
  lemma UnitSquareExamples()
    ensures !InPolygon(Point(0.5, 1.0), [Point(0.0, 0.0), Point(1.0, 0.0), Point(1.0, 1.0), Point(0.0, 1.0), Point(0.0, 0.0)])
    ensures InPolygon(Point(0.5, 0.1), [Point(0.0, 0.0), Point(1.0, 0.0), Point(1.0, 1.0), Point(0.0, 1.0), Point(0.0, 0.0)])
    ensures !InPolygon(Point(10.0, 0.1), [Point(0.0, 0.0), Point(1.0, 0.0), Point(1.0, 1.0), Point(0.0, 1.0), Point(0.0, 0.0)])
  {
    var sq := [Point(0.0, 0.0), Point(1.0, 0.0), Point(1.0, 1.0), Point(0.0, 1.0), Point(0.0, 0.0)];
    OutsideYRangeNotInside(Point(0.5, 1.0), sq);
    var p := Point(0.5, 0.1);
    assert Crossings(p, sq, 1) == 0;
    assert Crossings(p, sq, 2) == 0;
    assert Crossings(p, sq, 3) == 1;
    assert Crossings(p, sq, 4) == 1;
    assert Crossings(p, sq, 5) == 1;
    var q := Point(10.0, 0.1);
    assert Crossings(q, sq, 3) == 0;
    assert Crossings(q, sq, 5) == 0;
  }

  // ---------------------------------------------------------------------------
  // Vertex containment

  /** Some vertex of source other than the last (the closing copy) lies inside target. */
  predicate AnyVertexInside(source: seq<Point>, target: seq<Point>) {
    exists i :: 0 <= i < |source| - 1 && InPolygon(source[i], target)
  }

  /** Linear search over the vertices of the source ring, stopping at the first inside one. */
  method HasPointInPolygon(sourcePoly: seq<Point>, targetPoly: seq<Point>) returns (found: bool)
    ensures found == AnyVertexInside(sourcePoly, targetPoly)
  {
    var idx := 0;
    while idx < |sourcePoly| - 1
      invariant 0 <= idx && (idx <= |sourcePoly| - 1 || idx == 0)
      invariant forall i :: 0 <= i < idx ==> !InPolygon(sourcePoly[i], targetPoly)
    {
      var inside := PointInPolygon(sourcePoly[idx], targetPoly);
      if inside {
        return true;
      }
      idx := idx + 1;
    }
    return false;
  }

  // ---------------------------------------------------------------------------
  // Projection onto tiles

  /** Index of the tile of size `tileSize` that holds `value`: floor(value / tileSize). */
  function Project(value: real, tileSize: real): (k: int)
    requires tileSize != 0.0
    ensures tileSize > 0.0 ==> k as real * tileSize <= value < (k + 1) as real * tileSize
  {
    var q := value / tileSize;
    var k := q.Floor;
    assert tileSize > 0.0 ==> k as real * tileSize <= value < (k + 1) as real * tileSize by {
      if tileSize > 0.0 {
        assert q * tileSize == value;
        MulNonNegative(q - k as real, tileSize);
        MulNonNegative((k + 1) as real - q, tileSize);
        assert ((k + 1) as real - q) * tileSize != 0.0;
      }
    }
    k
  }

  lemma MulNonNegative(a: real, b: real)
    requires a >= 0.0 && b >= 0.0
    ensures a * b >= 0.0
  {
  }

  /** Projection is monotone in the value for a positive tile size. */
  lemma ProjectMonotone(v1: real, v2: real, tileSize: real)
    requires tileSize > 0.0 && v1 <= v2
    ensures Project(v1, tileSize) <= Project(v2, tileSize)
  {
    var k1, k2 := Project(v1, tileSize), Project(v2, tileSize);
    if k1 > k2 {
      MulNonNegative((k1 - k2 - 1) as real, tileSize);
    }
  }

  /** The tile index is the only k whose tile [k * tileSize, (k + 1) * tileSize) holds the value. */
  lemma ProjectUnique(v: real, tileSize: real, k: int)
    requires tileSize > 0.0 && k as real * tileSize <= v < (k + 1) as real * tileSize
    ensures Project(v, tileSize) == k
  {
    var j := Project(v, tileSize);
    if j < k {
      MulNonNegative((k - j - 1) as real, tileSize);
    } else if j > k {
      MulNonNegative((j - k - 1) as real, tileSize);
    }
  }

  /** Shifting the value by n whole tiles shifts the tile index by n. */
  lemma ProjectShift(v: real, tileSize: real, n: int)
    requires tileSize != 0.0
    ensures Project(v + n as real * tileSize, tileSize) == Project(v, tileSize) + n
  {
    assert (v + n as real * tileSize) / tileSize == v / tileSize + n as real;
  }
}
