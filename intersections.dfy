/**
 * Hit-testing predicates between boxes, rings, polylines and buffered
 * points (lib/intersections.js).
 */
module Intersections {
  import opened Util
  import opened Arith

  // ---------------------------------------------------------------------------
  // boundingBoxesIntersect

  /** Closed-interval overlap of two boxes on both axes. */
  predicate BoxesIntersect(boxA: Box, boxB: Box)
  {
    !(boxA.maxX < boxB.minX || boxB.maxX < boxA.minX || boxA.maxY < boxB.minY || boxB.maxY < boxA.minY)
  }

  predicate WellFormedBox(b: Box)
  {
    b.minX <= b.maxX && b.minY <= b.maxY
  }

  lemma BoxesIntersectSymmetric(boxA: Box, boxB: Box)
    ensures BoxesIntersect(boxA, boxB) == BoxesIntersect(boxB, boxA)
  {
  }

  /**
   * Two proper boxes intersect exactly when some point lies in both closed
   * boxes; in particular boxes that only touch do intersect.
   */
  lemma BoxesIntersectMeaning(boxA: Box, boxB: Box)
    requires WellFormedBox(boxA) && WellFormedBox(boxB)
    ensures BoxesIntersect(boxA, boxB) <==> exists p :: InClosedBox(p, boxA) && InClosedBox(p, boxB)
  {
    if BoxesIntersect(boxA, boxB) {
      var p := Point(Max(boxA.minX, boxB.minX), Max(boxA.minY, boxB.minY));
      assert InClosedBox(p, boxA) && InClosedBox(p, boxB);
    }
  }

  /** Every bounding box the library computes is a proper box. */
  lemma BoundingBoxWellFormed(ring: seq<Point>)
    ensures WellFormedBox(BoundingBox(ring))
  {
    if |ring| > 0 {
      assert ring[0] in ring;
    }
  }

  // ---------------------------------------------------------------------------
  // distSqr, distToSegmentSquared

  function DistSqr(p: Point, q: Point): (r: real)
    ensures r >= 0.0
  {
    SqNonNegative(p.x - q.x);
    SqNonNegative(p.y - q.y);
    Sq(p.x - q.x) + Sq(p.y - q.y)
  }

  /** The squared distance is zero exactly between equal points. */
  lemma DistSqrZero(p: Point, q: Point)
    ensures DistSqr(p, q) == 0.0 <==> p == q
  {
    SqNonNegative(p.x - q.x);
    SqNonNegative(p.y - q.y);
    if p.x != q.x {
      SqPositive(p.x - q.x);
    } else if p.y != q.y {
      SqPositive(p.y - q.y);
    }
  }

  /** The dot product of p - v with the direction w - v. */
  function Dot(p: Point, v: Point, w: Point): real
  {
    Mul(p.x - v.x, w.x - v.x) + Mul(p.y - v.y, w.y - v.y)
  }

  /** The point at parameter t along the segment from v towards w. */
  function Along(v: Point, w: Point, t: real): Point
  {
    Point(Mul(w.x - v.x, t) + v.x, Mul(w.y - v.y, t) + v.y)
  }

  /**
   * The squared distance from p to the closest point of the segment v-w:
   * the projection parameter is clamped to [0, 1], and a zero-length
   * segment is measured as the point v.
   */
  function DistToSegmentSquared(p: Point, v: Point, w: Point): (r: real)
    ensures r >= 0.0
  {
    var l2 := DistSqr(v, w);
    if l2 == 0.0 then DistSqr(p, v)
    else
      var t := Dot(p, v, w) / l2;
      if t < 0.0 then DistSqr(p, v)
      else if t > 1.0 then DistSqr(p, w)
      else DistSqr(p, Along(v, w, t))
  }

  /** |p - w|^2 = |p - v|^2 - 2 (p - v).(w - v) + |w - v|^2 */
  lemma FarEnd(p: Point, v: Point, w: Point)
    ensures DistSqr(p, w) == DistSqr(p, v) - 2.0 * Dot(p, v, w) + DistSqr(v, w)
  {
    SqDiff(p.x - v.x, w.x - v.x);
    SqDiff(p.y - v.y, w.y - v.y);
    assert (p.x - v.x) - (w.x - v.x) == p.x - w.x;
    assert (p.y - v.y) - (w.y - v.y) == p.y - w.y;
    SqSwap(v.x, w.x);
    SqSwap(v.y, w.y);
  }

  /** |p - (v + t (w - v))|^2 = |p - v|^2 - 2 t (p - v).(w - v) + t^2 |w - v|^2 */
  lemma AlongDistance(p: Point, v: Point, w: Point, t: real)
    ensures DistSqr(p, Along(v, w, t))
         == DistSqr(p, v) - 2.0 * Mul(t, Dot(p, v, w)) + Mul(Sq(t), DistSqr(v, w))
  {
    var q := Along(v, w, t);
    SqDiff(p.x - v.x, Mul(w.x - v.x, t));
    SqDiff(p.y - v.y, Mul(w.y - v.y, t));
    assert (p.x - v.x) - Mul(w.x - v.x, t) == p.x - q.x;
    assert (p.y - v.y) - Mul(w.y - v.y, t) == p.y - q.y;
    MulRotate(p.x - v.x, w.x - v.x, t);
    MulRotate(p.y - v.y, w.y - v.y, t);
    MulAdd(t, Mul(p.x - v.x, w.x - v.x), Mul(p.y - v.y, w.y - v.y));
    SqOfMul(w.x - v.x, t);
    SqOfMul(w.y - v.y, t);
    MulAdd(Sq(t), Sq(w.x - v.x), Sq(w.y - v.y));
    SqSwap(v.x, w.x);
    SqSwap(v.y, w.y);
  }

  /**
   * With dot = t l2 and l2 > 0, the projection at t is no farther than either
   * end when t is in [0, 1], and the nearer end is v for t < 0 and w for t > 1.
   */
  lemma ProjectionBounds(uu: real, dot: real, l2: real, t: real, pq: real, pw: real)
    requires l2 > 0.0
    requires dot == Mul(t, l2)
    requires pq == uu - 2.0 * Mul(t, dot) + Mul(Sq(t), l2)
    requires pw == uu - 2.0 * dot + l2
    ensures t < 0.0 ==> uu <= pw
    ensures t > 1.0 ==> pw <= uu
    ensures !(t < 0.0) && !(t > 1.0) ==> pq <= uu && pq <= pw
  {
    MulTwice(t, l2);
    SqNonNegative(t);
    MulNonNegative(Sq(t), l2);
    OneMinusSq(t, l2);
    SqNonNegative(1.0 - t);
    MulNonNegative(Sq(1.0 - t), l2);
    if t < 0.0 {
      MulNegative(t, l2);
    } else if t > 1.0 {
      MulPositive(t - 1.0, l2);
      MulSub(t, 1.0, l2);
      MulOne(l2);
    }
  }

  /** distToSegmentSquared never exceeds the squared distance to either endpoint. */
  lemma DistToSegmentBounds(p: Point, v: Point, w: Point)
    ensures DistToSegmentSquared(p, v, w) <= DistSqr(p, v)
    ensures DistToSegmentSquared(p, v, w) <= DistSqr(p, w)
  {
    var l2 := DistSqr(v, w);
    if l2 == 0.0 {
      DistSqrZero(v, w);
    } else {
      var t := Dot(p, v, w) / l2;
      DivMul(Dot(p, v, w), l2);
      FarEnd(p, v, w);
      AlongDistance(p, v, w, t);
      ProjectionBounds(DistSqr(p, v), Dot(p, v, w), l2, t, DistSqr(p, Along(v, w, t)), DistSqr(p, w));
    }
  }

  /** On a zero-length segment the distance is the distance to its point. */
  lemma DistToSegmentDegenerate(p: Point, v: Point)
    ensures DistToSegmentSquared(p, v, v) == DistSqr(p, v)
  {
    DistSqrZero(v, v);
  }

  /** Every point of the segment v-w is at distance zero from it. */
  lemma DistToSegmentOnSegment(v: Point, w: Point, s: real)
    requires 0.0 <= s <= 1.0
    ensures DistToSegmentSquared(Along(v, w, s), v, w) == 0.0
  {
    var p := Along(v, w, s);
    var l2 := DistSqr(v, w);
    DistSqrZero(p, p);
    if l2 == 0.0 {
      DistSqrZero(v, w);
      MulZero(s);
      assert p == v;
    } else {
      MulScaled(w.x - v.x, s);
      MulScaled(w.y - v.y, s);
      assert p.x - v.x == Mul(w.x - v.x, s) && p.y - v.y == Mul(w.y - v.y, s);
      MulAdd(s, Sq(w.x - v.x), Sq(w.y - v.y));
      SqSwap(v.x, w.x);
      SqSwap(v.y, w.y);
      assert Dot(p, v, w) == Mul(s, l2);
      MulDiv(s, l2);
    }
  }

  /** Both endpoints are at distance zero from their segment. */
  lemma DistToSegmentAtEndpoints(v: Point, w: Point)
    ensures DistToSegmentSquared(v, v, w) == 0.0
    ensures DistToSegmentSquared(w, v, w) == 0.0
  {
    DistToSegmentBounds(v, v, w);
    DistToSegmentBounds(w, v, w);
    DistSqrZero(v, v);
    DistSqrZero(w, w);
  }

  // ---------------------------------------------------------------------------
  // lineSegmentIntersectsLineSegment

  /** The orientation test for two segments crossing each other. */
  predicate SegmentsIntersect(a0: Point, a1: Point, b0: Point, b1: Point)
  {
    IsCounterClockwise(a0, b0, b1) != IsCounterClockwise(a1, b0, b1) &&
    IsCounterClockwise(a0, a1, b0) != IsCounterClockwise(a0, a1, b1)
  }

  /** Swapping the two segments does not change the answer. */
  lemma SegmentsIntersectSymmetric(a0: Point, a1: Point, b0: Point, b1: Point)
    ensures SegmentsIntersect(a0, a1, b0, b1) == SegmentsIntersect(b0, b1, a0, a1)
  {
    CounterClockwiseRotate(a0, a1, b0);
    CounterClockwiseRotate(a0, a1, b1);
    CounterClockwiseRotate(b0, b1, a0);
    CounterClockwiseRotate(b0, b1, a1);
  }

  // ---------------------------------------------------------------------------
  // lineIntersectsLine

  /** Segment i of line A (from point i - 1 to point i) crosses segment j of line B. */
  predicate CrossAt(lineA: seq<Point>, lineB: seq<Point>, i: int, j: int)
    requires 1 <= i < |lineA| && 1 <= j < |lineB|
  {
    SegmentsIntersect(lineA[i - 1], lineA[i], lineB[j - 1], lineB[j])
  }

  /** Some segment of line A crosses some segment of line B. */
  ghost predicate LinesCross(lineA: seq<Point>, lineB: seq<Point>)
  {
    exists i, j :: 1 <= i < |lineA| && 1 <= j < |lineB| && CrossAt(lineA, lineB, i, j)
  }

  method LineIntersectsLine(lineA: seq<Point>, lineB: seq<Point>) returns (r: bool)
    ensures r == LinesCross(lineA, lineB)
  {
    if |lineA| == 0 || |lineB| == 0 {
      return false;
    }
    var a0 := lineA[0];
    for i := 1 to |lineA|
      invariant a0 == lineA[i - 1]
      invariant forall i', j' :: 1 <= i' < i && 1 <= j' < |lineB| ==> !CrossAt(lineA, lineB, i', j')
    {
      var a1 := lineA[i];
      var b0 := lineB[0];
      for j := 1 to |lineB|
        invariant b0 == lineB[j - 1]
        invariant forall j' :: 1 <= j' < j ==> !CrossAt(lineA, lineB, i, j')
      {
        var b1 := lineB[j];
        if SegmentsIntersect(a0, a1, b0, b1) {
          assert CrossAt(lineA, lineB, i, j);
          return true;
        }
        b0 := b1;
      }
      a0 := a1;
    }
    return false;
  }

  lemma LinesCrossSwap(lineA: seq<Point>, lineB: seq<Point>)
    requires LinesCross(lineA, lineB)
    ensures LinesCross(lineB, lineA)
  {
    var i, j :| 1 <= i < |lineA| && 1 <= j < |lineB| && CrossAt(lineA, lineB, i, j);
    SegmentsIntersectSymmetric(lineA[i - 1], lineA[i], lineB[j - 1], lineB[j]);
    assert CrossAt(lineB, lineA, j, i);
  }

  /** Whether two polylines cross does not depend on which one is named first. */
  lemma LinesCrossSymmetric(lineA: seq<Point>, lineB: seq<Point>)
    ensures LinesCross(lineA, lineB) == LinesCross(lineB, lineA)
  {
    if LinesCross(lineA, lineB) {
      LinesCrossSwap(lineA, lineB);
    }
    if LinesCross(lineB, lineA) {
      LinesCrossSwap(lineB, lineA);
    }
  }

  // ---------------------------------------------------------------------------
  // pointIntersectsBufferedLine

  /**
   * p is strictly closer than `radius` to the line: to its single point, or
   * to one of its segments.
   */
  ghost predicate NearLine(p: Point, line: seq<Point>, radius: real)
  {
    if |line| == 1 then DistSqr(p, line[0]) < Sq(radius)
    else exists i :: 1 <= i < |line| && SegmentDistSqr(p, line, i) < Sq(radius)
  }

  /** The squared distance from p to segment i of the line (from point i - 1 to point i). */
  function SegmentDistSqr(p: Point, line: seq<Point>, i: int): real
    requires 1 <= i < |line|
  {
    DistToSegmentSquared(p, line[i - 1], line[i])
  }

  method PointIntersectsBufferedLine(p: Point, line: seq<Point>, radius: real) returns (r: bool)
    ensures r == NearLine(p, line, radius)
  {
    var radiusSquared := Sq(radius);
    if |line| == 1 {
      return DistSqr(p, line[0]) < radiusSquared;
    }
    if |line| == 0 {
      // `line[0]` is undefined and the loop below does not run
      return false;
    }
    var v := line[0];
    for i := 1 to |line|
      invariant v == line[i - 1]
      invariant forall k :: 1 <= k < i ==> SegmentDistSqr(p, line, k) >= radiusSquared
    {
      var w := line[i];
      if DistToSegmentSquared(p, v, w) < radiusSquared {
        assert SegmentDistSqr(p, line, i) < radiusSquared;
        return true;
      }
      v := w;
    }
    return false;
  }

  /** A vertex of a line is within any non-zero radius of it. */
  lemma VertexIsNearLine(line: seq<Point>, k: nat, radius: real)
    requires k < |line|
    requires radius != 0.0
    ensures NearLine(line[k], line, radius)
  {
    SqPositive(radius);
    var p := line[k];
    if |line| == 1 {
      DistSqrZero(p, line[0]);
    } else if k > 0 {
      DistToSegmentAtEndpoints(line[k - 1], line[k]);
      assert SegmentDistSqr(p, line, k) < Sq(radius);
    } else {
      DistToSegmentAtEndpoints(line[0], line[1]);
      assert SegmentDistSqr(p, line, 1) < Sq(radius);
    }
  }

  /** Growing the radius never loses a hit. */
  lemma NearLineMonotone(p: Point, line: seq<Point>, radius: real, larger: real)
    requires 0.0 <= radius <= larger
    requires NearLine(p, line, radius)
    ensures NearLine(p, line, larger)
  {
    SqMonotone(radius, larger);
    if |line| != 1 {
      var i :| 1 <= i < |line| && SegmentDistSqr(p, line, i) < Sq(radius);
      assert SegmentDistSqr(p, line, i) < Sq(larger);
    }
  }

  // ---------------------------------------------------------------------------
  // polygonContainsPoint, multiPolygonContainsPoint

  /**
   * The even-odd ray test for one edge: the edge straddles the horizontal
   * through q and crosses it to the right of q. The division is only
   * evaluated when the edge straddles, so its denominator is not zero.
   */
  predicate EdgeCrosses(p1: Point, p2: Point, q: Point)
  {
    (p1.y > q.y) != (p2.y > q.y) && q.x < ((p2.x - p1.x) * (q.y - p1.y)) / (p2.y - p1.y) + p1.x
  }

  /** A crossing edge has distinct end heights, with q's height between them. */
  lemma EdgeCrossesStraddles(p1: Point, p2: Point, q: Point)
    requires EdgeCrosses(p1, p2, q)
    ensures p1.y != p2.y
    ensures Min(p1.y, p2.y) <= q.y < Max(p1.y, p2.y)
  {
  }

  /** The crossing parity of the first k edges of a ring (edge i joins i to i-1). */
  function Parity(ring: seq<Point>, q: Point, k: nat): bool
    requires k <= |ring|
  {
    if k == 0 then false
    else Parity(ring, q, k - 1) != EdgeCrosses(ring[k - 1], ring[Prev(ring, k - 1)], q)
  }

  /** The even-odd rule: q is inside the ring iff the ray crosses it an odd number of times. */
  function RingContains(ring: seq<Point>, q: Point): bool
  {
    Parity(ring, q, |ring|)
  }

  /** The parity over the first m rings, each ring read whole. */
  function MultiParity(rings: seq<seq<Point>>, q: Point, m: nat): bool
    requires m <= |rings|
  {
    if m == 0 then false else MultiParity(rings, q, m - 1) != RingContains(rings[m - 1], q)
  }

  function MultiContains(rings: seq<seq<Point>>, q: Point): bool
  {
    MultiParity(rings, q, |rings|)
  }

  method PolygonContainsPoint(ring: seq<Point>, q: Point) returns (c: bool)
    ensures c == RingContains(ring, q)
  {
    c := false;
    var i, j := 0, |ring| - 1;
    while i < |ring|
      invariant 0 <= i <= |ring|
      invariant i < |ring| ==> j == Prev(ring, i)
      invariant c == Parity(ring, q, i)
    {
      var p1 := ring[i];
      var p2 := ring[j];
      if EdgeCrosses(p1, p2, q) {
        c := !c;
      }
      j := i;
      i := i + 1;
    }
  }

  method MultiPolygonContainsPoint(rings: seq<seq<Point>>, q: Point) returns (c: bool)
    ensures c == MultiContains(rings, q)
    ensures |rings| == 1 ==> c == RingContains(rings[0], q)
  {
    c := false;
    for m := 0 to |rings|
      invariant c == MultiParity(rings, q, m)
    {
      var ring := rings[m];
      var i, j := 0, |ring| - 1;
      ghost var before := c;
      while i < |ring|
        invariant 0 <= i <= |ring|
        invariant i < |ring| ==> j == Prev(ring, i)
        invariant c == (before != Parity(ring, q, i))
      {
        var p1 := ring[i];
        var p2 := ring[j];
        if EdgeCrosses(p1, p2, q) {
          c := !c;
        }
        j := i;
        i := i + 1;
      }
    }
  }

  /** The multi-ring parity of a concatenation is the XOR of the parts' parities. */
  lemma {:induction false} MultiContainsAppend(rings: seq<seq<Point>>, more: seq<seq<Point>>, q: Point)
    ensures MultiContains(rings + more, q) == (MultiContains(rings, q) != MultiContains(more, q))
    decreases |more|
  {
    if |more| == 0 {
      assert rings + more == rings;
    } else {
      var init := more[..|more| - 1];
      MultiContainsAppend(rings, init, q);
      assert (rings + more)[..|rings + more| - 1] == rings + init;
      MultiParityPrefix(rings + more, |rings + more| - 1, q);
      MultiParityPrefix(more, |more| - 1, q);
    }
  }

  /** The parity over the first m rings only looks at those rings. */
  lemma {:induction false} MultiParityPrefix(rings: seq<seq<Point>>, m: nat, q: Point)
    requires m <= |rings|
    ensures MultiParity(rings, q, m) == MultiContains(rings[..m], q)
    decreases m
  {
    if m > 0 {
      MultiParityPrefix(rings, m - 1, q);
      assert rings[..m][..m - 1] == rings[..m - 1];
      MultiParityPrefixOf(rings[..m], m - 1, q);
    }
  }

  lemma {:induction false} MultiParityPrefixOf(rings: seq<seq<Point>>, m: nat, q: Point)
    requires m <= |rings|
    ensures MultiParity(rings, q, m) == MultiParity(rings[..m], q, m)
    decreases m
  {
    if m > 0 {
      MultiParityPrefixOf(rings, m - 1, q);
      assert rings[..m][..m - 1] == rings[..m - 1];
      MultiParityPrefixOf(rings[..m], m - 1, q);
    }
  }

  /** The answers of polygonContainsPoint for each ring, in order. */
  function RingFlags(rings: seq<seq<Point>>, q: Point): (flags: seq<bool>)
    ensures |flags| == |rings|
    ensures forall k :: 0 <= k < |rings| ==> flags[k] == RingContains(rings[k], q)
  {
    if |rings| == 0 then [] else RingFlags(rings[..|rings| - 1], q) + [RingContains(rings[|rings| - 1], q)]
  }

  /** Exclusive or of a sequence of flags. */
  function Xor(flags: seq<bool>): bool
  {
    if |flags| == 0 then false else Xor(flags[..|flags| - 1]) != flags[|flags| - 1]
  }

  /** The positions of the set flags. */
  function SetFlags(flags: seq<bool>): set<int>
  {
    set k | 0 <= k < |flags| && flags[k]
  }

  /** The exclusive or of some flags is whether an odd number of them is set. */
  lemma {:induction false} XorIsOddCount(flags: seq<bool>)
    ensures Xor(flags) == (|SetFlags(flags)| % 2 == 1)
    decreases |flags|
  {
    if |flags| > 0 {
      var init := flags[..|flags| - 1];
      var last := |flags| - 1;
      XorIsOddCount(init);
      if flags[last] {
        assert SetFlags(flags) == SetFlags(init) + {last};
        assert last !in SetFlags(init);
      } else {
        assert SetFlags(flags) == SetFlags(init);
      }
    }
  }

  /** multiPolygonContainsPoint is the exclusive or of polygonContainsPoint over the rings. */
  lemma {:induction false} MultiContainsIsXor(rings: seq<seq<Point>>, q: Point)
    ensures MultiContains(rings, q) == Xor(RingFlags(rings, q))
    decreases |rings|
  {
    if |rings| > 0 {
      var init := rings[..|rings| - 1];
      MultiContainsIsXor(init, q);
      MultiParityPrefix(rings, |rings| - 1, q);
      assert RingFlags(rings, q)[..|rings| - 1] == RingFlags(init, q);
    }
  }

  /** A point is in the multi-polygon exactly when an odd number of its rings contain it. */
  lemma MultiContainsOddCount(rings: seq<seq<Point>>, q: Point)
    ensures MultiContains(rings, q) == (|SetFlags(RingFlags(rings, q))| % 2 == 1)
  {
    MultiContainsIsXor(rings, q);
    XorIsOddCount(RingFlags(rings, q));
  }

  // ---------------------------------------------------------------------------
  // polygonIntersectsPolygon

  /** Some point of `points` lies inside `ring` by the even-odd rule. */
  ghost predicate SomePointInside(points: seq<Point>, ring: seq<Point>)
  {
    exists k :: 0 <= k < |points| && RingContains(ring, points[k])
  }

  /**
   * Both polygons are non-empty, their bounding boxes meet, and a vertex of
   * one is inside the other or an edge of one crosses an edge of the other.
   */
  ghost predicate PolygonsIntersect(polygonA: seq<Point>, polygonB: seq<Point>)
  {
    && |polygonA| > 0 && |polygonB| > 0
    && BoxesIntersect(BoundingBox(polygonA), BoundingBox(polygonB))
    && (SomePointInside(polygonA, polygonB) || SomePointInside(polygonB, polygonA) || LinesCross(polygonA, polygonB))
  }

  /** Whether some point of `points` is inside `ring`, stopping at the first one that is. */
  method AnyPointInside(points: seq<Point>, ring: seq<Point>) returns (r: bool)
    ensures r == SomePointInside(points, ring)
  {
    for k := 0 to |points|
      invariant forall k' :: 0 <= k' < k ==> !RingContains(ring, points[k'])
    {
      var inside := PolygonContainsPoint(ring, points[k]);
      if inside {
        return true;
      }
    }
    return false;
  }

  method PolygonIntersectsPolygon(polygonA: seq<Point>, polygonB: seq<Point>) returns (r: bool)
    ensures r == PolygonsIntersect(polygonA, polygonB)
    ensures |polygonA| == 0 || |polygonB| == 0 ==> !r
    ensures !BoxesIntersect(BoundingBox(polygonA), BoundingBox(polygonB)) ==> !r
  {
    if |polygonA| == 0 || |polygonB| == 0 {
      return false;
    }
    var boxA := BoundingBox(polygonA);
    var boxB := BoundingBox(polygonB);
    if !BoxesIntersect(boxA, boxB) {
      return false;
    }
    r := AnyPointInside(polygonA, polygonB);
    if r {
      return;
    }
    r := AnyPointInside(polygonB, polygonA);
    if r {
      return;
    }
    r := LineIntersectsLine(polygonA, polygonB);
  }

  /** polygonIntersectsPolygon does not depend on the order of its arguments. */
  lemma PolygonsIntersectSymmetric(polygonA: seq<Point>, polygonB: seq<Point>)
    ensures PolygonsIntersect(polygonA, polygonB) == PolygonsIntersect(polygonB, polygonA)
  {
    BoxesIntersectSymmetric(BoundingBox(polygonA), BoundingBox(polygonB));
    LinesCrossSymmetric(polygonA, polygonB);
  }

  // ---------------------------------------------------------------------------
  // polygonIntersectsBufferedPoint

  /** The point is inside the polygon, or strictly within `radius` of its outline. */
  ghost predicate BufferedPointHits(polygon: seq<Point>, point: Point, radius: real)
  {
    RingContains(polygon, point) || NearLine(point, polygon, radius)
  }

  method PolygonIntersectsBufferedPoint(polygon: seq<Point>, point: Point, radius: real) returns (r: bool)
    ensures r == BufferedPointHits(polygon, point, radius)
  {
    r := PolygonContainsPoint(polygon, point);
    if r {
      return;
    }
    r := PointIntersectsBufferedLine(point, polygon, radius);
  }

  /** A vertex of the polygon is hit by any non-zero buffer around it. */
  lemma BufferedVertexHits(polygon: seq<Point>, k: nat, radius: real)
    requires k < |polygon|
    requires radius != 0.0
    ensures BufferedPointHits(polygon, polygon[k], radius)
  {
    VertexIsNearLine(polygon, k, radius);
  }

  /**
   * The buffer is open: a point outside the polygon whose outline is no
   * closer than `radius` (for instance exactly at `radius`) is not a hit.
   */
  lemma OutlineAtRadiusMisses(polygon: seq<Point>, point: Point, radius: real)
    requires |polygon| >= 2 && !RingContains(polygon, point)
    requires forall i :: 1 <= i < |polygon| ==> SegmentDistSqr(point, polygon, i) >= Sq(radius)
    ensures !BufferedPointHits(polygon, point, radius)
  {
  }

  // ---------------------------------------------------------------------------
  // polygonIntersectsMultiPolygon

  /** Some vertex of some ring of the multi-polygon is inside the polygon. */
  ghost predicate SomeRingPointInside(multiPolygon: seq<seq<Point>>, polygon: seq<Point>)
  {
    exists m :: 0 <= m < |multiPolygon| && SomePointInside(multiPolygon[m], polygon)
  }

  /** Some vertex of the polygon is inside the multi-polygon by the even-odd rule over all rings. */
  ghost predicate SomePointInsideMulti(polygon: seq<Point>, multiPolygon: seq<seq<Point>>)
  {
    exists k :: 0 <= k < |polygon| && MultiContains(multiPolygon, polygon[k])
  }

  /** An edge of the polygon crosses an edge of some ring. */
  ghost predicate CrossesSomeRing(polygon: seq<Point>, multiPolygon: seq<seq<Point>>)
  {
    exists m :: 0 <= m < |multiPolygon| && LinesCross(polygon, multiPolygon[m])
  }

  /**
   * A one-point polygon is tested as a point against the multi-polygon;
   * otherwise the three tests of the source are combined.
   */
  ghost predicate PolygonMeetsMultiPolygon(polygon: seq<Point>, multiPolygon: seq<seq<Point>>)
  {
    if |polygon| == 1 then MultiContains(multiPolygon, polygon[0])
    else
      SomeRingPointInside(multiPolygon, polygon) || SomePointInsideMulti(polygon, multiPolygon)
      || CrossesSomeRing(polygon, multiPolygon)
  }

  method PolygonIntersectsMultiPolygon(polygon: seq<Point>, multiPolygon: seq<seq<Point>>) returns (r: bool)
    ensures r == PolygonMeetsMultiPolygon(polygon, multiPolygon)
  {
    if |polygon| == 1 {
      r := MultiPolygonContainsPoint(multiPolygon, polygon[0]);
      return;
    }
    for m := 0 to |multiPolygon|
      invariant forall m' :: 0 <= m' < m ==> !SomePointInside(multiPolygon[m'], polygon)
    {
      r := AnyPointInside(multiPolygon[m], polygon);
      if r {
        return;
      }
    }
    for k := 0 to |polygon|
      invariant forall k' :: 0 <= k' < k ==> !MultiContains(multiPolygon, polygon[k'])
    {
      r := MultiPolygonContainsPoint(multiPolygon, polygon[k]);
      if r {
        return;
      }
    }
    for m := 0 to |multiPolygon|
      invariant forall m' :: 0 <= m' < m ==> !LinesCross(polygon, multiPolygon[m'])
    {
      r := LineIntersectsLine(polygon, multiPolygon[m]);
      if r {
        return;
      }
    }
    return false;
  }

  /**
   * Against a single ring, polygonIntersectsMultiPolygon answers as
   * polygonIntersectsPolygon does once the latter's early exits (an empty
   * polygon, disjoint bounding boxes) are passed.
   */
  lemma SingleRingMultiPolygon(polygon: seq<Point>, ring: seq<Point>)
    requires |polygon| > 1 && |ring| > 0
    requires BoxesIntersect(BoundingBox(polygon), BoundingBox(ring))
    ensures PolygonMeetsMultiPolygon(polygon, [ring]) == PolygonsIntersect(polygon, ring)
  {
    assert forall q :: MultiContains([ring], q) == RingContains(ring, q) by {
      forall q ensures MultiContains([ring], q) == RingContains(ring, q) {
        assert MultiParity([ring], q, 0) == false;
      }
    }
    assert SomeRingPointInside([ring], polygon) == SomePointInside(ring, polygon) by {
      assert [ring][0] == ring;
    }
    assert CrossesSomeRing(polygon, [ring]) == LinesCross(polygon, ring) by {
      assert [ring][0] == ring;
    }
  }

  // ---------------------------------------------------------------------------
  // lineIntersectsBufferedLine, polygonIntersectsBufferedMultiLine

  /** Some point of `points` is strictly within `radius` of `line`. */
  ghost predicate SomePointNear(points: seq<Point>, line: seq<Point>, radius: real)
  {
    exists k :: 0 <= k < |points| && NearLine(points[k], line, radius)
  }

  /**
   * The lines cross, or a point of one is strictly within `radius` of the
   * other; the crossing and the points of B are only tried when A has a
   * segment.
   */
  ghost predicate BufferedLinesMeet(lineA: seq<Point>, lineB: seq<Point>, radius: real)
  {
    (|lineA| > 1 && (LinesCross(lineA, lineB) || SomePointNear(lineB, lineA, radius)))
    || SomePointNear(lineA, lineB, radius)
  }

  /** Whether some point of `points` is near `line`, stopping at the first one that is. */
  method AnyPointNear(points: seq<Point>, line: seq<Point>, radius: real) returns (r: bool)
    ensures r == SomePointNear(points, line, radius)
  {
    for k := 0 to |points|
      invariant forall k' :: 0 <= k' < k ==> !NearLine(points[k'], line, radius)
    {
      var near := PointIntersectsBufferedLine(points[k], line, radius);
      if near {
        return true;
      }
    }
    return false;
  }

  method LineIntersectsBufferedLine(lineA: seq<Point>, lineB: seq<Point>, radius: real) returns (r: bool)
    ensures r == BufferedLinesMeet(lineA, lineB, radius)
  {
    if |lineA| > 1 {
      r := LineIntersectsLine(lineA, lineB);
      if r {
        return;
      }
      r := AnyPointNear(lineB, lineA, radius);
      if r {
        return;
      }
    }
    r := AnyPointNear(lineA, lineB, radius);
  }

  /** Between two lines that both have a segment, the buffered test is symmetric. */
  lemma BufferedLinesMeetSymmetric(lineA: seq<Point>, lineB: seq<Point>, radius: real)
    requires |lineA| > 1 && |lineB| > 1
    ensures BufferedLinesMeet(lineA, lineB, radius) == BufferedLinesMeet(lineB, lineA, radius)
  {
    LinesCrossSymmetric(lineA, lineB);
  }

  /** Two lines sharing a vertex meet under any non-zero buffer. */
  lemma SharedVertexMeets(lineA: seq<Point>, lineB: seq<Point>, i: nat, j: nat, radius: real)
    requires i < |lineA| && j < |lineB| && lineA[i] == lineB[j]
    requires radius != 0.0
    ensures BufferedLinesMeet(lineA, lineB, radius)
  {
    VertexIsNearLine(lineB, j, radius);
    assert NearLine(lineA[i], lineB, radius);
  }

  /**
   * Some line has a point inside the polygon (tried only when the polygon
   * has at least three points) or meets the polygon's outline within `radius`.
   */
  ghost predicate BufferedMultiLineHits(polygon: seq<Point>, multiLine: seq<seq<Point>>, radius: real)
  {
    exists m :: 0 <= m < |multiLine| && LineHits(polygon, multiLine[m], radius)
  }

  ghost predicate LineHits(polygon: seq<Point>, line: seq<Point>, radius: real)
  {
    (|polygon| >= 3 && SomePointInside(line, polygon)) || BufferedLinesMeet(polygon, line, radius)
  }

  method PolygonIntersectsBufferedMultiLine(polygon: seq<Point>, multiLine: seq<seq<Point>>, radius: real)
    returns (r: bool)
    ensures r == BufferedMultiLineHits(polygon, multiLine, radius)
  {
    for m := 0 to |multiLine|
      invariant forall m' :: 0 <= m' < m ==> !LineHits(polygon, multiLine[m'], radius)
    {
      var line := multiLine[m];
      if |polygon| >= 3 {
        r := AnyPointInside(line, polygon);
        if r {
          assert LineHits(polygon, multiLine[m], radius);
          return;
        }
      }
      r := LineIntersectsBufferedLine(polygon, line, radius);
      if r {
        assert LineHits(polygon, multiLine[m], radius);
        return;
      }
    }
    return false;
  }

  // ---------------------------------------------------------------------------
  // polygonIntersectsBox, edgeIntersectsBox

  /** The corners in the order the source lists them: (x1,y1), (x1,y2), (x2,y2), (x2,y1). */
  function Corners(boxX1: real, boxY1: real, boxX2: real, boxY2: real): (corners: seq<Point>)
    ensures |corners| == 4
  {
    [Point(boxX1, boxY1), Point(boxX1, boxY2), Point(boxX2, boxY2), Point(boxX2, boxY1)]
  }

  /**
   * An edge meets the box unless both ends lie beyond one side of it, or all
   * four corners are on the same side of the edge's line.
   */
  predicate EdgeIntersectsBox(e1: Point, e2: Point, corners: seq<Point>)
    requires |corners| == 4
  {
    var tl := corners[0];
    var br := corners[2];
    if (e1.x < tl.x && e2.x < tl.x) || (e1.x > br.x && e2.x > br.x)
       || (e1.y < tl.y && e2.y < tl.y) || (e1.y > br.y && e2.y > br.y)
    then false
    else
      var dir := IsCounterClockwise(e1, e2, corners[0]);
      dir != IsCounterClockwise(e1, e2, corners[1]) || dir != IsCounterClockwise(e1, e2, corners[2])
      || dir != IsCounterClockwise(e1, e2, corners[3])
  }

  /**
   * When no corner lies on the edge's line, the test does not depend on the
   * direction the edge is walked in.
   */
  lemma EdgeIntersectsBoxReversed(e1: Point, e2: Point, corners: seq<Point>)
    requires |corners| == 4
    requires forall k :: 0 <= k < 4 ==> Cross(e1, e2, corners[k]) != 0.0
    ensures EdgeIntersectsBox(e1, e2, corners) == EdgeIntersectsBox(e2, e1, corners)
  {
    CounterClockwiseSwap(e1, e2, corners[0]);
    CounterClockwiseSwap(e1, e2, corners[1]);
    CounterClockwiseSwap(e1, e2, corners[2]);
    CounterClockwiseSwap(e1, e2, corners[3]);
  }

  /**
   * With a corner on the edge's line the strict orientation test reads that
   * corner as clockwise in both directions, so an edge through the corner
   * (0, 0) of the unit box meets it one way round and misses it the other.
   */
  lemma EdgeIntersectsBoxDependsOnDirection()
    ensures EdgeIntersectsBox(Point(-1.0, 1.0), Point(1.0, -1.0), Corners(0.0, 0.0, 1.0, 1.0))
    ensures !EdgeIntersectsBox(Point(1.0, -1.0), Point(-1.0, 1.0), Corners(0.0, 0.0, 1.0, 1.0))
  {
  }

  /** Edge i of the ring (from point i - 1 to point i) meets the box. */
  predicate EdgeMeetsBoxAt(ring: seq<Point>, i: int, corners: seq<Point>)
    requires 1 <= i < |ring| && |corners| == 4
  {
    EdgeIntersectsBox(ring[i - 1], ring[i], corners)
  }

  /**
   * A vertex lies in the closed box, a corner lies inside a ring of at least
   * three points, or an edge of the open chain meets the box.
   */
  ghost predicate RingMeetsBox(ring: seq<Point>, boxX1: real, boxY1: real, boxX2: real, boxY2: real)
  {
    var corners := Corners(boxX1, boxY1, boxX2, boxY2);
    (exists k :: 0 <= k < |ring| && InClosedBox(ring[k], Box(boxX1, boxY1, boxX2, boxY2)))
    || (|ring| > 2 && exists c :: 0 <= c < 4 && RingContains(ring, corners[c]))
    || (exists i :: 1 <= i < |ring| && EdgeMeetsBoxAt(ring, i, corners))
  }

  method PolygonIntersectsBox(ring: seq<Point>, boxX1: real, boxY1: real, boxX2: real, boxY2: real)
    returns (r: bool)
    ensures r == RingMeetsBox(ring, boxX1, boxY1, boxX2, boxY2)
    ensures (exists k :: 0 <= k < |ring| && InClosedBox(ring[k], Box(boxX1, boxY1, boxX2, boxY2))) ==> r
    ensures |ring| == 0 ==> !r
  {
    for k := 0 to |ring|
      invariant forall k' :: 0 <= k' < k ==> !InClosedBox(ring[k'], Box(boxX1, boxY1, boxX2, boxY2))
    {
      var p := ring[k];
      if boxX1 <= p.x && boxY1 <= p.y && boxX2 >= p.x && boxY2 >= p.y {
        assert InClosedBox(ring[k], Box(boxX1, boxY1, boxX2, boxY2));
        return true;
      }
    }
    var corners := Corners(boxX1, boxY1, boxX2, boxY2);
    if |ring| > 2 {
      for c := 0 to 4
        invariant forall c' :: 0 <= c' < c ==> !RingContains(ring, corners[c'])
      {
        r := PolygonContainsPoint(ring, corners[c]);
        if r {
          return;
        }
      }
    }
    if |ring| == 0 {
      // `ring[0]` is undefined and the loop below does not run
      return false;
    }
    var p1 := ring[0];
    for i := 1 to |ring|
      invariant p1 == ring[i - 1]
      invariant forall i' :: 1 <= i' < i ==> !EdgeMeetsBoxAt(ring, i', corners)
    {
      var p2 := ring[i];
      if EdgeIntersectsBox(p1, p2, corners) {
        assert EdgeMeetsBoxAt(ring, i, corners);
        return true;
      }
      p1 := p2;
    }
    return false;
  }
}
