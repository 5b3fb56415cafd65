/**
 * Orientation, signed area, closure and bounding boxes of point rings
 * (lib/util.js).
 */
module Util {

  /** A point of the plane; the library's `{x, y}` objects. */
  datatype Point = Point(x: real, y: real)

  /** An axis-aligned box `{minX, minY, maxX, maxY}`. */
  datatype Box = Box(minX: real, minY: real, maxX: real, maxY: real)

  /** p lies in the box, sides included. */
  predicate InClosedBox(p: Point, b: Box)
  {
    b.minX <= p.x <= b.maxX && b.minY <= p.y <= b.maxY
  }

  function Abs(v: real): real { if v < 0.0 then -v else v }

  function Min(a: real, b: real): real { if a <= b then a else b }

  function Max(a: real, b: real): real { if a <= b then b else a }

  /** The index of the point before `i` in a ring read as a closed loop. */
  function Prev(ring: seq<Point>, i: nat): (j: nat)
    requires i < |ring|
    ensures j < |ring|
    ensures i > 0 ==> j + 1 == i
  {
    if i == 0 then |ring| - 1 else i - 1
  }

  function Reverse(s: seq<Point>): (r: seq<Point>)
    ensures |r| == |s|
    ensures forall i :: 0 <= i < |s| ==> r[i] == s[|s| - 1 - i]
  {
    seq(|s|, i requires 0 <= i < |s| => s[|s| - 1 - i])
  }

  // ---------------------------------------------------------------------------
  // isCounterClockwise

  /** True iff a, b, c turn strictly counter-clockwise (false when collinear). */
  predicate IsCounterClockwise(a: Point, b: Point, c: Point)
  {
    (c.y - a.y) * (b.x - a.x) > (b.y - a.y) * (c.x - a.x)
  }

  /** Twice the signed area of the triangle a, b, c. */
  function Cross(a: Point, b: Point, c: Point): real
  {
    (b.x - a.x) * (c.y - a.y) - (b.y - a.y) * (c.x - a.x)
  }

  lemma CounterClockwiseIsPositiveCross(a: Point, b: Point, c: Point)
    ensures IsCounterClockwise(a, b, c) <==> Cross(a, b, c) > 0.0
  {
  }

  /**
   * Swapping the first two points turns the triangle over; only a point on
   * the line through them is counter-clockwise in neither order.
   */
  lemma CounterClockwiseSwap(a: Point, b: Point, c: Point)
    ensures Cross(b, a, c) == -Cross(a, b, c)
    ensures Cross(a, b, c) != 0.0 ==> IsCounterClockwise(b, a, c) == !IsCounterClockwise(a, b, c)
  {
    assert Cross(a, b, c) == b.x * c.y - b.x * a.y - a.x * c.y - b.y * c.x + b.y * a.x + a.y * c.x;
    assert Cross(b, a, c) == a.x * c.y - a.x * b.y - b.x * c.y - a.y * c.x + a.y * b.x + b.y * c.x;
    CounterClockwiseIsPositiveCross(a, b, c);
    CounterClockwiseIsPositiveCross(b, a, c);
  }

  /** The orientation of a triangle does not depend on which corner is read first. */
  lemma CounterClockwiseRotate(a: Point, b: Point, c: Point)
    ensures IsCounterClockwise(a, b, c) == IsCounterClockwise(b, c, a)
  {
    assert Cross(a, b, c) == Cross(b, c, a) by {
      assert Cross(a, b, c) == b.x * c.y - b.x * a.y - a.x * c.y - b.y * c.x + b.y * a.x + a.y * c.x;
      assert Cross(b, c, a) == c.x * a.y - c.x * b.y - b.x * a.y - c.y * a.x + c.y * b.x + b.y * a.x;
    }
    CounterClockwiseIsPositiveCross(a, b, c);
    CounterClockwiseIsPositiveCross(b, c, a);
  }

  /** Reading a triangle backwards never gives a second counter-clockwise turn. */
  lemma CounterClockwiseReverse(a: Point, b: Point, c: Point)
    ensures !(IsCounterClockwise(a, b, c) && IsCounterClockwise(c, b, a))
  {
    assert Cross(c, b, a) == -Cross(a, b, c) by {
      assert Cross(a, b, c) == b.x * c.y - b.x * a.y - a.x * c.y - b.y * c.x + b.y * a.x + a.y * c.x;
      assert Cross(c, b, a) == b.x * a.y - b.x * c.y - c.x * a.y - b.y * a.x + b.y * c.x + c.y * a.x;
    }
    CounterClockwiseIsPositiveCross(a, b, c);
    CounterClockwiseIsPositiveCross(c, b, a);
  }

  /** Collinear points (c on the line through a and b) are never counter-clockwise. */
  lemma CollinearNotCounterClockwise(a: Point, b: Point, s: real)
    ensures !IsCounterClockwise(a, b, Point(a.x + s * (b.x - a.x), a.y + s * (b.y - a.y)))
  {
    var c := Point(a.x + s * (b.x - a.x), a.y + s * (b.y - a.y));
    assert c.y - a.y == s * (b.y - a.y);
    assert c.x - a.x == s * (b.x - a.x);
    assert (c.y - a.y) * (b.x - a.x) == s * ((b.y - a.y) * (b.x - a.x));
    assert (b.y - a.y) * (c.x - a.x) == s * ((b.y - a.y) * (b.x - a.x));
  }

  /** Coincident points are never counter-clockwise. */
  lemma CoincidentNotCounterClockwise(a: Point, b: Point, c: Point)
    requires a == b || b == c || a == c
    ensures !IsCounterClockwise(a, b, c)
  {
  }

  // ---------------------------------------------------------------------------
  // calculateSignedArea

  /** The contribution of the edge from `p2` to `p1` to the shoelace sum. */
  function Term(p2: Point, p1: Point): real
  {
    (p2.x - p1.x) * (p1.y + p2.y)
  }

  /** The shoelace sum over the open chain s[0], s[1], ..., s[|s|-1]. */
  function Chain(s: seq<Point>): real
    decreases |s|
  {
    if |s| < 2 then 0.0 else Chain(s[..|s| - 1]) + Term(s[|s| - 2], s[|s| - 1])
  }

  /**
   * The shoelace sum over the closed ring: twice the enclosed area, zero for
   * an empty ring. It is positive when the ring turns the way
   * `IsCounterClockwise` calls counter-clockwise (see `TriangleArea`): that
   * is counter-clockwise with y pointing up, and clockwise with y pointing
   * down as in tile coordinates.
   */
  function SignedArea(ring: seq<Point>): real
  {
    if |ring| == 0 then 0.0 else Term(ring[|ring| - 1], ring[0]) + Chain(ring)
  }

  /** lib/util.js calculateSignedArea: one pass carrying the previous point. */
  method CalculateSignedArea(ring: seq<Point>) returns (sum: real)
    ensures sum == SignedArea(ring)
  {
    sum := 0.0;
    var len := |ring|;
    if len == 0 {
      // the previous point would be `ring[-1]`; the loop body never runs
      return;
    }
    var p2 := ring[len - 1];
    for k := 0 to len
      invariant k > 0 ==> p2 == ring[k - 1]
      invariant k == 0 ==> p2 == ring[len - 1] && sum == 0.0
      invariant k > 0 ==> sum == Term(ring[len - 1], ring[0]) + Chain(ring[..k])
    {
      var p1 := ring[k];
      sum := sum + (p2.x - p1.x) * (p1.y + p2.y);
      if k > 0 {
        assert ring[..k + 1][..k] == ring[..k];
      }
      p2 := p1;
    }
    assert ring[..len] == ring;
  }

  /** Rings of fewer than three points enclose nothing. */
  lemma ShortRingHasNoArea(ring: seq<Point>)
    requires |ring| <= 2
    ensures SignedArea(ring) == 0.0
  {
    if |ring| == 2 {
      assert ring[..1][..0] == ring[..0];
      assert Chain(ring) == Term(ring[0], ring[1]);
    }
  }

  /** An edge read backwards contributes the opposite amount. */
  lemma TermSwap(p: Point, q: Point)
    ensures Term(q, p) == -Term(p, q)
  {
  }

  /** Prepending a point to a chain adds the edge it opens. */
  lemma {:induction false} ChainCons(p: Point, t: seq<Point>)
    requires |t| > 0
    ensures Chain([p] + t) == Term(p, t[0]) + Chain(t)
    decreases |t|
  {
    if |t| == 1 {
      assert ([p] + t)[..1] == [p];
    } else {
      var s := [p] + t;
      assert s[..|s| - 1] == [p] + t[..|t| - 1];
      ChainCons(p, t[..|t| - 1]);
    }
  }

  lemma {:induction false} ChainReverse(s: seq<Point>)
    ensures Chain(Reverse(s)) == -Chain(s)
    decreases |s|
  {
    if |s| >= 2 {
      var init := s[..|s| - 1];
      var p := s[|s| - 1];
      assert Reverse(s) == [p] + Reverse(init);
      ChainReverse(init);
      ChainCons(p, Reverse(init));
      TermSwap(s[|s| - 2], p);
    } else if |s| == 1 {
      assert Reverse(s) == s;
    }
  }

  /** Reversing the order of a ring negates its signed area. */
  lemma ReverseNegatesSignedArea(ring: seq<Point>)
    ensures SignedArea(Reverse(ring)) == -SignedArea(ring)
  {
    ChainReverse(ring);
    if |ring| > 0 {
      TermSwap(ring[0], ring[|ring| - 1]);
    }
  }

  /** The point at parameter t on the line through a with direction d. */
  function OnLine(a: Point, d: Point, t: real): Point
  {
    Point(a.x + t * d.x, a.y + t * d.y)
  }

  /** Along one line, each shoelace term is a difference of this potential. */
  function LinePotential(a: Point, d: Point, t: real): real
  {
    2.0 * a.y * d.x * t + d.x * d.y * t * t
  }

  lemma TermOnLine(a: Point, d: Point, t1: real, t2: real)
    ensures Term(OnLine(a, d, t2), OnLine(a, d, t1)) == LinePotential(a, d, t2) - LinePotential(a, d, t1)
  {
    var p1, p2 := OnLine(a, d, t1), OnLine(a, d, t2);
    assert p2.x - p1.x == (t2 - t1) * d.x;
    assert p1.y + p2.y == 2.0 * a.y + (t1 + t2) * d.y;
    assert (t2 - t1) * d.x * (2.0 * a.y + (t1 + t2) * d.y)
        == 2.0 * a.y * d.x * (t2 - t1) + d.x * d.y * (t2 * t2 - t1 * t1);
  }

  /** The shoelace sum of an open chain along one line telescopes to its two ends. */
  lemma {:induction false} ChainOnLine(s: seq<Point>, a: Point, d: Point, ts: seq<real>)
    requires |s| > 0 && |ts| == |s|
    requires forall i :: 0 <= i < |s| ==> s[i] == OnLine(a, d, ts[i])
    ensures Chain(s) == LinePotential(a, d, ts[0]) - LinePotential(a, d, ts[|s| - 1])
    decreases |s|
  {
    if |s| >= 2 {
      ChainOnLine(s[..|s| - 1], a, d, ts[..|s| - 1]);
      TermOnLine(a, d, ts[|s| - 1], ts[|s| - 2]);
    }
  }

  /**
   * A ring collapsed onto one line (horizontal, vertical or slanted), as
   * polygon simplification can leave it, has zero signed area.
   */
  lemma CollapsedRingHasNoArea(ring: seq<Point>, a: Point, d: Point, ts: seq<real>)
    requires |ts| == |ring|
    requires forall i :: 0 <= i < |ring| ==> ring[i] == OnLine(a, d, ts[i])
    ensures SignedArea(ring) == 0.0
  {
    if |ring| > 0 {
      ChainOnLine(ring, a, d, ts);
      TermOnLine(a, d, ts[0], ts[|ring| - 1]);
    }
  }

  /**
   * On a triangle the shoelace sum is the cross product, so it is positive
   * exactly when `isCounterClockwise` holds.
   */
  lemma TriangleArea(a: Point, b: Point, c: Point)
    ensures SignedArea([a, b, c]) == Cross(a, b, c)
    ensures SignedArea([a, b, c]) > 0.0 <==> IsCounterClockwise(a, b, c)
  {
    assert [a, b, c][..2] == [a, b];
    assert [a, b][..1] == [a];
    assert Chain([a, b]) == Term(a, b);
    assert Chain([a, b, c]) == Chain([a, b]) + Term(b, c);
    assert Term(c, a) + Term(a, b) + Term(b, c) == Cross(a, b, c);
    CounterClockwiseIsPositiveCross(a, b, c);
  }

  /** The shoelace sum of a closed five-point ring, edge by edge. */
  lemma FivePointRing(a: Point, b: Point, c: Point, d: Point, e: Point)
    ensures SignedArea([a, b, c, d, e]) == Term(e, a) + Term(a, b) + Term(b, c) + Term(c, d) + Term(d, e)
  {
    assert [a, b][..1] == [a];
    assert Chain([a, b]) == Term(a, b);
    assert [a, b, c][..2] == [a, b];
    assert Chain([a, b, c]) == Chain([a, b]) + Term(b, c);
    assert [a, b, c, d][..3] == [a, b, c];
    assert Chain([a, b, c, d]) == Chain([a, b, c]) + Term(c, d);
    assert [a, b, c, d, e][..4] == [a, b, c, d];
    assert Chain([a, b, c, d, e]) == Chain([a, b, c, d]) + Term(d, e);
  }

  /** The 10 x 10 square read clockwise and counter-clockwise: twice its area, +/-. */
  lemma SquareSignedArea()
    ensures SignedArea([Point(0.0, 0.0), Point(10.0, 0.0), Point(10.0, 10.0), Point(0.0, 10.0), Point(0.0, 0.0)]) == 200.0
    ensures SignedArea([Point(0.0, 0.0), Point(0.0, 10.0), Point(10.0, 10.0), Point(10.0, 0.0), Point(0.0, 0.0)]) == -200.0
  {
    FivePointRing(Point(0.0, 0.0), Point(10.0, 0.0), Point(10.0, 10.0), Point(0.0, 10.0), Point(0.0, 0.0));
    FivePointRing(Point(0.0, 0.0), Point(0.0, 10.0), Point(10.0, 10.0), Point(10.0, 0.0), Point(0.0, 0.0));
  }

  // ---------------------------------------------------------------------------
  // isClosedPolygon

  /**
   * lib/util.js isClosedPolygon: at least four points, first equal to last,
   * and a signed area of magnitude above 0.01.
   */
  predicate IsClosedPolygon(points: seq<Point>)
  {
    if |points| < 4 then false
    else
      var p1 := points[0];
      var p2 := points[|points| - 1];
      if Abs(p1.x - p2.x) > 0.0 || Abs(p1.y - p2.y) > 0.0 then false
      else Abs(SignedArea(points)) > 0.01
  }

  lemma ClosedPolygonMeaning(points: seq<Point>)
    ensures IsClosedPolygon(points) <==>
      |points| >= 4 && points[0] == points[|points| - 1] && Abs(SignedArea(points)) > 0.01
  {
  }

  /** Whether a ring is closed does not depend on its orientation. */
  lemma ClosedPolygonReverse(points: seq<Point>)
    ensures IsClosedPolygon(Reverse(points)) == IsClosedPolygon(points)
  {
    ReverseNegatesSignedArea(points);
  }

  // ---------------------------------------------------------------------------
  // getBoundingBox (its body is not part of this model; specified by its tests)

  /**
   * The smallest box holding every point of the ring; the all-zero box for
   * an empty ring.
   */
  function BoundingBox(ring: seq<Point>): (b: Box)
    ensures |ring| == 0 ==> b == Box(0.0, 0.0, 0.0, 0.0)
    ensures forall p :: p in ring ==> b.minX <= p.x <= b.maxX && b.minY <= p.y <= b.maxY
    ensures |ring| > 0 ==> (exists p :: p in ring && p.x == b.minX) && (exists p :: p in ring && p.x == b.maxX)
    ensures |ring| > 0 ==> (exists p :: p in ring && p.y == b.minY) && (exists p :: p in ring && p.y == b.maxY)
    decreases |ring|
  {
    if |ring| == 0 then Box(0.0, 0.0, 0.0, 0.0)
    else if |ring| == 1 then Box(ring[0].x, ring[0].y, ring[0].x, ring[0].y)
    else
      var b := BoundingBox(ring[..|ring| - 1]);
      var p := ring[|ring| - 1];
      assert forall q :: q in ring ==> q in ring[..|ring| - 1] || q == p;
      assert forall q :: q in ring[..|ring| - 1] ==> q in ring;
      Box(Min(b.minX, p.x), Min(b.minY, p.y), Max(b.maxX, p.x), Max(b.maxY, p.y))
  }
}
