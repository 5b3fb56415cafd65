/**
 * Pole of inaccessibility (lib/poi.js): the point inside a polygon farthest
 * from its outline, approached by a best-first search over square cells.
 * A cell records its centre, half its side, the signed distance from its
 * centre to the outline (positive inside) and an upper bound on the
 * distance reachable within it. Math.sqrt is the parameter `sqrt`.
 */
module Poi {
  import opened Wrappers
  import opened Util
  import opened Arith
  import opened Intersections

  /** Math.SQRT2, the double nearest the square root of two, as an exact real. */
  const Sqrt2: real := 1.4142135623730951454746218587388284504413604736328125

  datatype Cell = Cell(p: Point, h: real, d: real, max: real)

  // ---------------------------------------------------------------------------
  // pointToPolygonDist

  /** Some ring has a point, so the polygon has at least one edge. */
  predicate HasEdge(polygon: seq<seq<Point>>)
  {
    exists k :: 0 <= k < |polygon| && |polygon[k]| > 0
  }

  /** Squared distance from p to edge i of a ring, which joins point i to the point before it. */
  function EdgeDistSq(p: Point, ring: seq<Point>, i: nat): real
    requires i < |ring|
  {
    DistToSegmentSquared(p, ring[i], ring[Prev(ring, i)])
  }

  /** The smaller of the least value so far (None: positive infinity) and v. */
  function Lower(least: Option<real>, v: real): real
  {
    if least.None? || v < least.value then v else least.value
  }

  /** The least squared edge distance after the first k edges of a ring, starting from acc. */
  function RingMin(p: Point, ring: seq<Point>, k: nat, acc: Option<real>): Option<real>
    requires k <= |ring|
  {
    if k == 0 then acc else Some(Lower(RingMin(p, ring, k - 1, acc), EdgeDistSq(p, ring, k - 1)))
  }

  /** The least squared edge distance over the first m rings; None when they have no edge. */
  function PolygonMin(p: Point, polygon: seq<seq<Point>>, m: nat): Option<real>
    requires m <= |polygon|
  {
    if m == 0 then None else RingMin(p, polygon[m - 1], |polygon[m - 1]|, PolygonMin(p, polygon, m - 1))
  }

  function MinDistSq(p: Point, polygon: seq<seq<Point>>): Option<real>
  {
    PolygonMin(p, polygon, |polygon|)
  }

  lemma {:induction false} RingMinIsLeast(p: Point, ring: seq<Point>, k: nat, acc: Option<real>)
    requires k <= |ring|
    ensures RingMin(p, ring, k, acc).Some? <==> k > 0 || acc.Some?
    ensures RingMin(p, ring, k, acc).Some? && acc.Some? ==> RingMin(p, ring, k, acc).value <= acc.value
    ensures forall i :: 0 <= i < k ==> RingMin(p, ring, k, acc).value <= EdgeDistSq(p, ring, i)
    ensures RingMin(p, ring, k, acc).Some? ==>
      (acc.Some? && RingMin(p, ring, k, acc).value == acc.value)
      || exists i :: 0 <= i < k && RingMin(p, ring, k, acc).value == EdgeDistSq(p, ring, i)
  {
    if k > 0 {
      RingMinIsLeast(p, ring, k - 1, acc);
    }
  }

  lemma {:induction false} PolygonMinIsLeast(p: Point, polygon: seq<seq<Point>>, m: nat)
    requires m <= |polygon|
    ensures PolygonMin(p, polygon, m).Some? <==> exists k :: 0 <= k < m && |polygon[k]| > 0
    ensures forall k, i :: 0 <= k < m && 0 <= i < |polygon[k]| ==>
      PolygonMin(p, polygon, m).value <= EdgeDistSq(p, polygon[k], i)
    ensures PolygonMin(p, polygon, m).Some? ==>
      exists k, i :: 0 <= k < m && 0 <= i < |polygon[k]| && PolygonMin(p, polygon, m).value == EdgeDistSq(p, polygon[k], i)
  {
    if m > 0 {
      PolygonMinIsLeast(p, polygon, m - 1);
      var acc := PolygonMin(p, polygon, m - 1);
      RingMinIsLeast(p, polygon[m - 1], |polygon[m - 1]|, acc);
      var r := PolygonMin(p, polygon, m);
      if r.Some? {
        if acc.Some? && r.value == acc.value {
          var k, i :| 0 <= k < m - 1 && 0 <= i < |polygon[k]| && acc.value == EdgeDistSq(p, polygon[k], i);
          assert 0 <= k < m && 0 <= i < |polygon[k]| && r.value == EdgeDistSq(p, polygon[k], i);
        } else {
          var i :| 0 <= i < |polygon[m - 1]| && r.value == EdgeDistSq(p, polygon[m - 1], i);
          assert 0 <= m - 1 < m && r.value == EdgeDistSq(p, polygon[m - 1], i);
        }
      }
    }
  }

  /**
   * The minimum in `pointToPolygonDist` is taken over every edge of every
   * ring, wrap-around edges included: it exists exactly when some ring has a
   * point, is at most every edge's squared distance, is attained by one,
   * and is never negative.
   */
  lemma MinDistSqIsLeast(p: Point, polygon: seq<seq<Point>>)
    ensures MinDistSq(p, polygon).Some? <==> HasEdge(polygon)
    ensures forall k, i :: 0 <= k < |polygon| && 0 <= i < |polygon[k]| ==>
      MinDistSq(p, polygon).value <= EdgeDistSq(p, polygon[k], i)
    ensures MinDistSq(p, polygon).Some? ==>
      exists k, i :: 0 <= k < |polygon| && 0 <= i < |polygon[k]| && MinDistSq(p, polygon).value == EdgeDistSq(p, polygon[k], i)
    ensures MinDistSq(p, polygon).Some? ==> MinDistSq(p, polygon).value >= 0.0
  {
    PolygonMinIsLeast(p, polygon, |polygon|);
    if MinDistSq(p, polygon).Some? {
      var k, i :| 0 <= k < |polygon| && 0 <= i < |polygon[k]| && MinDistSq(p, polygon).value == EdgeDistSq(p, polygon[k], i);
    }
  }

  /** The distance from p to the outline, positive when p is inside by the even-odd rule. */
  function SignedDist(p: Point, polygon: seq<seq<Point>>, sqrt: real -> real): real
    requires HasEdge(polygon)
  {
    MinDistSqDefined(p, polygon);
    var minDist := sqrt(MinDistSq(p, polygon).value);
    if MultiContains(polygon, p) then minDist else -minDist
  }

  lemma MinDistSqDefined(p: Point, polygon: seq<seq<Point>>)
    requires HasEdge(polygon)
    ensures MinDistSq(p, polygon).Some?
  {
    MinDistSqIsLeast(p, polygon);
  }

  /** `pointToPolygonDist`: one pass over every edge, toggling `inside` and keeping the least squared distance. */
  method PointToPolygonDist(p: Point, polygon: seq<seq<Point>>, sqrt: real -> real) returns (d: real)
    requires HasEdge(polygon)
    ensures d == SignedDist(p, polygon, sqrt)
  {
    var inside := false;
    var minDistSq: Option<real> := None; // Number.POSITIVE_INFINITY
    for m := 0 to |polygon|
      invariant inside == MultiParity(polygon, p, m)
      invariant minDistSq == PolygonMin(p, polygon, m)
    {
      var ring := polygon[m];
      ghost var before := inside;
      ghost var acc := minDistSq;
      var i, j := 0, |ring| - 1;
      while i < |ring|
        invariant 0 <= i <= |ring|
        invariant i < |ring| ==> j == Prev(ring, i)
        invariant inside == (before != Parity(ring, p, i))
        invariant minDistSq == RingMin(p, ring, i, acc)
      {
        var a := ring[i];
        var b := ring[j];
        if EdgeCrosses(a, b, p) {
          inside := !inside;
        }
        var distSq := DistToSegmentSquared(p, a, b);
        if minDistSq.None? || distSq < minDistSq.value {
          minDistSq := Some(distSq);
        }
        j := i;
        i := i + 1;
      }
    }
    MinDistSqIsLeast(p, polygon);
    var minDist := sqrt(minDistSq.value);
    d := if inside then minDist else -minDist;
  }

  /** What is asked of Math.sqrt: a non-negative square root of every non-negative number. */
  ghost predicate IsSqrt(sqrt: real -> real)
  {
    forall x :: 0.0 <= x ==> 0.0 <= sqrt(x) && Sq(sqrt(x)) == x
  }

  /**
   * The signed distance is positive exactly when p is inside by the
   * even-odd rule (and off the outline), negative exactly when it is outside
   * (and off the outline), and its square is the least squared edge distance.
   */
  lemma SignedDistSign(p: Point, polygon: seq<seq<Point>>, sqrt: real -> real)
    requires HasEdge(polygon) && IsSqrt(sqrt)
    ensures MinDistSq(p, polygon).Some?
    ensures SignedDist(p, polygon, sqrt) > 0.0 <==> MultiContains(polygon, p) && MinDistSq(p, polygon).value > 0.0
    ensures SignedDist(p, polygon, sqrt) < 0.0 <==> !MultiContains(polygon, p) && MinDistSq(p, polygon).value > 0.0
    ensures Sq(SignedDist(p, polygon, sqrt)) == MinDistSq(p, polygon).value
  {
    MinDistSqIsLeast(p, polygon);
    var m := MinDistSq(p, polygon).value;
    var s := sqrt(m);
    assert 0.0 <= s && Sq(s) == m;
    SqSwap(s, 0.0);
    if s == 0.0 {
      assert m == 0.0;
    } else {
      SqPositive(s);
    }
  }

  /** A vertex of a ring is on the outline: its signed distance is zero. */
  lemma VertexOnOutline(polygon: seq<seq<Point>>, k: nat, i: nat, sqrt: real -> real)
    requires k < |polygon| && i < |polygon[k]| && IsSqrt(sqrt)
    ensures HasEdge(polygon)
    ensures SignedDist(polygon[k][i], polygon, sqrt) == 0.0
  {
    var p := polygon[k][i];
    var ring := polygon[k];
    DistToSegmentAtEndpoints(ring[i], ring[Prev(ring, i)]);
    assert EdgeDistSq(p, ring, i) == 0.0;
    MinDistSqIsLeast(p, polygon);
    assert MinDistSq(p, polygon).value == 0.0;
    SqrtOfZero(sqrt);
  }

  lemma SqrtOfZero(sqrt: real -> real)
    requires IsSqrt(sqrt)
    ensures sqrt(0.0) == 0.0
  {
    var s := sqrt(0.0);
    assert 0.0 <= s && Sq(s) == 0.0;
    if s != 0.0 {
      SqPositive(s);
    }
  }

  // ---------------------------------------------------------------------------
  // makeCell and compareMax

  /** `makeCell`: the cell centred at (x, y) with half-side h; max is d + h * Math.SQRT2. */
  function MakeCell(x: real, y: real, h: real, polygon: seq<seq<Point>>, sqrt: real -> real): (c: Cell)
    requires HasEdge(polygon)
    ensures CellOf(c, polygon, sqrt)
    ensures c.p == Point(x, y) && c.h == h
  {
    var p := Point(x, y);
    var d := SignedDist(p, polygon, sqrt);
    Cell(p, h, d, d + Mul(h, Sqrt2))
  }

  /** A cell as `makeCell` builds it: d is the signed distance at its centre and max is d plus the half-diagonal. */
  predicate CellOf(c: Cell, polygon: seq<seq<Point>>, sqrt: real -> real)
    requires HasEdge(polygon)
  {
    c.d == SignedDist(c.p, polygon, sqrt) && c.max == c.d + Mul(c.h, Sqrt2)
  }

  /** A cell's bound is at least its centre's distance, and above it when the cell has size. */
  lemma CellMaxAboveDistance(c: Cell, polygon: seq<seq<Point>>, sqrt: real -> real)
    requires HasEdge(polygon) && CellOf(c, polygon, sqrt)
    ensures c.h >= 0.0 ==> c.max >= c.d
    ensures c.h > 0.0 ==> c.max > c.d
    ensures c.h == 0.0 ==> c.max == c.d
  {
    if c.h > 0.0 {
      MulPositive(c.h, Sqrt2);
    } else if c.h == 0.0 {
      MulZero(Sqrt2);
    }
  }

  /** `compareMax`: negative when a has the larger bound, so a is popped first. */
  function CompareMax(a: Cell, b: Cell): (r: real)
    ensures r < 0.0 <==> a.max > b.max
    ensures r == 0.0 <==> a.max == b.max
    ensures r > 0.0 <==> a.max < b.max
  {
    b.max - a.max
  }

  lemma CompareMaxAntisymmetric(a: Cell, b: Cell)
    ensures CompareMax(a, b) == -CompareMax(b, a)
  {
  }

  // ---------------------------------------------------------------------------
  // getCentroidCell

  datatype Sums = Sums(area: real, x: real, y: real)

  /** The cross product of the edge ends, `f` in the source. */
  function EdgeCross(a: Point, b: Point): real
  {
    Mul(a.x, b.y) - Mul(b.x, a.y)
  }

  /** The three accumulators after the first k edges of the ring. */
  function CentroidSums(points: seq<Point>, k: nat): Sums
    requires k <= |points|
  {
    if k == 0 then Sums(0.0, 0.0, 0.0)
    else
      var s := CentroidSums(points, k - 1);
      var a := points[k - 1];
      var b := points[Prev(points, k - 1)];
      var f := EdgeCross(a, b);
      Sums(s.area + f * 3.0, s.x + Mul(a.x + b.x, f), s.y + Mul(a.y + b.y, f))
  }

  /** Areas below this are treated as zero. */
  const AreaEpsilon: real := 0.0000000001

  /** The cell `getCentroidCell` returns. */
  function CentroidCell(polygon: seq<seq<Point>>, sqrt: real -> real): Cell
    requires HasEdge(polygon)
  {
    if |polygon| == 0 || |polygon[0]| == 0 then MakeCell(0.0, 0.0, 0.0, polygon, sqrt)
    else
      var points := polygon[0];
      var s := CentroidSums(points, |points|);
      if Abs(s.area) < AreaEpsilon then MakeCell(points[0].x, points[0].y, 0.0, polygon, sqrt)
      else MakeCell(s.x / s.area, s.y / s.area, 0.0, polygon, sqrt)
  }

  /** `getCentroidCell`: accumulate the area-weighted sums over the outer ring, then place the cell. */
  method GetCentroidCell(polygon: seq<seq<Point>>, sqrt: real -> real) returns (cell: Cell)
    requires HasEdge(polygon)
    ensures cell == CentroidCell(polygon, sqrt)
  {
    var area, x, y := 0.0, 0.0, 0.0;
    if |polygon| == 0 || |polygon[0]| == 0 {
      return MakeCell(0.0, 0.0, 0.0, polygon, sqrt);
    }
    var points := polygon[0];
    var i, j := 0, |points| - 1;
    while i < |points|
      invariant 0 <= i <= |points|
      invariant i < |points| ==> j == Prev(points, i)
      invariant Sums(area, x, y) == CentroidSums(points, i)
    {
      var a := points[i];
      var b := points[j];
      var f := EdgeCross(a, b);
      x := x + Mul(a.x + b.x, f);
      y := y + Mul(a.y + b.y, f);
      area := area + f * 3.0;
      j := i;
      i := i + 1;
    }
    if Abs(area) < AreaEpsilon {
      return MakeCell(points[0].x, points[0].y, 0.0, polygon, sqrt);
    }
    return MakeCell(x / area, y / area, 0.0, polygon, sqrt);
  }

  /** The product of a point's coordinates; it telescopes away round a closed ring. */
  function XY(p: Point): real
  {
    Mul(p.x, p.y)
  }

  /** One shoelace term of the signed area in terms of the centroid's cross product. */
  lemma TermIsCross(p2: Point, p1: Point)
    ensures Term(p2, p1) == -EdgeCross(p1, p2) + XY(p2) - XY(p1)
  {
  }

  lemma {:induction false} CentroidAreaPrefix(ring: seq<Point>, k: nat)
    requires 1 <= k <= |ring|
    ensures CentroidSums(ring, k).area
      == -3.0 * (Term(ring[|ring| - 1], ring[0]) + Chain(ring[..k])) + 3.0 * (XY(ring[|ring| - 1]) - XY(ring[k - 1]))
  {
    if k == 1 {
      TermIsCross(ring[|ring| - 1], ring[0]);
    } else {
      CentroidAreaPrefix(ring, k - 1);
      TermIsCross(ring[k - 2], ring[k - 1]);
      assert ring[..k][..k - 1] == ring[..k - 1];
    }
  }

  /**
   * The area accumulator is three times the shoelace sum of
   * `calculateSignedArea` with the opposite sign, so the weights x/area and
   * y/area are those of the ring's centroid.
   */
  lemma CentroidAreaIsSignedArea(ring: seq<Point>)
    ensures CentroidSums(ring, |ring|).area == -3.0 * SignedArea(ring)
  {
    if |ring| > 0 {
      CentroidAreaPrefix(ring, |ring|);
      assert ring[..|ring|] == ring;
    }
  }

  /** A ring with no area, such as a collapsed one, puts the centroid cell at its first point. */
  lemma FlatRingCentroidAtFirstPoint(polygon: seq<seq<Point>>, sqrt: real -> real)
    requires |polygon| > 0 && |polygon[0]| > 0 && SignedArea(polygon[0]) == 0.0
    ensures HasEdge(polygon)
    ensures CentroidCell(polygon, sqrt).p == polygon[0][0]
  {
    assert 0 < |polygon| && |polygon[0]| > 0;
    CentroidAreaIsSignedArea(polygon[0]);
  }

  // ---------------------------------------------------------------------------
  // The cell queue

  /** `cellQueue.pop()`: remove a cell that compareMax puts first, i.e. one of largest bound. */
  method PopMax(queue: seq<Cell>) returns (cell: Cell, rest: seq<Cell>)
    requires |queue| > 0
    ensures forall i :: 0 <= i < |queue| ==> CompareMax(cell, queue[i]) <= 0.0
    ensures exists k :: 0 <= k < |queue| && cell == queue[k] && rest == queue[..k] + queue[k + 1..]
    ensures multiset(rest) + multiset{cell} == multiset(queue)
  {
    var k := 0;
    for i := 1 to |queue|
      invariant 0 <= k < |queue|
      invariant forall j :: 0 <= j < i ==> queue[j].max <= queue[k].max
    {
      if queue[i].max > queue[k].max {
        k := i;
      }
    }
    cell := queue[k];
    rest := queue[..k] + queue[k + 1..];
    assert queue == queue[..k] + [cell] + queue[k + 1..];
  }

  // ---------------------------------------------------------------------------
  // The search loop

  /** Lines 61-63: a popped cell replaces the best one if it is farther inside, or if the best is at distance 0. */
  function UpdateBest(best: Cell, cell: Cell): (r: Cell)
    ensures r == best || r == cell
    ensures r.d >= cell.d
    ensures r.d < best.d ==> best.d == 0.0
    ensures best.d != 0.0 ==> r.d == Max(best.d, cell.d)
  {
    if cell.d > best.d || best.d == 0.0 then cell else best
  }

  /** The search's best distance can fall: from 0 to that of any later cell. */
  lemma BestCanFallFromZero(best: Cell, cell: Cell)
    requires best.d == 0.0 && cell.d < 0.0
    ensures UpdateBest(best, cell).d < best.d
  {
  }

  /** No probed cell with a positive distance is farther inside than best. */
  predicate Deepest(probes: seq<Cell>, best: Cell)
  {
    forall i :: 0 <= i < |probes| && probes[i].d > 0.0 ==> probes[i].d <= best.d
  }

  /**
   * Once the best distance is positive it never falls, so no cell probed
   * with a positive distance is ever left above the best.
   */
  lemma UpdateBestKeepsDeepest(probes: seq<Cell>, best: Cell, cell: Cell)
    requires Deepest(probes, best)
    ensures Deepest(probes + [cell], UpdateBest(best, cell))
  {
    var r := UpdateBest(best, cell);
    forall i | 0 <= i < |probes + [cell]| && (probes + [cell])[i].d > 0.0
      ensures (probes + [cell])[i].d <= r.d
    {
      if i < |probes| {
        assert (probes + [cell])[i] == probes[i];
      }
    }
  }

  /** The four quarters of a cell, in the order lines 73-76 push them. */
  function Split(cell: Cell, polygon: seq<seq<Point>>, sqrt: real -> real): (r: seq<Cell>)
    requires HasEdge(polygon)
    ensures |r| == 4
    ensures forall i :: 0 <= i < 4 ==> r[i].h == cell.h / 2.0 && CellOf(r[i], polygon, sqrt)
    ensures forall i :: 0 <= i < 4 ==> Abs(r[i].p.x - cell.p.x) == Abs(cell.h / 2.0) && Abs(r[i].p.y - cell.p.y) == Abs(cell.h / 2.0)
  {
    var h := cell.h / 2.0;
    [ MakeCell(cell.p.x - h, cell.p.y - h, h, polygon, sqrt),
      MakeCell(cell.p.x + h, cell.p.y - h, h, polygon, sqrt),
      MakeCell(cell.p.x - h, cell.p.y + h, h, polygon, sqrt),
      MakeCell(cell.p.x + h, cell.p.y + h, h, polygon, sqrt) ]
  }

  /** A cell whose half-diagonal is within precision is never split: its bound is within precision of the best. */
  lemma SmallCellNotSplit(best: Cell, cell: Cell, precision: real, polygon: seq<seq<Point>>, sqrt: real -> real)
    requires HasEdge(polygon) && CellOf(cell, polygon, sqrt)
    ensures Mul(cell.h, Sqrt2) <= precision ==> cell.max - UpdateBest(best, cell).d <= precision
  {
  }

  // ---------------------------------------------------------------------------
  // Termination: every split replaces a cell by four of a smaller depth

  function Pow5(n: nat): (r: nat)
    ensures r >= 1
  {
    if n == 0 then 1 else 5 * Pow5(n - 1)
  }

  lemma {:induction false} Pow5Grows(a: nat, b: nat)
    requires a < b
    ensures 4 * Pow5(a) < Pow5(b)
  {
    if a + 1 < b {
      Pow5Grows(a, b - 1);
    }
  }

  lemma RatioAboveOne(a: real, p: real)
    requires a > p > 0.0
    ensures a / p > 1.0
  {
    DivMul(a, p);
    if a / p <= 1.0 {
      MulNonNegative(1.0 - a / p, p);
      MulSub(1.0, a / p, p);
      MulOne(p);
    }
  }

  /** How many halvings a cell's half-diagonal is from the precision, roughly: zero once within it. */
  function Depth(h: real, precision: real): nat
    requires precision > 0.0
  {
    var a := Mul(h, Sqrt2);
    if a <= precision then 0
    else
      RatioAboveOne(a, precision);
      (a / precision).Floor
  }

  lemma DepthHalves(h: real, precision: real)
    requires precision > 0.0 && Mul(h, Sqrt2) > precision
    ensures Depth(h / 2.0, precision) < Depth(h, precision)
  {
    var a := Mul(h, Sqrt2);
    assert Mul(h / 2.0, Sqrt2) == a / 2.0;
    RatioAboveOne(a, precision);
    if a / 2.0 > precision {
      RatioAboveOne(a / 2.0, precision);
      var r := a / precision;
      assert (a / 2.0) / precision == r / 2.0;
      var n := r.Floor;
      var m := (r / 2.0).Floor;
      assert m as real <= r / 2.0 && r < n as real + 1.0;
      assert r > 2.0;
    }
  }

  function CellWeight(c: Cell, precision: real): nat
    requires precision > 0.0
  {
    Pow5(Depth(c.h, precision))
  }

  /** The termination measure: the queue's cells weighted by 5 to their depth. */
  function Weight(queue: seq<Cell>, precision: real): nat
    requires precision > 0.0
  {
    if |queue| == 0 then 0 else Weight(queue[..|queue| - 1], precision) + CellWeight(queue[|queue| - 1], precision)
  }

  lemma {:induction false} WeightAppend(a: seq<Cell>, b: seq<Cell>, precision: real)
    requires precision > 0.0
    ensures Weight(a + b, precision) == Weight(a, precision) + Weight(b, precision)
  {
    if |b| > 0 {
      WeightAppend(a, b[..|b| - 1], precision);
      assert (a + b)[..|a + b| - 1] == a + b[..|b| - 1];
    } else {
      assert a + b == a;
    }
  }

  /** Splitting a cell that is split lowers the measure. */
  lemma SplitLowersWeight(rest: seq<Cell>, cell: Cell, children: seq<Cell>, precision: real)
    requires precision > 0.0 && Mul(cell.h, Sqrt2) > precision
    requires |children| == 4 && forall i :: 0 <= i < 4 ==> children[i].h == cell.h / 2.0
    ensures Weight(rest + children, precision) < Weight(rest, precision) + CellWeight(cell, precision)
  {
    WeightAppend(rest, children, precision);
    DepthHalves(cell.h, precision);
    var w := Pow5(Depth(cell.h / 2.0, precision));
    assert Weight(children[..0], precision) == 0;
    assert children[..1][..0] == children[..0];
    assert children[..2][..1] == children[..1];
    assert children[..3][..2] == children[..2];
    assert children[..4] == children && children[..4][..3] == children[..3];
    assert Weight(children[..1], precision) == w;
    assert Weight(children[..2], precision) == 2 * w;
    assert Weight(children[..3], precision) == 3 * w;
    assert Weight(children, precision) == 4 * w;
    Pow5Grows(Depth(cell.h / 2.0, precision), Depth(cell.h, precision));
  }

  // ---------------------------------------------------------------------------
  // Seeding: a grid of square cells of side min(width, height) over the bounding box

  lemma DivNonNegative(n: real, d: real)
    requires n >= 0.0 && d > 0.0
    ensures n / d >= 0.0
  {
    DivMul(n, d);
    if n / d < 0.0 {
      MulNegative(n / d, d);
    }
  }

  function Width(ring: seq<Point>): real
  {
    BoundingBox(ring).maxX - BoundingBox(ring).minX
  }

  function Height(ring: seq<Point>): real
  {
    BoundingBox(ring).maxY - BoundingBox(ring).minY
  }

  /** Every cell of q is one `makeCell` built for this polygon. */
  ghost predicate AllCells(q: seq<Cell>, polygon: seq<seq<Point>>, sqrt: real -> real)
    requires HasEdge(polygon)
  {
    forall i :: 0 <= i < |q| ==> CellOf(q[i], polygon, sqrt)
  }

  lemma AllCellsAppend(a: seq<Cell>, b: seq<Cell>, polygon: seq<seq<Point>>, sqrt: real -> real)
    requires HasEdge(polygon)
    ensures AllCells(a + b, polygon, sqrt) <==> AllCells(a, polygon, sqrt) && AllCells(b, polygon, sqrt)
  {
    if AllCells(a, polygon, sqrt) && AllCells(b, polygon, sqrt) {
      forall i | 0 <= i < |a + b|
        ensures CellOf((a + b)[i], polygon, sqrt)
      {
        if i >= |a| {
          assert (a + b)[i] == b[i - |a|];
        }
      }
    }
    if AllCells(a + b, polygon, sqrt) {
      forall i | 0 <= i < |a|
        ensures CellOf(a[i], polygon, sqrt)
      {
        assert (a + b)[i] == a[i];
      }
      forall i | 0 <= i < |b|
        ensures CellOf(b[i], polygon, sqrt)
      {
        assert (a + b)[|a| + i] == b[i];
      }
    }
  }

  /** Removing the popped cell keeps the queue's cells genuine and lowers the measure by that cell's weight. */
  lemma PopKeeps(q: seq<Cell>, k: nat, precision: real, polygon: seq<seq<Point>>, sqrt: real -> real)
    requires k < |q| && precision > 0.0 && HasEdge(polygon) && AllCells(q, polygon, sqrt)
    ensures AllCells(q[..k] + q[k + 1..], polygon, sqrt)
    ensures CellOf(q[k], polygon, sqrt)
    ensures Weight(q, precision) == Weight(q[..k] + q[k + 1..], precision) + CellWeight(q[k], precision)
  {
    assert q == q[..k] + [q[k]] + q[k + 1..];
    AllCellsAppend(q[..k] + [q[k]], q[k + 1..], polygon, sqrt);
    AllCellsAppend(q[..k], [q[k]], polygon, sqrt);
    AllCellsAppend(q[..k], q[k + 1..], polygon, sqrt);
    WeightAppend(q[..k], q[k + 1..], precision);
    WeightAppend(q[..k], [q[k]], precision);
    WeightAppend(q[..k] + [q[k]], q[k + 1..], precision);
    assert [q[k]][..0] == [];
  }

  /** Pushing the four quarters of a cell that is split keeps the cells genuine and lowers the measure. */
  lemma PushFour(rest: seq<Cell>, cell: Cell, c0: Cell, c1: Cell, c2: Cell, c3: Cell, precision: real,
                 polygon: seq<seq<Point>>, sqrt: real -> real)
    requires precision > 0.0 && HasEdge(polygon) && AllCells(rest, polygon, sqrt)
    requires Mul(cell.h, Sqrt2) > precision
    requires c0 == MakeCell(cell.p.x - cell.h / 2.0, cell.p.y - cell.h / 2.0, cell.h / 2.0, polygon, sqrt)
    requires c1 == MakeCell(cell.p.x + cell.h / 2.0, cell.p.y - cell.h / 2.0, cell.h / 2.0, polygon, sqrt)
    requires c2 == MakeCell(cell.p.x - cell.h / 2.0, cell.p.y + cell.h / 2.0, cell.h / 2.0, polygon, sqrt)
    requires c3 == MakeCell(cell.p.x + cell.h / 2.0, cell.p.y + cell.h / 2.0, cell.h / 2.0, polygon, sqrt)
    ensures [c0, c1, c2, c3] == Split(cell, polygon, sqrt)
    ensures AllCells(rest + [c0, c1, c2, c3], polygon, sqrt)
    ensures Weight(rest + [c0, c1, c2, c3], precision) < Weight(rest, precision) + CellWeight(cell, precision)
  {
    var children := Split(cell, polygon, sqrt);
    assert children == [c0, c1, c2, c3];
    AllCellsAppend(rest, children, polygon, sqrt);
    SplitLowersWeight(rest, cell, children, precision);
  }

  /** Step a of the grid from lo in steps of size starts below hi. */
  predicate OnGrid(lo: real, hi: real, size: real, a: int)
  {
    0 <= a && lo + Mul(a as real, size) < hi
  }

  /** The seed cell of grid square (a, b): half-side cellSize / 2, centred in the square. */
  function GridCell(minX: real, minY: real, cellSize: real, a: int, b: int, polygon: seq<seq<Point>>, sqrt: real -> real): Cell
    requires HasEdge(polygon)
  {
    MakeCell(minX + Mul(a as real, cellSize) + cellSize / 2.0, minY + Mul(b as real, cellSize) + cellSize / 2.0,
             cellSize / 2.0, polygon, sqrt)
  }

  /** The cells are exactly the grid squares that start inside the box, each once or more. */
  ghost predicate SeedGrid(cells: seq<Cell>, minX: real, minY: real, maxX: real, maxY: real, cellSize: real,
                           polygon: seq<seq<Point>>, sqrt: real -> real)
    requires HasEdge(polygon)
  {
    && (forall a, b :: OnGrid(minX, maxX, cellSize, a) && OnGrid(minY, maxY, cellSize, b) ==>
          GridCell(minX, minY, cellSize, a, b, polygon, sqrt) in cells)
    && OnlyGridCells(cells, minX, minY, maxX, maxY, cellSize, polygon, sqrt)
  }

  /** Every cell is the seed cell of a grid square that starts inside the box. */
  ghost predicate OnlyGridCells(cells: seq<Cell>, minX: real, minY: real, maxX: real, maxY: real, cellSize: real,
                                polygon: seq<seq<Point>>, sqrt: real -> real)
    requires HasEdge(polygon)
  {
    forall k :: 0 <= k < |cells| ==>
      exists a, b :: OnGrid(minX, maxX, cellSize, a) && OnGrid(minY, maxY, cellSize, b)
                  && cells[k] == GridCell(minX, minY, cellSize, a, b, polygon, sqrt)
  }

  /** The columns before column i are all seeded. */
  ghost predicate ColumnsSeeded(cells: seq<Cell>, minX: real, minY: real, maxY: real, cellSize: real, i: int,
                                polygon: seq<seq<Point>>, sqrt: real -> real)
    requires HasEdge(polygon)
  {
    forall a, b :: 0 <= a < i && OnGrid(minY, maxY, cellSize, b) ==>
      GridCell(minX, minY, cellSize, a, b, polygon, sqrt) in cells
  }

  /** The squares of column i below row j are seeded. */
  ghost predicate RowsSeeded(cells: seq<Cell>, minX: real, minY: real, cellSize: real, i: int, j: int,
                             polygon: seq<seq<Point>>, sqrt: real -> real)
    requires HasEdge(polygon)
  {
    forall b :: 0 <= b < j ==> GridCell(minX, minY, cellSize, i, b, polygon, sqrt) in cells
  }

  /** Appending the seed cell of square (i, j) extends what is seeded and keeps every cell on the grid. */
  lemma SeedAppend(cells: seq<Cell>, minX: real, minY: real, maxX: real, maxY: real, cellSize: real, i: int, j: int,
                   polygon: seq<seq<Point>>, sqrt: real -> real)
    requires HasEdge(polygon) && OnGrid(minX, maxX, cellSize, i) && OnGrid(minY, maxY, cellSize, j)
    requires OnlyGridCells(cells, minX, minY, maxX, maxY, cellSize, polygon, sqrt)
    requires ColumnsSeeded(cells, minX, minY, maxY, cellSize, i, polygon, sqrt)
    requires RowsSeeded(cells, minX, minY, cellSize, i, j, polygon, sqrt)
    ensures var cells' := cells + [GridCell(minX, minY, cellSize, i, j, polygon, sqrt)];
      && OnlyGridCells(cells', minX, minY, maxX, maxY, cellSize, polygon, sqrt)
      && ColumnsSeeded(cells', minX, minY, maxY, cellSize, i, polygon, sqrt)
      && RowsSeeded(cells', minX, minY, cellSize, i, j + 1, polygon, sqrt)
  {
    var cell := GridCell(minX, minY, cellSize, i, j, polygon, sqrt);
    var cells' := cells + [cell];
    forall k | 0 <= k < |cells'|
      ensures exists a, b :: OnGrid(minX, maxX, cellSize, a) && OnGrid(minY, maxY, cellSize, b)
                          && cells'[k] == GridCell(minX, minY, cellSize, a, b, polygon, sqrt)
    {
      if k < |cells| {
        assert cells'[k] == cells[k];
      } else {
        assert cells'[k] == GridCell(minX, minY, cellSize, i, j, polygon, sqrt);
      }
    }
  }

  /** A column whose rows are seeded up to the first row at or past maxY is wholly seeded. */
  lemma ColumnSeeded(cells: seq<Cell>, minX: real, minY: real, maxY: real, cellSize: real, i: int, j: int,
                     polygon: seq<seq<Point>>, sqrt: real -> real)
    requires HasEdge(polygon) && cellSize > 0.0 && i >= 0
    requires minY + Mul(j as real, cellSize) >= maxY
    requires ColumnsSeeded(cells, minX, minY, maxY, cellSize, i, polygon, sqrt)
    requires RowsSeeded(cells, minX, minY, cellSize, i, j, polygon, sqrt)
    ensures ColumnsSeeded(cells, minX, minY, maxY, cellSize, i + 1, polygon, sqrt)
  {
    forall a, b | 0 <= a < i + 1 && OnGrid(minY, maxY, cellSize, b)
      ensures GridCell(minX, minY, cellSize, a, b, polygon, sqrt) in cells
    {
      if a == i {
        MulLess(b, j, cellSize);
      }
    }
  }

  /** One more step of the grid. */
  lemma MulSucc(a: int, size: real)
    ensures Mul((a + 1) as real, size) == Mul(a as real, size) + size
  {
    MulSub((a + 1) as real, 1.0, size);
    MulOne(size);
    assert (a + 1) as real - 1.0 == a as real;
  }

  /** With a positive step, a grid line below another one has a smaller index. */
  lemma MulLess(a: int, b: int, size: real)
    requires size > 0.0 && Mul(a as real, size) < Mul(b as real, size)
    ensures a < b
  {
    if a >= b {
      MulSub(a as real, b as real, size);
      MulNonNegative(a as real - b as real, size);
    }
  }

  /** The grid from lo in steps of size ends: some step n reaches hi, and every step below hi comes before it. */
  lemma GridEnd(lo: real, hi: real, size: real) returns (n: nat)
    requires size > 0.0
    ensures lo + Mul(n as real, size) >= hi
    ensures forall a :: OnGrid(lo, hi, size, a) ==> a < n
  {
    if hi <= lo {
      n := 0;
      MulZero(size);
    } else {
      var q := (hi - lo) / size;
      DivNonNegative(hi - lo, size);
      DivMul(hi - lo, size);
      n := q.Floor + 1;
      MulSub(n as real, q, size);
      MulPositive(n as real - q, size);
    }
    forall a | OnGrid(lo, hi, size, a)
      ensures a < n
    {
      MulLess(a, n, size);
    }
  }

  /**
   * Lines 34-40: one cell of half-side cellSize / 2 per grid square over the
   * bounding box: the squares whose corner lies below the box's maximum on
   * both axes, column by column.
   */
  method SeedCells(minX: real, minY: real, maxX: real, maxY: real, cellSize: real, polygon: seq<seq<Point>>, sqrt: real -> real)
    returns (cells: seq<Cell>)
    requires cellSize > 0.0 && HasEdge(polygon)
    ensures forall i :: 0 <= i < |cells| ==> cells[i].h == cellSize / 2.0 && CellOf(cells[i], polygon, sqrt)
    ensures SeedGrid(cells, minX, minY, maxX, maxY, cellSize, polygon, sqrt)
    ensures minX < maxX && minY < maxY ==> |cells| > 0
  {
    var h := cellSize / 2.0;
    cells := [];
    var x := minX;
    ghost var i := 0;
    ghost var columns := GridEnd(minX, maxX, cellSize);
    ghost var rows := GridEnd(minY, maxY, cellSize);
    MulZero(cellSize);
    while x < maxX
      invariant 0 <= i <= columns && x == minX + Mul(i as real, cellSize)
      invariant OnlyGridCells(cells, minX, minY, maxX, maxY, cellSize, polygon, sqrt)
      invariant ColumnsSeeded(cells, minX, minY, maxY, cellSize, i, polygon, sqrt)
      decreases columns - i
    {
      var xh := x + h;
      var y := minY;
      ghost var j := 0;
      while y < maxY
        invariant 0 <= j <= rows && y == minY + Mul(j as real, cellSize)
        invariant OnlyGridCells(cells, minX, minY, maxX, maxY, cellSize, polygon, sqrt)
        invariant ColumnsSeeded(cells, minX, minY, maxY, cellSize, i, polygon, sqrt)
        invariant RowsSeeded(cells, minX, minY, cellSize, i, j, polygon, sqrt)
        decreases rows - j
      {
        var cell := MakeCell(xh, y + h, h, polygon, sqrt);
        assert cell == GridCell(minX, minY, cellSize, i, j, polygon, sqrt);
        SeedAppend(cells, minX, minY, maxX, maxY, cellSize, i, j, polygon, sqrt);
        cells := cells + [cell];
        assert OnGrid(minY, maxY, cellSize, j);
        MulSucc(j, cellSize);
        y := y + cellSize;
        j := j + 1;
      }
      ColumnSeeded(cells, minX, minY, maxY, cellSize, i, j, polygon, sqrt);
      assert OnGrid(minX, maxX, cellSize, i);
      MulSucc(i, cellSize);
      x := x + cellSize;
      i := i + 1;
    }
    forall a, b | OnGrid(minX, maxX, cellSize, a) && OnGrid(minY, maxY, cellSize, b)
      ensures GridCell(minX, minY, cellSize, a, b, polygon, sqrt) in cells
    {
      MulLess(a, i, cellSize);
    }
    SeedGridCells(cells, minX, minY, maxX, maxY, cellSize, polygon, sqrt);
  }

  /** Seed cells are genuine cells of half-side cellSize / 2, and a proper box has at least one. */
  lemma SeedGridCells(cells: seq<Cell>, minX: real, minY: real, maxX: real, maxY: real, cellSize: real,
                      polygon: seq<seq<Point>>, sqrt: real -> real)
    requires HasEdge(polygon) && SeedGrid(cells, minX, minY, maxX, maxY, cellSize, polygon, sqrt)
    ensures forall i :: 0 <= i < |cells| ==> cells[i].h == cellSize / 2.0 && CellOf(cells[i], polygon, sqrt)
    ensures minX < maxX && minY < maxY ==> |cells| > 0
  {
    forall i | 0 <= i < |cells|
      ensures cells[i].h == cellSize / 2.0 && CellOf(cells[i], polygon, sqrt)
    {
      var a, b :| OnGrid(minX, maxX, cellSize, a) && OnGrid(minY, maxY, cellSize, b)
               && cells[i] == GridCell(minX, minY, cellSize, a, b, polygon, sqrt);
    }
    if minX < maxX && minY < maxY {
      MulZero(cellSize);
      assert OnGrid(minX, maxX, cellSize, 0) && OnGrid(minY, maxY, cellSize, 0);
      assert GridCell(minX, minY, cellSize, 0, 0, polygon, sqrt) in cells;
    }
  }

  /** Some step of the grid that starts below hi spans each value of [lo, hi]. */
  lemma GridCovers(lo: real, hi: real, size: real, v: real) returns (a: int)
    requires size > 0.0 && lo < hi && lo <= v <= hi
    ensures OnGrid(lo, hi, size, a)
    ensures lo + Mul(a as real, size) <= v <= lo + Mul(a as real, size) + size
  {
    var q := (v - lo) / size;
    DivNonNegative(v - lo, size);
    DivMul(v - lo, size);
    a := q.Floor;
    assert a as real <= q < a as real + 1.0;
    MulSub(q, a as real, size);
    MulNonNegative(q - a as real, size);
    MulSucc(a, size);
    if Mul((a + 1) as real, size) <= v - lo {
      assert false by {
        MulSub((a + 1) as real, q, size);
        MulNonNegative((a + 1) as real - q, size);
        MulPositive((a + 1) as real - q, size);
      }
    }
    if lo + Mul(a as real, size) >= hi {
      // v == hi on a grid line: the step before it ends there
      assert a > 0 by {
        if a <= 0 {
          MulZero(size);
          MulLess(a, 0, size);
          assert false;
        }
      }
      MulSucc(a - 1, size);
      a := a - 1;
    }
  }

  /**
   * The seed cells cover the bounding box: every point of it lies in the
   * square of some seed cell.
   */
  lemma SeedsCoverBox(cells: seq<Cell>, minX: real, minY: real, maxX: real, maxY: real, cellSize: real,
                      polygon: seq<seq<Point>>, sqrt: real -> real, p: Point)
    requires HasEdge(polygon) && cellSize > 0.0 && SeedGrid(cells, minX, minY, maxX, maxY, cellSize, polygon, sqrt)
    requires minX < maxX && minY < maxY && minX <= p.x <= maxX && minY <= p.y <= maxY
    ensures exists i :: 0 <= i < |cells| && Abs(cells[i].p.x - p.x) <= cells[i].h && Abs(cells[i].p.y - p.y) <= cells[i].h
  {
    var a := GridCovers(minX, maxX, cellSize, p.x);
    var b := GridCovers(minY, maxY, cellSize, p.y);
    var c := GridCell(minX, minY, cellSize, a, b, polygon, sqrt);
    assert c in cells;
    var i :| 0 <= i < |cells| && cells[i] == c;
  }

  // ---------------------------------------------------------------------------
  // The search loop, as a trace of the cells it pops

  /** The best cell after the cells of `popped` were popped in turn, starting from `first`. */
  function BestAfter(first: Cell, popped: seq<Cell>): Cell
    decreases |popped|
  {
    if |popped| == 0 then first
    else UpdateBest(BestAfter(first, popped[..|popped| - 1]), popped[|popped| - 1])
  }

  /** The last popped cell is split when its bound beats the best after it by more than precision. */
  predicate SplitLast(first: Cell, popped: seq<Cell>, precision: real)
    requires |popped| > 0
  {
    popped[|popped| - 1].max - BestAfter(first, popped).d > precision
  }

  /** What popping the last cell of `popped` pushes: its quarters if it is split, else nothing. */
  function Pushed(first: Cell, popped: seq<Cell>, precision: real, polygon: seq<seq<Point>>, sqrt: real -> real): seq<Cell>
    requires HasEdge(polygon) && |popped| > 0
  {
    if SplitLast(first, popped, precision) then Split(popped[|popped| - 1], polygon, sqrt) else []
  }

  /** The quarters pushed while the cells of `popped` were popped in turn. */
  function Quarters(first: Cell, popped: seq<Cell>, precision: real, polygon: seq<seq<Point>>, sqrt: real -> real): seq<Cell>
    requires HasEdge(polygon)
    decreases |popped|
  {
    if |popped| == 0 then []
    else Quarters(first, popped[..|popped| - 1], precision, polygon, sqrt) + Pushed(first, popped, precision, polygon, sqrt)
  }

  /**
   * The queue was drained: the popped cells are exactly the seeds and the
   * quarters pushed on the way, each popped once, and every popped cell is a
   * seed or a quarter of a cell popped and split before it.
   */
  ghost predicate Drained(seeds: seq<Cell>, first: Cell, popped: seq<Cell>, precision: real,
                          polygon: seq<seq<Point>>, sqrt: real -> real)
    requires HasEdge(polygon)
  {
    && multiset(popped) == multiset(seeds) + multiset(Quarters(first, popped, precision, polygon, sqrt))
    && Descended(seeds, first, popped, precision, polygon, sqrt)
  }

  /** Every popped cell is a seed or a quarter pushed before it was popped. */
  ghost predicate Descended(seeds: seq<Cell>, first: Cell, popped: seq<Cell>, precision: real,
                            polygon: seq<seq<Point>>, sqrt: real -> real)
    requires HasEdge(polygon)
  {
    forall k :: 0 <= k < |popped| ==>
      popped[k] in seeds || popped[k] in Quarters(first, popped[..k], precision, polygon, sqrt)
  }

  /**
   * One pop: the popped cell came from the queue, and the queue left behind
   * plus what the pop pushes keeps the balance between what was popped and
   * what was pushed.
   */
  lemma PopStep(queue: seq<Cell>, rest: seq<Cell>, cell: Cell, seeds: seq<Cell>, first: Cell, popped: seq<Cell>,
                precision: real, polygon: seq<seq<Point>>, sqrt: real -> real)
    requires HasEdge(polygon)
    requires multiset(rest) + multiset{cell} == multiset(queue)
    requires multiset(queue) + multiset(popped) == multiset(seeds) + multiset(Quarters(first, popped, precision, polygon, sqrt))
    requires Descended(seeds, first, popped, precision, polygon, sqrt)
    ensures BestAfter(first, popped + [cell]) == UpdateBest(BestAfter(first, popped), cell)
    ensures cell.max - UpdateBest(BestAfter(first, popped), cell).d > precision ==>
      multiset(rest + Split(cell, polygon, sqrt)) + multiset(popped + [cell])
        == multiset(seeds) + multiset(Quarters(first, popped + [cell], precision, polygon, sqrt))
    ensures cell.max - UpdateBest(BestAfter(first, popped), cell).d <= precision ==>
      multiset(rest) + multiset(popped + [cell])
        == multiset(seeds) + multiset(Quarters(first, popped + [cell], precision, polygon, sqrt))
    ensures Descended(seeds, first, popped + [cell], precision, polygon, sqrt)
  {
    assert (popped + [cell])[..|popped|] == popped;
    var quarters := Quarters(first, popped, precision, polygon, sqrt);
    var pushed := Pushed(first, popped + [cell], precision, polygon, sqrt);
    assert Quarters(first, popped + [cell], precision, polygon, sqrt) == quarters + pushed;
    Balance(queue, rest, cell, seeds, popped, quarters, pushed);
    assert pushed == [] ==> rest + pushed == rest;
    DescendedStep(seeds, first, popped, cell, precision, polygon, sqrt);
  }

  /** Moving a cell from the queue to the popped cells, and pushing more, keeps the books balanced. */
  lemma Balance(queue: seq<Cell>, rest: seq<Cell>, cell: Cell, seeds: seq<Cell>, popped: seq<Cell>,
                quarters: seq<Cell>, pushed: seq<Cell>)
    requires multiset(rest) + multiset{cell} == multiset(queue)
    requires multiset(queue) + multiset(popped) == multiset(seeds) + multiset(quarters)
    ensures cell in seeds || cell in quarters
    ensures multiset(rest + pushed) + multiset(popped + [cell]) == multiset(seeds) + multiset(quarters + pushed)
  {
    assert cell in multiset(queue);
    assert cell in multiset(seeds) + multiset(quarters);
    calc {
      multiset(rest + pushed) + multiset(popped + [cell]);
      multiset(rest) + multiset(pushed) + multiset(popped) + multiset{cell};
      multiset(queue) + multiset(popped) + multiset(pushed);
      multiset(seeds) + multiset(quarters) + multiset(pushed);
      multiset(seeds) + multiset(quarters + pushed);
    }
  }

  /** A cell popped from a queue of seeds and pushed quarters extends the descent. */
  lemma DescendedStep(seeds: seq<Cell>, first: Cell, popped: seq<Cell>, cell: Cell, precision: real,
                      polygon: seq<seq<Point>>, sqrt: real -> real)
    requires HasEdge(polygon) && Descended(seeds, first, popped, precision, polygon, sqrt)
    requires cell in seeds || cell in Quarters(first, popped, precision, polygon, sqrt)
    ensures Descended(seeds, first, popped + [cell], precision, polygon, sqrt)
  {
    var popped' := popped + [cell];
    forall k | 0 <= k < |popped'|
      ensures popped'[k] in seeds || popped'[k] in Quarters(first, popped'[..k], precision, polygon, sqrt)
    {
      if k < |popped| {
        assert popped'[k] == popped[k] && popped'[..k] == popped[..k];
      } else {
        assert popped'[..k] == popped;
      }
    }
  }

  /** The best cell is the first guess or one of the popped cells. */
  lemma {:induction false} BestAfterIsProbe(first: Cell, popped: seq<Cell>)
    ensures BestAfter(first, popped) == first || BestAfter(first, popped) in popped
    decreases |popped|
  {
    if |popped| > 0 {
      BestAfterIsProbe(first, popped[..|popped| - 1]);
    }
  }

  /** Every pushed quarter is a quarter of a popped cell that was split. */
  lemma {:induction false} QuartersAreSplits(first: Cell, popped: seq<Cell>, precision: real,
                                             polygon: seq<seq<Point>>, sqrt: real -> real, c: Cell)
    requires HasEdge(polygon) && c in Quarters(first, popped, precision, polygon, sqrt)
    ensures exists j :: 0 <= j < |popped| && SplitLast(first, popped[..j + 1], precision)
                     && c in Split(popped[j], polygon, sqrt)
    decreases |popped|
  {
    var n := |popped| - 1;
    var init := popped[..n];
    if c in Quarters(first, init, precision, polygon, sqrt) {
      QuartersAreSplits(first, init, precision, polygon, sqrt, c);
      var j :| 0 <= j < |init| && SplitLast(first, init[..j + 1], precision) && c in Split(init[j], polygon, sqrt);
      assert init[..j + 1] == popped[..j + 1] && init[j] == popped[j];
    } else {
      assert popped[..n + 1] == popped;
    }
  }

  /**
   * The state of the search loop after the cells of `popped` were popped:
   * the queue holds genuine cells, and together with the popped cells it is
   * the seeds plus the quarters pushed so far; and the probes are as
   * `Probed` says.
   */
  ghost predicate Searching(cells: seq<Cell>, best0: Cell, probes0: seq<Cell>, queue: seq<Cell>, popped: seq<Cell>,
                            bestCell: Cell, bestAt: int, probes: seq<Cell>, precision: real,
                            polygon: seq<seq<Point>>, sqrt: real -> real)
    requires HasEdge(polygon)
  {
    && AllCells(queue, polygon, sqrt)
    && multiset(queue) + multiset(popped) == multiset(cells) + multiset(Quarters(best0, popped, precision, polygon, sqrt))
    && Descended(cells, best0, popped, precision, polygon, sqrt)
    && Probed(best0, probes0, popped, bestCell, bestAt, probes, polygon, sqrt)
  }

  /**
   * The probes hold genuine cells and are the earlier ones followed by the
   * popped cells; the best cell is the running best and one of the probes;
   * no probe with a positive distance beats it; and it is at least as deep
   * as a first guess of positive distance.
   */
  ghost predicate Probed(best0: Cell, probes0: seq<Cell>, popped: seq<Cell>, bestCell: Cell, bestAt: int,
                         probes: seq<Cell>, polygon: seq<seq<Point>>, sqrt: real -> real)
    requires HasEdge(polygon)
  {
    && probes == probes0 + popped
    && AllCells(probes, polygon, sqrt)
    && 0 <= bestAt < |probes| && probes[bestAt] == bestCell
    && bestCell == BestAfter(best0, popped)
    && Deepest(probes, bestCell)
    && (best0.d > 0.0 ==> bestCell.d >= best0.d)
  }

  /** One turn of the search loop keeps its state, in both the branch that splits and the one that does not. */
  lemma SearchStep(cells: seq<Cell>, best0: Cell, probes0: seq<Cell>, queue: seq<Cell>, popped: seq<Cell>,
                   bestCell: Cell, bestAt: int, probes: seq<Cell>, k: int, rest: seq<Cell>,
                   bestCell': Cell, bestAt': int, queue': seq<Cell>, precision: real,
                   polygon: seq<seq<Point>>, sqrt: real -> real)
    requires HasEdge(polygon) && precision > 0.0
    requires Searching(cells, best0, probes0, queue, popped, bestCell, bestAt, probes, precision, polygon, sqrt)
    requires 0 <= k < |queue| && rest == queue[..k] + queue[k + 1..]
    requires bestCell' == UpdateBest(bestCell, queue[k])
    requires bestAt' == if queue[k].d > bestCell.d || bestCell.d == 0.0 then |probes| else bestAt
    requires queue' == if queue[k].max - bestCell'.d > precision then rest + Split(queue[k], polygon, sqrt) else rest
    ensures Searching(cells, best0, probes0, queue', popped + [queue[k]], bestCell', bestAt', probes + [queue[k]],
                      precision, polygon, sqrt)
  {
    var cell := queue[k];
    assert BestAfter(best0, popped) == bestCell;
    QueueStep(cells, best0, queue, popped, k, rest, queue', precision, polygon, sqrt);
    QueueCells(queue, k, rest, queue', cell, precision, polygon, sqrt);
    ProbeStep(best0, probes0, popped, bestCell, bestAt, probes, cell, bestCell', bestAt', polygon, sqrt);
  }

  /** Popping a cell and pushing its quarters if it is split keeps the balance of `Searching`. */
  lemma QueueStep(cells: seq<Cell>, best0: Cell, queue: seq<Cell>, popped: seq<Cell>, k: int, rest: seq<Cell>,
                  queue': seq<Cell>, precision: real, polygon: seq<seq<Point>>, sqrt: real -> real)
    requires HasEdge(polygon)
    requires multiset(queue) + multiset(popped) == multiset(cells) + multiset(Quarters(best0, popped, precision, polygon, sqrt))
    requires Descended(cells, best0, popped, precision, polygon, sqrt)
    requires 0 <= k < |queue| && rest == queue[..k] + queue[k + 1..]
    requires queue' == if queue[k].max - UpdateBest(BestAfter(best0, popped), queue[k]).d > precision
      then rest + Split(queue[k], polygon, sqrt) else rest
    ensures multiset(queue') + multiset(popped + [queue[k]])
         == multiset(cells) + multiset(Quarters(best0, popped + [queue[k]], precision, polygon, sqrt))
    ensures Descended(cells, best0, popped + [queue[k]], precision, polygon, sqrt)
  {
    var cell := queue[k];
    assert multiset(rest) + multiset{cell} == multiset(queue) by {
      assert queue == queue[..k] + [cell] + queue[k + 1..];
    }
    PopStep(queue, rest, cell, cells, best0, popped, precision, polygon, sqrt);
  }

  /** The queue left after a pop, with the quarters of the popped cell or without, holds genuine cells. */
  lemma QueueCells(queue: seq<Cell>, k: int, rest: seq<Cell>, queue': seq<Cell>, cell: Cell, precision: real,
                   polygon: seq<seq<Point>>, sqrt: real -> real)
    requires HasEdge(polygon) && precision > 0.0 && AllCells(queue, polygon, sqrt)
    requires 0 <= k < |queue| && rest == queue[..k] + queue[k + 1..]
    requires queue' == rest || queue' == rest + Split(cell, polygon, sqrt)
    ensures AllCells(queue', polygon, sqrt)
  {
    PopKeeps(queue, k, precision, polygon, sqrt);
    AllCellsAppend(rest, Split(cell, polygon, sqrt), polygon, sqrt);
  }

  /** Probing the popped cell keeps what `Probed` says. */
  lemma ProbeStep(best0: Cell, probes0: seq<Cell>, popped: seq<Cell>, bestCell: Cell, bestAt: int, probes: seq<Cell>,
                  cell: Cell, bestCell': Cell, bestAt': int, polygon: seq<seq<Point>>, sqrt: real -> real)
    requires HasEdge(polygon) && CellOf(cell, polygon, sqrt)
    requires Probed(best0, probes0, popped, bestCell, bestAt, probes, polygon, sqrt)
    requires bestCell' == UpdateBest(bestCell, cell)
    requires bestAt' == if cell.d > bestCell.d || bestCell.d == 0.0 then |probes| else bestAt
    ensures Probed(best0, probes0, popped + [cell], bestCell', bestAt', probes + [cell], polygon, sqrt)
  {
    assert (popped + [cell])[..|popped|] == popped;
    assert probes + [cell] == probes0 + (popped + [cell]);
    AllCellsAppend(probes, [cell], polygon, sqrt);
    UpdateBestKeepsDeepest(probes, bestCell, cell);
  }

  /**
   * Lines 56-77: pop the cell of largest bound, keep it if it is farther
   * inside than the best (or the best is at distance 0), and split it into
   * quarters while its bound beats the best by more than precision. The
   * queue is drained: the cells popped are the seeds and the quarters of
   * the cells split, and the best cell is the running best over them.
   */
  method Search(cells: seq<Cell>, best0: Cell, ghost probes0: seq<Cell>, ghost bestAt0: nat, precision: real,
                polygonRings: seq<seq<Point>>, sqrt: real -> real)
    returns (bestCell: Cell, ghost probes: seq<Cell>)
    requires precision > 0.0 && HasEdge(polygonRings)
    requires AllCells(cells, polygonRings, sqrt) && AllCells(probes0, polygonRings, sqrt)
    requires bestAt0 < |probes0| && probes0[bestAt0] == best0
    requires Deepest(probes0, best0)
    ensures |probes| >= |probes0| && probes[..|probes0|] == probes0
    ensures bestCell == BestAfter(best0, probes[|probes0|..])
    ensures Drained(cells, best0, probes[|probes0|..], precision, polygonRings, sqrt)
    ensures AllCells(probes, polygonRings, sqrt)
    ensures exists i :: 0 <= i < |probes| && probes[i] == bestCell
    ensures Deepest(probes, bestCell)
    ensures best0.d > 0.0 ==> bestCell.d >= best0.d
  {
    var cellQueue := cells;
    bestCell := best0;
    probes := probes0;
    ghost var popped: seq<Cell> := [];
    ghost var bestAt: int := bestAt0;
    assert probes0 + [] == probes0;
    while |cellQueue| > 0
      invariant Searching(cells, best0, probes0, cellQueue, popped, bestCell, bestAt, probes, precision, polygonRings, sqrt)
      decreases Weight(cellQueue, precision)
    {
      // pick the most promising cell from the queue
      ghost var before := cellQueue;
      var cell;
      cell, cellQueue := PopMax(cellQueue);
      ghost var k :| 0 <= k < |before| && cell == before[k] && cellQueue == before[..k] + before[k + 1..];
      PopKeeps(before, k, precision, polygonRings, sqrt);
      SmallCellNotSplit(bestCell, cell, precision, polygonRings, sqrt);
      ghost var (bestCell0, bestAt0', probes0', popped0) := (bestCell, bestAt, probes, popped);

      // update the best cell if this one is better
      probes := probes + [cell];
      popped := popped + [cell];
      if cell.d > bestCell.d || bestCell.d == 0.0 {
        bestCell := cell;
        bestAt := |probes| - 1;
      }

      // no chance of a better solution within the cell
      if cell.max - bestCell.d <= precision {
        SearchStep(cells, best0, probes0, before, popped0, bestCell0, bestAt0', probes0', k, cellQueue,
                   bestCell, bestAt, cellQueue, precision, polygonRings, sqrt);
        continue;
      }

      // split the cell into four cells
      ghost var rest := cellQueue;
      cellQueue := PushQuarters(cellQueue, cell, precision, polygonRings, sqrt);
      SearchStep(cells, best0, probes0, before, popped0, bestCell0, bestAt0', probes0', k, rest,
                 bestCell, bestAt, cellQueue, precision, polygonRings, sqrt);
    }
    assert probes[|probes0|..] == popped;
    assert probes[..|probes0|] == probes0;
  }

  /**
   * Lines 72-76: the four quarters of a split cell join the queue, in the
   * order of the source; the queue stays genuine and its measure drops
   * below that of the queue that still held the split cell.
   */
  method PushQuarters(queue: seq<Cell>, cell: Cell, precision: real, polygonRings: seq<seq<Point>>, sqrt: real -> real)
    returns (queue': seq<Cell>)
    requires precision > 0.0 && HasEdge(polygonRings) && AllCells(queue, polygonRings, sqrt)
    requires Mul(cell.h, Sqrt2) > precision
    ensures queue' == queue + Split(cell, polygonRings, sqrt)
    ensures AllCells(queue', polygonRings, sqrt)
    ensures Weight(queue', precision) < Weight(queue, precision) + CellWeight(cell, precision)
  {
    var h := cell.h / 2.0;
    var c0 := MakeCell(cell.p.x - h, cell.p.y - h, h, polygonRings, sqrt);
    var c1 := MakeCell(cell.p.x + h, cell.p.y - h, h, polygonRings, sqrt);
    var c2 := MakeCell(cell.p.x - h, cell.p.y + h, h, polygonRings, sqrt);
    var c3 := MakeCell(cell.p.x + h, cell.p.y + h, h, polygonRings, sqrt);
    queue' := queue + [c0, c1, c2, c3];
    PushFour(queue, cell, c0, c1, c2, c3, precision, polygonRings, sqrt);
  }

  /** Recording a probed cell keeps the earlier probes, their genuineness, and the deepest-so-far property. */
  lemma ProbeKeeps(probes: seq<Cell>, probes0: seq<Cell>, best: Cell, cell: Cell, polygon: seq<seq<Point>>, sqrt: real -> real)
    requires HasEdge(polygon) && AllCells(probes, polygon, sqrt) && CellOf(cell, polygon, sqrt)
    requires |probes| >= |probes0| && probes[..|probes0|] == probes0
    requires Deepest(probes, best)
    ensures (probes + [cell])[..|probes0|] == probes0
    ensures AllCells(probes + [cell], polygon, sqrt)
    ensures Deepest(probes + [cell], UpdateBest(best, cell))
  {
    assert (probes + [cell])[..|probes0|] == probes[..|probes0|];
    AllCellsAppend(probes, [cell], polygon, sqrt);
    UpdateBestKeepsDeepest(probes, best, cell);
  }

  /** The first guess: the centroid cell, or the box-centre cell when the centroid lies outside and that is farther in. */
  function FirstGuess(centroid: Cell, boxCentre: Cell): (r: Cell)
    ensures r == centroid || r == boxCentre
    ensures centroid.d >= 0.0 ==> r == centroid
    ensures centroid.d < 0.0 ==> r.d == Max(centroid.d, boxCentre.d)
  {
    if centroid.d < 0.0 && boxCentre.d > centroid.d then boxCentre else centroid
  }

  /** The cell at the centre of the box, of size zero. */
  function BoxCentreCell(bbox: Box, polygon: seq<seq<Point>>, sqrt: real -> real): Cell
    requires HasEdge(polygon)
  {
    MakeCell(bbox.minX + (bbox.maxX - bbox.minX) / 2.0, bbox.minY + (bbox.maxY - bbox.minY) / 2.0, 0.0, polygon, sqrt)
  }

  /**
   * Lines 45-54: the centroid cell is the first guess; when it lies outside
   * the polygon the box-centre cell is probed too and taken if it is farther
   * in. The guesses are the cells probed so far.
   */
  method StartCell(polygonRings: seq<seq<Point>>, bbox: Box, sqrt: real -> real)
    returns (bestCell: Cell, ghost guesses: seq<Cell>, ghost bestAt: nat)
    requires HasEdge(polygonRings)
    ensures var centroid := CentroidCell(polygonRings, sqrt);
      guesses == if centroid.d < 0.0 then [centroid, BoxCentreCell(bbox, polygonRings, sqrt)] else [centroid]
    ensures bestCell == FirstGuess(CentroidCell(polygonRings, sqrt), BoxCentreCell(bbox, polygonRings, sqrt))
    ensures bestAt < |guesses| && guesses[bestAt] == bestCell
    ensures AllCells(guesses, polygonRings, sqrt) && Deepest(guesses, bestCell)
  {
    var width := bbox.maxX - bbox.minX;
    var height := bbox.maxY - bbox.minY;
    bestCell := GetCentroidCell(polygonRings, sqrt);
    guesses := [bestCell];
    bestAt := 0;
    if bestCell.d < 0.0 {
      var bboxCenter := MakeCell(bbox.minX + width / 2.0, bbox.minY + height / 2.0, 0.0, polygonRings, sqrt);
      guesses := guesses + [bboxCenter];
      if bboxCenter.d > bestCell.d {
        bestCell := bboxCenter;
        bestAt := 1;
      }
    }
  }

  /**
   * Lines 31-81, for a proper bounding box: seed the grid over the box, take
   * the first guess and drain the queue. The seeds are the grid of squares
   * of side cellSize over the box; the probes are the centroid cell, then
   * the box-centre cell if the centroid lies outside, then the cells popped,
   * which are exactly the seeds and the quarters of the cells split; and the
   * pole is the centre of the running best cell over the popped cells,
   * starting from the first guess.
   */
  method SearchBox(polygonRings: seq<seq<Point>>, bbox: Box, cellSize: real, precision: real, sqrt: real -> real)
    returns (pole: Point, ghost seeds: seq<Cell>, ghost probes: seq<Cell>)
    requires precision > 0.0 && cellSize > 0.0 && HasEdge(polygonRings)
    ensures var centroid := CentroidCell(polygonRings, sqrt);
      var start := if centroid.d < 0.0 then 2 else 1;
      var first := FirstGuess(centroid, BoxCentreCell(bbox, polygonRings, sqrt));
      && SeedGrid(seeds, bbox.minX, bbox.minY, bbox.maxX, bbox.maxY, cellSize, polygonRings, sqrt)
      && |probes| >= start
      && probes[0] == centroid
      && (start == 2 ==> probes[1] == BoxCentreCell(bbox, polygonRings, sqrt))
      && Drained(seeds, first, probes[start..], precision, polygonRings, sqrt)
      && pole == BestAfter(first, probes[start..]).p
    ensures AllCells(probes, polygonRings, sqrt)
    ensures exists i :: 0 <= i < |probes| && probes[i].p == pole
    ensures forall i :: 0 <= i < |probes| && probes[i].d > 0.0 ==> probes[i].d <= SignedDist(pole, polygonRings, sqrt)
  {
    // cover the bounding box with the seed cells
    var cells := SeedCells(bbox.minX, bbox.minY, bbox.maxX, bbox.maxY, cellSize, polygonRings, sqrt);
    seeds := cells;

    // the centroid cell, or the box centre, is the first guess
    ghost var guesses, bestAt;
    var bestCell;
    bestCell, guesses, bestAt := StartCell(polygonRings, bbox, sqrt);

    bestCell, probes := Search(cells, bestCell, guesses, bestAt, precision, polygonRings, sqrt);
    assert probes[0] == guesses[0];
    assert |guesses| == 2 ==> probes[1] == guesses[1];
    ghost var i :| 0 <= i < |probes| && probes[i] == bestCell;
    assert CellOf(bestCell, polygonRings, sqrt);
    pole := bestCell.p;
  }

  /**
   * `findPoleOfInaccessibility`. A missing or empty outer ring is an error;
   * a bounding box of zero width or height gives its corner. Otherwise the
   * search over the bounding box of side min(width, height) gives the
   * result (see `SearchBox`), and no probed cell with a positive distance
   * is farther inside than the result.
   */
  method FindPoleOfInaccessibility(polygonRings: seq<seq<Point>>, precision: real, sqrt: real -> real)
    returns (r: Result<Point, string>, ghost seeds: seq<Cell>, ghost probes: seq<Cell>)
    requires precision > 0.0
    ensures r.Failure? <==> |polygonRings| == 0 || |polygonRings[0]| == 0
    ensures r.Failure? ==> r.error == "Invalid polygon: empty outer ring"
    ensures r.Success? ==> HasEdge(polygonRings)
    ensures r.Success? && Min(Width(polygonRings[0]), Height(polygonRings[0])) == 0.0
      ==> r.value == Point(BoundingBox(polygonRings[0]).minX, BoundingBox(polygonRings[0]).minY)
    ensures r.Success? && Min(Width(polygonRings[0]), Height(polygonRings[0])) != 0.0 ==>
      var bb := BoundingBox(polygonRings[0]);
      var centroid := CentroidCell(polygonRings, sqrt);
      var start := if centroid.d < 0.0 then 2 else 1;
      var first := FirstGuess(centroid, BoxCentreCell(bb, polygonRings, sqrt));
      && SeedGrid(seeds, bb.minX, bb.minY, bb.maxX, bb.maxY, Min(Width(polygonRings[0]), Height(polygonRings[0])),
                  polygonRings, sqrt)
      && |probes| >= start
      && probes[0] == centroid
      && (start == 2 ==> probes[1] == BoxCentreCell(bb, polygonRings, sqrt))
      && Drained(seeds, first, probes[start..], precision, polygonRings, sqrt)
      && r.value == BestAfter(first, probes[start..]).p
    ensures r.Success? && Min(Width(polygonRings[0]), Height(polygonRings[0])) != 0.0 ==>
      && AllCells(probes, polygonRings, sqrt)
      && (exists i :: 0 <= i < |probes| && probes[i].p == r.value)
      && (forall i :: 0 <= i < |probes| && probes[i].d > 0.0 ==> probes[i].d <= SignedDist(r.value, polygonRings, sqrt))
  {
    seeds, probes := [], [];
    if |polygonRings| == 0 || |polygonRings[0]| == 0 {
      return Failure("Invalid polygon: empty outer ring"), seeds, probes;
    }
    var outerRing := polygonRings[0];
    assert HasEdge(polygonRings) by {
      assert 0 <= 0 < |polygonRings| && |polygonRings[0]| > 0;
    }
    var bbox := BoundingBox(outerRing);
    var minX, minY, maxX, maxY := bbox.minX, bbox.minY, bbox.maxX, bbox.maxY;
    var width := maxX - minX;
    var height := maxY - minY;
    var cellSize := Min(width, height);
    assert cellSize == Min(Width(outerRing), Height(outerRing));
    if cellSize == 0.0 {
      return Success(Point(minX, minY)), seeds, probes;
    }
    BoundingBoxWellFormed(outerRing);
    var pole;
    pole, seeds, probes := SearchBox(polygonRings, bbox, cellSize, precision, sqrt);
    return Success(pole), seeds, probes;
  }
}
