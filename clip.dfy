/**
 * Clipping polylines to the half-open box [x1, x2) x [y1, y2)
 * (lib/clip.js). Each segment is trimmed against the four sides in turn,
 * a trimmed end is rounded to whole coordinates, and the kept segments are
 * stitched into output lines whenever one starts where the previous ended.
 */
module Clip {
  import opened Wrappers
  import opened Util
  import opened Arith

  // ---------------------------------------------------------------------------
  // round

  predicate IsInteger(v: real)
  {
    v == v.Floor as real
  }

  /** Math.round: the nearest integer, halves rounded up. */
  function Round(v: real): (r: real)
    ensures IsInteger(r)
    ensures r - 0.5 <= v < r + 0.5
  {
    (v + 0.5).Floor as real
  }

  /** A whole number is its own rounding. */
  lemma RoundInteger(v: real)
    requires IsInteger(v)
    ensures Round(v) == v
  {
    var k := v.Floor;
    var n := (v + 0.5).Floor;
    assert n as real <= v + 0.5 < n as real + 1.0;
    assert k as real == v;
    assert n <= k && k <= n;
  }

  lemma RoundMonotone(v: real, w: real)
    requires v <= w
    ensures Round(v) <= Round(w)
  {
    var n := (v + 0.5).Floor;
    var m := (w + 0.5).Floor;
    assert n as real <= v + 0.5 && w + 0.5 < m as real + 1.0;
    assert n < m + 1;
  }

  /** The rounding of a value within half of k (below) or less than half (above) is k. */
  lemma RoundNearest(v: real, k: int)
    requires k as real - 0.5 <= v < k as real + 0.5
    ensures Round(v) == k as real
  {
    var n := (v + 0.5).Floor;
    assert n as real <= v + 0.5 < n as real + 1.0;
    assert n <= k && k <= n;
  }

  /** Rounding never crosses a whole-number bound. */
  lemma RoundWithin(v: real, lo: real, hi: real)
    requires IsInteger(lo) && IsInteger(hi)
    ensures lo <= v ==> lo <= Round(v)
    ensures v <= hi ==> Round(v) <= hi
  {
    if lo <= v {
      RoundMonotone(lo, v);
      RoundInteger(lo);
    }
    if v <= hi {
      RoundMonotone(v, hi);
      RoundInteger(hi);
    }
  }

  /** The point with both coordinates rounded, `round` in the source. */
  function RoundPoint(x: real, y: real): (p: Point)
    ensures p == Point(Round(x), Round(y))
  {
    Point(Round(x), Round(y))
  }

  // ---------------------------------------------------------------------------
  // Interpolation

  datatype Segment = Segment(p0: Point, p1: Point)

  /** The y at which the segment's line meets the vertical x. */
  function CrossX(p0: Point, p1: Point, x: real): real
    requires p0.x != p1.x
  {
    p0.y + Mul(p1.y - p0.y, (x - p0.x) / (p1.x - p0.x))
  }

  /** The x at which the segment's line meets the horizontal y. */
  function CrossY(p0: Point, p1: Point, y: real): real
    requires p0.y != p1.y
  {
    p0.x + Mul(p1.x - p0.x, (y - p0.y) / (p1.y - p0.y))
  }

  /** A value between a numerator of the denominator's sign and the denominator is a fraction in [0, 1]. */
  lemma UnitFraction(n: real, d: real)
    requires (0.0 <= n <= d && d > 0.0) || (d <= n <= 0.0 && d < 0.0)
    ensures 0.0 <= n / d <= 1.0
  {
    if d > 0.0 {
      PositiveFraction(n, d);
    } else {
      PositiveFraction(-n, -d);
      assert (-n) / (-d) == n / d;
    }
  }

  lemma PositiveFraction(n: real, d: real)
    requires 0.0 <= n <= d && d > 0.0
    ensures 0.0 <= n / d <= 1.0
  {
    var q := n / d;
    DivMul(n, d);
    if q < 0.0 {
      MulNegative(q, d);
    }
    if q > 1.0 {
      MulPositive(q - 1.0, d);
      MulSub(q, 1.0, d);
      MulOne(d);
    }
  }

  /** Moving a fraction f in [0, 1] of the way from a to b stays between a and b. */
  lemma Interpolate(a: real, b: real, f: real)
    requires 0.0 <= f <= 1.0
    ensures Min(a, b) <= a + Mul(b - a, f) <= Max(a, b)
  {
    MulAdd(f, b, -a);
    if a <= b {
      MulNonNegative(b - a, f);
      MulNonNegative(b - a, 1.0 - f);
      MulSplit(b - a, f);
    } else {
      MulNonNegative(a - b, f);
      MulNonNegative(a - b, 1.0 - f);
      MulSplit(a - b, f);
      MulNegate(a - b, f);
    }
  }

  lemma MulSplit(d: real, f: real)
    ensures Mul(d, f) + Mul(d, 1.0 - f) == d
  {
  }

  lemma MulNegate(d: real, f: real)
    ensures Mul(-d, f) == -Mul(d, f)
  {
  }

  /** Where the segment meets a vertical between its ends, y is between the ends' y. */
  lemma CrossXBetween(p0: Point, p1: Point, x: real)
    requires Min(p0.x, p1.x) <= x <= Max(p0.x, p1.x) && p0.x != p1.x
    ensures Min(p0.y, p1.y) <= CrossX(p0, p1, x) <= Max(p0.y, p1.y)
  {
    UnitFraction(x - p0.x, p1.x - p0.x);
    Interpolate(p0.y, p1.y, (x - p0.x) / (p1.x - p0.x));
  }

  /** Where the segment meets a horizontal between its ends, x is between the ends' x. */
  lemma CrossYBetween(p0: Point, p1: Point, y: real)
    requires Min(p0.y, p1.y) <= y <= Max(p0.y, p1.y) && p0.y != p1.y
    ensures Min(p0.x, p1.x) <= CrossY(p0, p1, y) <= Max(p0.x, p1.x)
  {
    UnitFraction(y - p0.y, p1.y - p0.y);
    Interpolate(p0.x, p1.x, (y - p0.y) / (p1.y - p0.y));
  }

  // ---------------------------------------------------------------------------
  // The four stages of the segment loop. Each division is only reached when
  // exactly one end is beyond the side, so its denominator is not zero.

  /** Left side: drop the segment if both ends have x < x1, else move the end that has onto x = x1. */
  function ClipLeft(s: Segment, x1: real): Option<Segment>
  {
    if s.p0.x < x1 && s.p1.x < x1 then None
    else if s.p0.x < x1 then Some(Segment(RoundPoint(x1, CrossX(s.p0, s.p1, x1)), s.p1))
    else if s.p1.x < x1 then Some(Segment(s.p0, RoundPoint(x1, CrossX(s.p0, s.p1, x1))))
    else Some(s)
  }

  /** Top side: drop the segment if both ends have y < y1, else move the end that has onto y = y1. */
  function ClipTop(s: Segment, y1: real): Option<Segment>
  {
    if s.p0.y < y1 && s.p1.y < y1 then None
    else if s.p0.y < y1 then Some(Segment(RoundPoint(CrossY(s.p0, s.p1, y1), y1), s.p1))
    else if s.p1.y < y1 then Some(Segment(s.p0, RoundPoint(CrossY(s.p0, s.p1, y1), y1)))
    else Some(s)
  }

  /** Right side: drop the segment if both ends have x >= x2, else move the end that has onto x = x2. */
  function ClipRight(s: Segment, x2: real): Option<Segment>
  {
    if s.p0.x >= x2 && s.p1.x >= x2 then None
    else if s.p0.x >= x2 then Some(Segment(RoundPoint(x2, CrossX(s.p0, s.p1, x2)), s.p1))
    else if s.p1.x >= x2 then Some(Segment(s.p0, RoundPoint(x2, CrossX(s.p0, s.p1, x2))))
    else Some(s)
  }

  /** Bottom side: drop the segment if both ends have y >= y2, else move the end that has onto y = y2. */
  function ClipBottom(s: Segment, y2: real): Option<Segment>
  {
    if s.p0.y >= y2 && s.p1.y >= y2 then None
    else if s.p0.y >= y2 then Some(Segment(RoundPoint(CrossY(s.p0, s.p1, y2), y2), s.p1))
    else if s.p1.y >= y2 then Some(Segment(s.p0, RoundPoint(CrossY(s.p0, s.p1, y2), y2)))
    else Some(s)
  }

  /** One segment through the four stages, in the source's order; None is a `continue`. */
  function ClipSegment(s: Segment, box: Box): Option<Segment>
  {
    match ClipLeft(s, box.minX)
    case None => None
    case Some(a) =>
      match ClipTop(a, box.minY)
      case None => None
      case Some(b) =>
        match ClipRight(b, box.maxX)
        case None => None
        case Some(c) => ClipBottom(c, box.maxY)
  }

  predicate InHalfOpenBox(p: Point, box: Box)
  {
    box.minX <= p.x < box.maxX && box.minY <= p.y < box.maxY
  }

  /** A box with whole-number sides, left of and above its opposite sides. */
  predicate WholeBox(box: Box)
  {
    IsInteger(box.minX) && IsInteger(box.minY) && IsInteger(box.maxX) && IsInteger(box.maxY)
    && box.minX <= box.maxX && box.minY <= box.maxY
  }

  /** A segment whose ends are both in the half-open box is kept with its ends untouched. */
  lemma InsideSegmentUnchanged(s: Segment, box: Box)
    requires InHalfOpenBox(s.p0, box) && InHalfOpenBox(s.p1, box)
    ensures ClipSegment(s, box) == Some(s)
  {
  }

  /**
   * A segment contributes nothing when both its ends are beyond the left
   * side, or (for a whole-number box) both at or right of the right side,
   * or both at or below the bottom side. Rounding in the left stage can lift
   * an end onto the top side, so the top case holds for ends that the left
   * stage leaves alone.
   */
  lemma BeyondOneSideDropped(s: Segment, box: Box)
    requires WholeBox(box)
    ensures s.p0.x < box.minX && s.p1.x < box.minX ==> ClipSegment(s, box).None?
    ensures s.p0.x >= box.minX && s.p1.x >= box.minX && s.p0.y < box.minY && s.p1.y < box.minY
      ==> ClipSegment(s, box).None?
    ensures s.p0.x >= box.maxX && s.p1.x >= box.maxX ==> ClipSegment(s, box).None?
    ensures s.p0.y >= box.maxY && s.p1.y >= box.maxY ==> ClipSegment(s, box).None?
  {
    if s.p0.x >= box.maxX && s.p1.x >= box.maxX {
      RightStaysRight(s, box);
    }
    if s.p0.y >= box.maxY && s.p1.y >= box.maxY {
      BottomStaysBottom(s, box);
    }
  }

  /**
   * The left and top cases hold for every box: a segment wholly left of the
   * left side is dropped by the first stage, and one that the first stage
   * leaves alone and that lies wholly above the top side by the second.
   */
  lemma LeftOrAboveDropped(s: Segment, box: Box)
    ensures s.p0.x < box.minX && s.p1.x < box.minX ==> ClipSegment(s, box).None?
    ensures s.p0.x >= box.minX && s.p1.x >= box.minX && s.p0.y < box.minY && s.p1.y < box.minY
      ==> ClipSegment(s, box).None?
  {
  }

  /**
   * Why the right case needs whole-number sides: a vertical segment at
   * x = v on or right of a fractional right side, crossing the top side, has
   * its upper end moved onto the top side and rounded to x = Round(v), which
   * can fall left of the right side (v = 5.4 against a right side at 5.3).
   * The right stage then keeps the segment although both of its ends lie
   * right of the box.
   */
  lemma FractionalRightSideKept(s: Segment, box: Box, v: real)
    requires s.p0.x == v && s.p1.x == v
    requires box.minX <= box.maxX <= v && Round(v) < box.maxX
    requires IsInteger(box.minY) && s.p0.y < box.minY <= s.p1.y < box.maxY
    ensures s.p0.x >= box.maxX && s.p1.x >= box.maxX
    ensures ClipSegment(s, box).Some? && ClipSegment(s, box).value.p0 == Point(Round(v), box.minY)
  {
    assert ClipLeft(s, box.minX) == Some(s);
    MulZero((box.minY - s.p0.y) / (s.p1.y - s.p0.y));
    assert CrossY(s.p0, s.p1, box.minY) == v;
    RoundInteger(box.minY);
    var a := Segment(Point(Round(v), box.minY), s.p1);
    assert ClipTop(s, box.minY) == Some(a);
    var b := Segment(a.p0, RoundPoint(box.maxX, CrossX(a.p0, a.p1, box.maxX)));
    assert ClipRight(a, box.maxX) == Some(b);
    StagesChain(s, box, s, a, b);
  }

  /**
   * Why the top case above needs its extra hypothesis: a level segment
   * less than half a unit above the box, crossing its left side, has its
   * left end moved onto that side and rounded down onto the top side, and
   * comes out as a segment of length zero at the top-left corner although
   * no point of it is in the box.
   */
  lemma RoundingLiftsOntoTopSide(s: Segment, box: Box)
    requires WholeBox(box) && box.minX < box.maxX && box.minY < box.maxY
    requires s.p0.x < box.minX <= s.p1.x
    requires s.p0.y == s.p1.y && box.minY - 0.5 <= s.p0.y < box.minY
    ensures !InClosedBox(s.p0, box) && !InClosedBox(s.p1, box)
    ensures ClipSegment(s, box) == Some(Segment(Point(box.minX, box.minY), Point(box.minX, box.minY)))
  {
    var corner := Point(box.minX, box.minY);
    CrossXLevel(s.p0, s.p1, box.minX);
    RoundInteger(box.minX);
    RoundNearestWhole(s.p0.y, box.minY);
    var a := Segment(corner, s.p1);
    assert ClipLeft(s, box.minX) == Some(a);
    CrossYAtStart(a.p0, a.p1);
    RoundInteger(box.minY);
    var b := Segment(corner, corner);
    assert ClipTop(a, box.minY) == Some(b);
    StagesChain(s, box, a, b, b);
  }

  lemma RoundNearestWhole(v: real, k: real)
    requires IsInteger(k) && k - 0.5 <= v < k + 0.5
    ensures Round(v) == k
  {
    RoundNearest(v, k.Floor);
  }

  /** ClipSegment through three stages that keep the segment. */
  lemma StagesChain(s: Segment, box: Box, a: Segment, b: Segment, c: Segment)
    requires ClipLeft(s, box.minX) == Some(a)
    requires ClipTop(a, box.minY) == Some(b)
    requires ClipRight(b, box.maxX) == Some(c)
    ensures ClipSegment(s, box) == ClipBottom(c, box.maxY)
  {
  }

  /** A level segment meets every vertical at its own height. */
  lemma CrossXLevel(p0: Point, p1: Point, x: real)
    requires p0.x != p1.x && p0.y == p1.y
    ensures CrossX(p0, p1, x) == p0.y
  {
    MulZero((x - p0.x) / (p1.x - p0.x));
  }

  /** Where a segment meets the horizontal through its own first end, x is that end's x. */
  lemma CrossYAtStart(p0: Point, p1: Point)
    requires p0.y != p1.y
    ensures CrossY(p0, p1, p0.y) == p0.x
  {
    assert (p0.y - p0.y) / (p1.y - p0.y) == 0.0;
    MulByZero(p1.x - p0.x);
  }

  lemma RightStaysRight(s: Segment, box: Box)
    requires WholeBox(box)
    requires s.p0.x >= box.maxX && s.p1.x >= box.maxX
    ensures ClipSegment(s, box).None?
  {
    // the left stage leaves both ends alone; the top stage moves at most one
    // end to a rounded x between the two ends' x
    var a := Segment(s.p0, s.p1);
    assert ClipLeft(s, box.minX) == Some(a);
    if ClipTop(a, box.minY).Some? {
      var b := ClipTop(a, box.minY).value;
      if a.p0.y < box.minY {
        CrossYBetween(a.p0, a.p1, box.minY);
        RoundWithin(CrossY(a.p0, a.p1, box.minY), box.maxX, box.maxX);
      } else if a.p1.y < box.minY {
        CrossYBetween(a.p0, a.p1, box.minY);
        RoundWithin(CrossY(a.p0, a.p1, box.minY), box.maxX, box.maxX);
      }
      assert b.p0.x >= box.maxX && b.p1.x >= box.maxX;
    }
  }

  lemma BottomStaysBottom(s: Segment, box: Box)
    requires WholeBox(box)
    requires s.p0.y >= box.maxY && s.p1.y >= box.maxY
    ensures ClipSegment(s, box).None?
  {
    if ClipLeft(s, box.minX).Some? {
      var a := ClipLeft(s, box.minX).value;
      if s.p0.x < box.minX && s.p1.x >= box.minX {
        CrossXBetween(s.p0, s.p1, box.minX);
        RoundWithin(CrossX(s.p0, s.p1, box.minX), box.maxY, box.maxY);
      } else if s.p1.x < box.minX && s.p0.x >= box.minX {
        CrossXBetween(s.p0, s.p1, box.minX);
        RoundWithin(CrossX(s.p0, s.p1, box.minX), box.maxY, box.maxY);
      }
      assert a.p0.y >= box.maxY && a.p1.y >= box.maxY;
      assert ClipTop(a, box.minY) == Some(a);
      if ClipRight(a, box.maxX).Some? {
        var c := ClipRight(a, box.maxX).value;
        if a.p0.x >= box.maxX && a.p1.x < box.maxX {
          CrossXBetween(a.p0, a.p1, box.maxX);
          RoundWithin(CrossX(a.p0, a.p1, box.maxX), box.maxY, box.maxY);
        } else if a.p1.x >= box.maxX && a.p0.x < box.maxX {
          CrossXBetween(a.p0, a.p1, box.maxX);
          RoundWithin(CrossX(a.p0, a.p1, box.maxX), box.maxY, box.maxY);
        }
        assert c.p0.y >= box.maxY && c.p1.y >= box.maxY;
      }
    }
  }

  // ---------------------------------------------------------------------------
  // Bounds after each stage, for a box with whole-number sides: a moved end is
  // rounded onto the side itself, and its other coordinate, being between the
  // two ends', rounds to no further out than they are.

  lemma LeftStageBounds(s: Segment, box: Box)
    requires WholeBox(box) && ClipLeft(s, box.minX).Some?
    ensures var a := ClipLeft(s, box.minX).value;
      a.p0.x >= box.minX && a.p1.x >= box.minX
  {
    RoundInteger(box.minX);
  }

  lemma TopStageBounds(a: Segment, box: Box)
    requires WholeBox(box) && ClipTop(a, box.minY).Some?
    requires a.p0.x >= box.minX && a.p1.x >= box.minX
    ensures var b := ClipTop(a, box.minY).value;
      b.p0.x >= box.minX && b.p1.x >= box.minX && b.p0.y >= box.minY && b.p1.y >= box.minY
  {
    RoundInteger(box.minY);
    if a.p0.y < box.minY || a.p1.y < box.minY {
      if a.p0.y != a.p1.y {
        CrossYBetween(a.p0, a.p1, box.minY);
        RoundWithin(CrossY(a.p0, a.p1, box.minY), box.minX, box.maxX);
      }
    }
  }

  lemma RightStageBounds(b: Segment, box: Box)
    requires WholeBox(box) && ClipRight(b, box.maxX).Some?
    requires b.p0.x >= box.minX && b.p1.x >= box.minX && b.p0.y >= box.minY && b.p1.y >= box.minY
    ensures var c := ClipRight(b, box.maxX).value;
      box.minX <= c.p0.x <= box.maxX && box.minX <= c.p1.x <= box.maxX
      && c.p0.y >= box.minY && c.p1.y >= box.minY
  {
    RoundInteger(box.maxX);
    if b.p0.x >= box.maxX || b.p1.x >= box.maxX {
      if b.p0.x != b.p1.x {
        CrossXBetween(b.p0, b.p1, box.maxX);
        RoundWithin(CrossX(b.p0, b.p1, box.maxX), box.minY, box.maxY);
      }
    }
  }

  lemma BottomStageBounds(c: Segment, box: Box)
    requires WholeBox(box) && ClipBottom(c, box.maxY).Some?
    requires box.minX <= c.p0.x <= box.maxX && box.minX <= c.p1.x <= box.maxX
    requires c.p0.y >= box.minY && c.p1.y >= box.minY
    ensures var d := ClipBottom(c, box.maxY).value;
      InClosedBox(d.p0, box) && InClosedBox(d.p1, box)
  {
    RoundInteger(box.maxY);
    if c.p0.y >= box.maxY || c.p1.y >= box.maxY {
      if c.p0.y != c.p1.y {
        CrossYBetween(c.p0, c.p1, box.maxY);
        RoundWithin(CrossY(c.p0, c.p1, box.maxY), box.minX, box.maxX);
      }
    }
  }

  /** For a box with whole-number sides, both ends of a kept segment lie in the closed box. */
  lemma ClippedSegmentInBox(s: Segment, box: Box)
    requires WholeBox(box) && ClipSegment(s, box).Some?
    ensures InClosedBox(ClipSegment(s, box).value.p0, box)
    ensures InClosedBox(ClipSegment(s, box).value.p1, box)
  {
    LeftStageBounds(s, box);
    var a := ClipLeft(s, box.minX).value;
    TopStageBounds(a, box);
    var b := ClipTop(a, box.minY).value;
    RightStageBounds(b, box);
    var c := ClipRight(b, box.maxX).value;
    BottomStageBounds(c, box);
  }

  // ---------------------------------------------------------------------------
  // Stitching kept segments into output lines

  /** `endsWith`: an open output line whose last point is p. */
  predicate EndsWith(line: Option<seq<Point>>, p: Point)
  {
    line.Some? && |line.value| > 0 && line.value[|line.value| - 1] == p
  }

  /**
   * The output so far and the line being extended. In the source the line
   * being extended is the same array as the last output line, so pushing to
   * it changes that output line too; here that is the Aliased invariant.
   */
  datatype Stitch = Stitch(lines: seq<seq<Point>>, current: Option<seq<Point>>)

  predicate Aliased(st: Stitch)
  {
    st.current.Some? ==> |st.lines| > 0 && st.lines[|st.lines| - 1] == st.current.value
  }

  /** Every output line has at least two points. */
  predicate AllLong(lines: seq<seq<Point>>)
  {
    forall k :: 0 <= k < |lines| ==> |lines[k]| >= 2
  }

  /** Add a kept segment: extend the open line if it ends where the segment starts, else open a new one. */
  function Emit(st: Stitch, s: Segment): (r: Stitch)
    requires Aliased(st)
    ensures Aliased(r) && r.current.Some?
  {
    if EndsWith(st.current, s.p0) then
      var l := st.current.value + [s.p1];
      Stitch(st.lines[..|st.lines| - 1] + [l], Some(l))
    else
      var l := [s.p0, s.p1];
      Stitch(st.lines + [l], Some(l))
  }

  /** A segment extends the open line exactly when it starts at that line's last point; otherwise a new two-point line is appended. */
  lemma EmitExtendsIff(st: Stitch, s: Segment)
    requires Aliased(st) && AllLong(st.lines)
    ensures |Emit(st, s).lines| == |st.lines| <==> EndsWith(st.current, s.p0)
    ensures |Emit(st, s).lines| == |st.lines| + 1 <==> !EndsWith(st.current, s.p0)
    ensures Emit(st, s).lines[..|Emit(st, s).lines| - 1] == st.lines[..|Emit(st, s).lines| - 1]
    ensures EndsWith(st.current, s.p0)
      ==> Emit(st, s).lines[|st.lines| - 1] == st.lines[|st.lines| - 1] + [s.p1]
    ensures !EndsWith(st.current, s.p0) ==> Emit(st, s).lines[|st.lines|] == [s.p0, s.p1]
    ensures AllLong(Emit(st, s).lines)
  {
  }

  /** Segments of a line, one per segment loop iteration; lines shorter than two points have none. */
  function SegmentCount(line: seq<Point>): nat
  {
    if |line| < 2 then 0 else |line| - 1
  }

  /** The output after the first n segments of a line, starting from st. */
  function StitchLine(line: seq<Point>, n: nat, box: Box, st: Stitch): (r: Stitch)
    requires n <= SegmentCount(line) && Aliased(st)
    ensures Aliased(r)
    decreases n
  {
    if n == 0 then st
    else
      var prev := StitchLine(line, n - 1, box, st);
      match ClipSegment(Segment(line[n - 1], line[n]), box)
      case None => prev
      case Some(c) => Emit(prev, c)
  }

  /** The output of `clipLine` for the first m lines; each line starts with no open line. */
  function ClipAll(lines: seq<seq<Point>>, m: nat, box: Box): seq<seq<Point>>
    requires m <= |lines|
  {
    if m == 0 then []
    else
      var line := lines[m - 1];
      StitchLine(line, SegmentCount(line), box, Stitch(ClipAll(lines, m - 1, box), None)).lines
  }

  /**
   * The four stages of one iteration of the segment loop on the segment
   * from p0 to p1; `kept` is false where the source moves on with `continue`.
   */
  method ClipStages(p0: Point, p1: Point, x1: real, y1: real, x2: real, y2: real)
    returns (kept: bool, q0: Point, q1: Point)
    ensures kept <==> ClipSegment(Segment(p0, p1), Box(x1, y1, x2, y2)).Some?
    ensures kept ==> ClipSegment(Segment(p0, p1), Box(x1, y1, x2, y2)) == Some(Segment(q0, q1))
  {
    q0, q1 := p0, p1;
    kept := false;

    if q0.x < x1 && q1.x < x1 {
      return;
    }
    if q0.x < x1 {
      q0 := RoundPoint(x1, CrossX(q0, q1, x1));
    } else if q1.x < x1 {
      q1 := RoundPoint(x1, CrossX(q0, q1, x1));
    }
    assert ClipLeft(Segment(p0, p1), x1) == Some(Segment(q0, q1));
    ghost var a := Segment(q0, q1);

    if q0.y < y1 && q1.y < y1 {
      return;
    }
    if q0.y < y1 {
      q0 := RoundPoint(CrossY(q0, q1, y1), y1);
    } else if q1.y < y1 {
      q1 := RoundPoint(CrossY(q0, q1, y1), y1);
    }
    assert ClipTop(a, y1) == Some(Segment(q0, q1));
    ghost var b := Segment(q0, q1);

    if q0.x >= x2 && q1.x >= x2 {
      return;
    }
    if q0.x >= x2 {
      q0 := RoundPoint(x2, CrossX(q0, q1, x2));
    } else if q1.x >= x2 {
      q1 := RoundPoint(x2, CrossX(q0, q1, x2));
    }
    assert ClipRight(b, x2) == Some(Segment(q0, q1));
    ghost var c := Segment(q0, q1);

    if q0.y >= y2 && q1.y >= y2 {
      return;
    }
    if q0.y >= y2 {
      q0 := RoundPoint(CrossY(q0, q1, y2), y2);
    } else if q1.y >= y2 {
      q1 := RoundPoint(CrossY(q0, q1, y2), y2);
    }
    assert ClipBottom(c, y2) == Some(Segment(q0, q1));
    kept := true;
  }

  /** `clipLine`: the parts of each line inside the box, as one list of output lines. */
  method ClipLine(lines: seq<seq<Point>>, x1: real, y1: real, x2: real, y2: real)
    returns (clippedLines: seq<seq<Point>>)
    ensures clippedLines == ClipAll(lines, |lines|, Box(x1, y1, x2, y2))
  {
    ghost var box := Box(x1, y1, x2, y2);
    clippedLines := [];
    for l := 0 to |lines|
      invariant clippedLines == ClipAll(lines, l, box)
    {
      var line := lines[l];
      var clippedLine: Option<seq<Point>> := None;
      ghost var start := Stitch(clippedLines, None);
      for i := 0 to SegmentCount(line)
        invariant Stitch(clippedLines, clippedLine) == StitchLine(line, i, box, start)
      {
        ghost var prev := Stitch(clippedLines, clippedLine);
        var kept, p0, p1 := ClipStages(line[i], line[i + 1], x1, y1, x2, y2);
        if !kept {
          assert StitchLine(line, i + 1, box, start) == prev;
          continue;
        }
        assert StitchLine(line, i + 1, box, start) == Emit(prev, Segment(p0, p1));
        if !EndsWith(clippedLine, p0) {
          clippedLine := Some([p0]);
          clippedLines := clippedLines + [clippedLine.value];
          assert clippedLines[..|clippedLines| - 1] == prev.lines;
        }
        assert Aliased(prev);
        // the open line is the last output line, so the push shows there too
        clippedLine := Some(clippedLine.value + [p1]);
        clippedLines := clippedLines[..|clippedLines| - 1] + [clippedLine.value];
        if EndsWith(prev.current, p0) {
          assert clippedLines == prev.lines[..|prev.lines| - 1] + [prev.current.value + [p1]];
        } else {
          assert [p0] + [p1] == [p0, p1];
          assert clippedLines == prev.lines + [[p0, p1]];
        }
      }
      assert lines[l] == line;
    }
  }

  // ---------------------------------------------------------------------------
  // What the output is made of

  /** The segments between consecutive points of a line, in order. */
  function Pairs(l: seq<Point>): (r: seq<Segment>)
    ensures |r| == SegmentCount(l)
  {
    if |l| < 2 then [] else Pairs(l[..|l| - 1]) + [Segment(l[|l| - 2], l[|l| - 1])]
  }

  /** The segments of all output lines, line after line. */
  function AllPairs(ls: seq<seq<Point>>): seq<Segment>
  {
    if |ls| == 0 then [] else AllPairs(ls[..|ls| - 1]) + Pairs(ls[|ls| - 1])
  }

  /** The kept, clipped segments among the first n segments of a line. */
  function Kept(line: seq<Point>, n: nat, box: Box): seq<Segment>
    requires n <= SegmentCount(line)
  {
    if n == 0 then []
    else
      Kept(line, n - 1, box)
      + match ClipSegment(Segment(line[n - 1], line[n]), box)
        case None => []
        case Some(c) => [c]
  }

  /** The kept, clipped segments of the first m lines. */
  function KeptAll(lines: seq<seq<Point>>, m: nat, box: Box): seq<Segment>
    requires m <= |lines|
  {
    if m == 0 then [] else KeptAll(lines, m - 1, box) + Kept(lines[m - 1], SegmentCount(lines[m - 1]), box)
  }

  lemma {:induction false} EmitPairs(st: Stitch, s: Segment)
    requires Aliased(st)
    ensures AllPairs(Emit(st, s).lines) == AllPairs(st.lines) + [s]
  {
    var r := Emit(st, s);
    if EndsWith(st.current, s.p0) {
      var k := |st.lines|;
      var l := st.current.value + [s.p1];
      assert r.lines[..k - 1] == st.lines[..k - 1];
      assert l[..|l| - 1] == st.current.value;
    } else {
      assert (st.lines + [[s.p0, s.p1]])[..|st.lines|] == st.lines;
      assert [s.p0, s.p1][..1] == [s.p0];
    }
  }

  /** Stitching neither loses, invents nor reorders segments: the output's segments are the kept ones. */
  lemma {:induction false} StitchLinePairs(line: seq<Point>, n: nat, box: Box, st: Stitch)
    requires n <= SegmentCount(line) && Aliased(st)
    ensures AllPairs(StitchLine(line, n, box, st).lines) == AllPairs(st.lines) + Kept(line, n, box)
  {
    if n > 0 {
      StitchLinePairs(line, n - 1, box, st);
      var prev := StitchLine(line, n - 1, box, st);
      match ClipSegment(Segment(line[n - 1], line[n]), box)
      case None =>
      case Some(c) =>
        EmitPairs(prev, c);
    }
  }

  /** The segments of `clipLine`'s output are exactly the clipped segments it keeps, in input order. */
  lemma {:induction false} ClipAllPairs(lines: seq<seq<Point>>, m: nat, box: Box)
    requires m <= |lines|
    ensures AllPairs(ClipAll(lines, m, box)) == KeptAll(lines, m, box)
  {
    if m > 0 {
      ClipAllPairs(lines, m - 1, box);
      var line := lines[m - 1];
      StitchLinePairs(line, SegmentCount(line), box, Stitch(ClipAll(lines, m - 1, box), None));
    }
  }

  lemma {:induction false} StitchLineLong(line: seq<Point>, n: nat, box: Box, st: Stitch)
    requires n <= SegmentCount(line) && Aliased(st) && AllLong(st.lines)
    ensures AllLong(StitchLine(line, n, box, st).lines)
  {
    if n > 0 {
      StitchLineLong(line, n - 1, box, st);
      var prev := StitchLine(line, n - 1, box, st);
      match ClipSegment(Segment(line[n - 1], line[n]), box)
      case None =>
      case Some(c) =>
        EmitExtendsIff(prev, c);
    }
  }

  /** Every line `clipLine` returns has at least two points. */
  lemma {:induction false} ClipAllLong(lines: seq<seq<Point>>, m: nat, box: Box)
    requires m <= |lines|
    ensures AllLong(ClipAll(lines, m, box))
  {
    if m > 0 {
      ClipAllLong(lines, m - 1, box);
      var line := lines[m - 1];
      StitchLineLong(line, SegmentCount(line), box, Stitch(ClipAll(lines, m - 1, box), None));
    }
  }

  /** Each output line holds at least one segment. */
  lemma {:induction false} PairsAtLeastLines(ls: seq<seq<Point>>)
    requires AllLong(ls)
    ensures |AllPairs(ls)| >= |ls|
  {
    if |ls| > 0 {
      PairsAtLeastLines(ls[..|ls| - 1]);
    }
  }

  /** `clipLine` returns nothing exactly when it keeps no segment. */
  lemma ClipAllEmptyIff(lines: seq<seq<Point>>, box: Box)
    ensures ClipAll(lines, |lines|, box) == [] <==> KeptAll(lines, |lines|, box) == []
  {
    ClipAllPairs(lines, |lines|, box);
    ClipAllLong(lines, |lines|, box);
    PairsAtLeastLines(ClipAll(lines, |lines|, box));
  }

  /** Lines of fewer than two points have no segments, so they contribute nothing. */
  lemma {:induction false} ShortLinesNothingKept(lines: seq<seq<Point>>, m: nat, box: Box)
    requires m <= |lines|
    requires forall k :: 0 <= k < |lines| ==> |lines[k]| < 2
    ensures KeptAll(lines, m, box) == []
  {
    if m > 0 {
      ShortLinesNothingKept(lines, m - 1, box);
    }
  }

  /** No lines, or only lines of one point or none, clip to nothing. */
  lemma ShortLinesClipToNothing(lines: seq<seq<Point>>, box: Box)
    requires forall k :: 0 <= k < |lines| ==> |lines[k]| < 2
    ensures ClipAll(lines, |lines|, box) == []
  {
    ShortLinesNothingKept(lines, |lines|, box);
    ClipAllEmptyIff(lines, box);
  }

  /** A segment's position in the source line, for quantifying over segments. */
  predicate LeftOfBoxAt(line: seq<Point>, i: nat, box: Box)
    requires i < SegmentCount(line)
  {
    line[i].x < box.minX && line[i + 1].x < box.minX
  }

  lemma {:induction false} LeftOfBoxNothingKept(line: seq<Point>, n: nat, box: Box)
    requires n <= SegmentCount(line)
    requires forall i :: 0 <= i < n ==> LeftOfBoxAt(line, i, box)
    ensures Kept(line, n, box) == []
  {
    if n > 0 {
      LeftOfBoxNothingKept(line, n - 1, box);
      assert LeftOfBoxAt(line, n - 1, box);
    }
  }

  lemma {:induction false} LeftOfBoxLinesNothingKept(lines: seq<seq<Point>>, m: nat, box: Box)
    requires m <= |lines|
    requires forall k, j :: 0 <= k < |lines| && 0 <= j < |lines[k]| ==> lines[k][j].x < box.minX
    ensures KeptAll(lines, m, box) == []
  {
    if m > 0 {
      LeftOfBoxLinesNothingKept(lines, m - 1, box);
      var line := lines[m - 1];
      forall i | 0 <= i < SegmentCount(line)
        ensures LeftOfBoxAt(line, i, box)
      {
        assert line[i] == lines[m - 1][i] && line[i + 1] == lines[m - 1][i + 1];
      }
      LeftOfBoxNothingKept(line, SegmentCount(line), box);
    }
  }

  /** Lines entirely left of the box clip to nothing. */
  lemma LeftOfBoxClipsToNothing(lines: seq<seq<Point>>, box: Box)
    requires forall k, j :: 0 <= k < |lines| && 0 <= j < |lines[k]| ==> lines[k][j].x < box.minX
    ensures ClipAll(lines, |lines|, box) == []
  {
    LeftOfBoxLinesNothingKept(lines, |lines|, box);
    ClipAllEmptyIff(lines, box);
  }

  // ---------------------------------------------------------------------------
  // Where the output is

  predicate AllInBox(ls: seq<seq<Point>>, box: Box)
  {
    forall k, j :: 0 <= k < |ls| && 0 <= j < |ls[k]| ==> InClosedBox(ls[k][j], box)
  }

  lemma EmitInBox(st: Stitch, s: Segment, box: Box)
    requires Aliased(st) && AllInBox(st.lines, box)
    requires InClosedBox(s.p0, box) && InClosedBox(s.p1, box)
    ensures AllInBox(Emit(st, s).lines, box)
  {
    var r := Emit(st, s);
    forall k, j | 0 <= k < |r.lines| && 0 <= j < |r.lines[k]|
      ensures InClosedBox(r.lines[k][j], box)
    {
      if k < |r.lines| - 1 {
        assert r.lines[k] == st.lines[k];
      } else if EndsWith(st.current, s.p0) && j < |r.lines[k]| - 1 {
        assert r.lines[k][j] == st.lines[k][j];
      }
    }
  }

  lemma {:induction false} StitchLineInBox(line: seq<Point>, n: nat, box: Box, st: Stitch)
    requires WholeBox(box)
    requires n <= SegmentCount(line) && Aliased(st) && AllInBox(st.lines, box)
    ensures AllInBox(StitchLine(line, n, box, st).lines, box)
  {
    if n > 0 {
      StitchLineInBox(line, n - 1, box, st);
      var prev := StitchLine(line, n - 1, box, st);
      var s := Segment(line[n - 1], line[n]);
      match ClipSegment(s, box)
      case None =>
      case Some(c) =>
        ClippedSegmentInBox(s, box);
        EmitInBox(prev, c, box);
    }
  }

  /** For a box with whole-number sides, every point `clipLine` returns lies in the closed box. */
  lemma {:induction false} ClipAllInBox(lines: seq<seq<Point>>, m: nat, box: Box)
    requires WholeBox(box) && m <= |lines|
    ensures AllInBox(ClipAll(lines, m, box), box)
  {
    if m > 0 {
      ClipAllInBox(lines, m - 1, box);
      var line := lines[m - 1];
      StitchLineInBox(line, SegmentCount(line), box, Stitch(ClipAll(lines, m - 1, box), None));
    }
  }

  // ---------------------------------------------------------------------------
  // Lines are clipped independently

  /** The output for one line on its own. */
  function LineOutput(line: seq<Point>, box: Box): seq<seq<Point>>
  {
    StitchLine(line, SegmentCount(line), box, Stitch([], None)).lines
  }

  /** Earlier output lines are never touched by later segments. */
  lemma {:induction false} StitchLinePrefix(line: seq<Point>, n: nat, box: Box, out0: seq<seq<Point>>, st: Stitch)
    requires n <= SegmentCount(line) && Aliased(st)
    ensures StitchLine(line, n, box, Stitch(out0 + st.lines, st.current))
      == Stitch(out0 + StitchLine(line, n, box, st).lines, StitchLine(line, n, box, st).current)
  {
    if n > 0 {
      StitchLinePrefix(line, n - 1, box, out0, st);
      var prev := StitchLine(line, n - 1, box, st);
      match ClipSegment(Segment(line[n - 1], line[n]), box)
      case None =>
      case Some(c) =>
        var big := Stitch(out0 + prev.lines, prev.current);
        if EndsWith(prev.current, c.p0) {
          var k := |prev.lines|;
          assert (out0 + prev.lines)[..|out0| + k - 1] == out0 + prev.lines[..k - 1];
        }
    }
  }

  /** The output of several lines is each line's own output, one after another. */
  lemma ClipAllStep(lines: seq<seq<Point>>, m: nat, box: Box)
    requires 0 < m <= |lines|
    ensures ClipAll(lines, m, box) == ClipAll(lines, m - 1, box) + LineOutput(lines[m - 1], box)
  {
    var line := lines[m - 1];
    StitchLinePrefix(line, SegmentCount(line), box, ClipAll(lines, m - 1, box), Stitch([], None));
    assert ClipAll(lines, m - 1, box) + [] == ClipAll(lines, m - 1, box);
  }

  /** While every segment is kept whole, the whole line so far is one output line. */
  lemma {:induction false} InsidePrefixStitched(line: seq<Point>, n: nat, box: Box)
    requires 1 <= n <= SegmentCount(line)
    requires forall j :: 0 <= j < |line| ==> InHalfOpenBox(line[j], box)
    ensures StitchLine(line, n, box, Stitch([], None)) == Stitch([line[..n + 1]], Some(line[..n + 1]))
  {
    var s := Segment(line[n - 1], line[n]);
    assert InHalfOpenBox(line[n - 1], box) && InHalfOpenBox(line[n], box);
    InsideSegmentUnchanged(s, box);
    if n > 1 {
      InsidePrefixStitched(line, n - 1, box);
      var prev := Stitch([line[..n]], Some(line[..n]));
      assert EndsWith(prev.current, line[n - 1]);
      assert line[..n] + [line[n]] == line[..n + 1];
      assert Emit(prev, s) == Stitch([line[..n + 1]], Some(line[..n + 1]));
    } else {
      assert [line[0], line[1]] == line[..2];
    }
  }

  /** A line of at least two points, all inside the half-open box, comes back unchanged. */
  lemma InsideLineUnchanged(line: seq<Point>, box: Box)
    requires |line| >= 2
    requires forall j :: 0 <= j < |line| ==> InHalfOpenBox(line[j], box)
    ensures ClipAll([line], 1, box) == [line]
  {
    InsidePrefixStitched(line, |line| - 1, box);
    assert line[..|line|] == line;
    ClipAllStep([line], 1, box);
  }
}
