# mapwhit/geometry in Dafny

A model of the planar-geometry library mapwhit/geometry. It covers the four
files in `lib/`, with every coordinate an exact `real`:

- `util.js`: orientation test, shoelace signed area, closed-polygon check and
  bounding boxes.
- `intersections.js`: box overlap, even-odd ray casting for one ring and for
  many rings, orientation-based segment crossing, squared point-to-segment
  distance, and the polygon / buffered point / multi-polygon / buffered
  multi-line / box hit tests.
- `clip.js`: `clipLine`, which trims every segment of every polyline against
  the half-open box `[x1, x2) x [y1, y2)`, rounds the trimmed ends, and
  stitches the kept segments into output lines.
- `poi.js`: the pole-of-inaccessibility search. It covers the signed distance
  to the outline, the area-weighted centroid seed, cells with the bound
  `max = d + h * SQRT2`, and the best-first loop over a max-priority queue of
  cells.

Files and modules:

| file | module | contents |
|---|---|---|
| `wrappers.dfy` | `Wrappers` | `Option` and `Result` |
| `arith.dfy` | `Arith` | products behind `Mul` and `Sq`, with small ring lemmas |
| `util.dfy` | `Util` | `Point`, `Box` and `lib/util.js` |
| `intersections.dfy` | `Intersections` | `lib/intersections.js` |
| `clip.dfy` | `Clip` | `lib/clip.js` |
| `poi.dfy` | `Poi` | `lib/poi.js` |

The source's loops are methods proved against specification functions:

| method | specification |
|---|---|
| `CalculateSignedArea` | `SignedArea` |
| `PolygonContainsPoint` | `RingContains` |
| `MultiPolygonContainsPoint` | `MultiContains` |
| `ClipLine` | `ClipAll` |
| `PointToPolygonDist` | `SignedDist` |
| `GetCentroidCell` | `CentroidCell` |

Lemmas then prove the source's promises about those functions.

Modelling choices:

- **Hit tests:** each early-exit loop is proved equal to a ghost predicate
  that states the hit directly, for example "some vertex of A is inside B,
  or some edges cross".
- **Square roots:** `Math.sqrt` is a parameter `sqrt: real -> real`. The
  sign and magnitude facts assume only `IsSqrt`: a non-negative square root
  of every non-negative number.
- **`Math.SQRT2`:** the exact value of the IEEE double.
- **Priority queue:** the `tinyqueue` queue is a `seq<Cell>` with push
  (append) and pop-max (`PopMax`).
- **`getBoundingBox`:** it is imported by `intersections.js` and `poi.js`,
  but its body is not part of this model. `Util.BoundingBox` is a recursive
  function specified from `test/util.js`: an empty ring gives the zero box,
  and otherwise every point lies within the bounds and each bound is
  attained.

Where the source's own comments and its code disagree, the model follows the
code:

- **Best-cell update:** the comment at `lib/poi.js:60` says the best cell is
  replaced by a better one, but the test at `lib/poi.js:61` also replaces it
  whenever `bestCell.d === 0`. So the best distance can fall from 0 to a
  negative value, not only rise. `UpdateBest` and `BestCanFallFromZero`
  state exactly this.
- **Precision 0:** the doc comment at `lib/poi.js:10` says that precision 0
  "returns after first run". The loop has no such exit, and over the reals
  it need not stop. The model requires `precision > 0`.
- **Winding names:** `lib/util.js:2` calls the turn with a positive cross
  product "counter clockwise". `lib/util.js:14-19` says a positive signed
  area means a clockwise ring. In one frame these name the same turning
  direction oppositely: `TriangleArea` proves that the signed area is
  positive exactly when `isCounterClockwise` holds. The model keeps the
  code's sign and names the orientation as `isCounterClockwise` does
  (counter-clockwise with y up; clockwise with y down, as in tile
  coordinates).
- **Edge test direction:** `edgeIntersectsBox` (`lib/intersections.js:357-377`)
  uses the strict orientation test, so a box corner on the edge's line
  counts as clockwise whichever way the edge runs. The result can then
  depend on the edge's direction. `EdgeIntersectsBoxReversed` and
  `EdgeIntersectsBoxDependsOnDirection` state when it does not and an
  instance where it does.

## Model

| member | source | states |
|---|---|---|
| Util.CounterClockwiseIsPositiveCross | lib/util.js:9-11 | `isCounterClockwise` holds iff the cross product of (b - a) and (c - a) is strictly positive |
| Util.CounterClockwiseSwap | lib/util.js:9-11 | swapping a and b negates the cross product, so off the line through them the orientation flips |
| Util.CounterClockwiseRotate | lib/util.js:9-11 | the orientation test is unchanged by rotating the points cyclically (a, b, c) to (b, c, a) |
| Util.CounterClockwiseReverse | lib/util.js:9-11 | (a, b, c) and (c, b, a) are never both counter-clockwise |
| Util.CollinearNotCounterClockwise | lib/util.js:9-11 | the test is strict: a third point on the line through a and b is never counter-clockwise |
| Util.CoincidentNotCounterClockwise | lib/util.js:9-11 | two coincident points make the test false |
| Util.CalculateSignedArea | lib/util.js:21-30 | the loop that carries the previous point from the last point of the ring returns the shoelace sum `SignedArea` |
| Util.ShortRingHasNoArea | lib/util.js:21-30 | rings of 0, 1 or 2 points have signed area 0 |
| Util.ChainOnLine | lib/util.js:25-28 | along one line, in any direction, the edge terms of an open chain telescope to a difference at its two ends |
| Util.CollapsedRingHasNoArea | lib/util.js:21-30 | a ring whose points all lie on one line (horizontal, vertical or slanted) has signed area 0 |
| Util.TriangleArea | lib/util.js:21-30 | on a triangle the signed area is the cross product of `isCounterClockwise`, so it is positive exactly when the triangle is counter-clockwise by that test |
| Util.ChainReverse | lib/util.js:26 | the sum of edge terms along a reversed chain is the negated sum |
| Util.ReverseNegatesSignedArea | lib/util.js:21-30 | reversing a ring's points negates its signed area |
| Util.SquareSignedArea | lib/util.js:21-30 | the closed 10 x 10 square (0,0), (10,0), (10,10), (0,10) gives +200, twice its area, and the reverse order gives -200 |
| Util.ClosedPolygonMeaning | lib/util.js:38-54 | `isClosedPolygon` holds iff there are at least 4 points, the first equals the last, and the absolute signed area exceeds 0.01 |
| Util.ClosedPolygonReverse | lib/util.js:38-54 | reversing the points does not change `isClosedPolygon` |
| Util.BoundingBox | test/util.js:187-311 | an empty ring gives the all-zero box; otherwise every point lies within the bounds and each of the four bounds is attained by some point |
| Intersections.BoxesIntersectSymmetric | lib/intersections.js:13-15 | box overlap is symmetric in its two boxes |
| Intersections.BoxesIntersectMeaning | lib/intersections.js:13-15 | for well-formed boxes, overlap holds iff some point lies in both closed boxes, so touching boxes intersect |
| Intersections.DistSqr | lib/intersections.js:264-266 | the squared distance is never negative |
| Intersections.DistSqrZero | lib/intersections.js:264-266 | the squared distance is 0 iff the two points are equal |
| Intersections.DistToSegmentSquared | lib/intersections.js:240-256 | the squared point-to-segment distance is never negative |
| Intersections.DistToSegmentBounds | lib/intersections.js:240-256 | the distance to the segment is at most the distance to either endpoint |
| Intersections.DistToSegmentDegenerate | lib/intersections.js:241-244 | on a zero-length segment the result is the distance to its point |
| Intersections.DistToSegmentOnSegment | lib/intersections.js:245-255 | a point on the segment (parameter in [0, 1]) is at distance 0 |
| Intersections.DistToSegmentAtEndpoints | lib/intersections.js:240-256 | both endpoints are at distance 0 from their segment |
| Intersections.SegmentsIntersectSymmetric | lib/intersections.js:198-203 | the segment crossing test is unchanged when the two segments are swapped |
| Intersections.LineIntersectsLine | lib/intersections.js:170-188 | the nested loop returns true iff some segment of line A crosses some segment of line B |
| Intersections.LinesCrossSymmetric | lib/intersections.js:170-188 | the line crossing test is symmetric in its two lines |
| Intersections.PointIntersectsBufferedLine | lib/intersections.js:212-230 | true iff the point is strictly within radius of the single point, or of some segment, of the line |
| Intersections.VertexIsNearLine | lib/intersections.js:212-230 | a vertex of the line is a hit for any non-zero radius |
| Intersections.NearLineMonotone | lib/intersections.js:212-230 | a hit at one radius stays a hit at every larger radius |
| Intersections.EdgeCrossesStraddles | lib/intersections.js:300 | the ray-crossing division is evaluated only when the edge straddles y, so its denominator is not zero |
| Intersections.PolygonContainsPoint | lib/intersections.js:295-305 | the toggling loop over the edges (i, j) returns the even-odd parity `RingContains` |
| Intersections.MultiPolygonContainsPoint | lib/intersections.js:274-287 | the loop over all rings returns `MultiContains`, which on a single ring equals `polygonContainsPoint` |
| Intersections.MultiContainsAppend | lib/intersections.js:274-287 | the multi-ring parity of a concatenation is the XOR of the parities of its two parts |
| Intersections.MultiContainsIsXor | lib/intersections.js:274-305 | multi-ring containment is the XOR of single-ring containment over the rings |
| Intersections.MultiContainsOddCount | lib/intersections.js:274-287 | multi-ring containment holds iff an odd number of rings contain the point |
| Intersections.AnyPointInside | lib/intersections.js:38-49 | the early-exit loop returns true iff some given point is inside the ring |
| Intersections.PolygonIntersectsPolygon | lib/intersections.js:23-57 | true iff both polygons have points, their bounding boxes overlap, and some point of either is inside the other or some edges cross; so it is false when a polygon is empty or the boxes are disjoint |
| Intersections.PolygonsIntersectSymmetric | lib/intersections.js:23-57 | polygon-polygon intersection is symmetric |
| Intersections.PolygonIntersectsBufferedPoint | lib/intersections.js:66-74 | true iff the point is inside the polygon or strictly within radius of its outline |
| Intersections.BufferedVertexHits | lib/intersections.js:66-74 | a polygon vertex is hit by any non-zero buffer |
| Intersections.OutlineAtRadiusMisses | lib/intersections.js:212-230 | the buffer is open: a point outside whose outline is no closer than radius is not a hit |
| Intersections.PolygonIntersectsMultiPolygon | lib/intersections.js:82-108 | a one-point polygon is tested for multi-ring containment; otherwise true iff some ring vertex is inside the polygon, some polygon vertex is inside the multi-polygon, or some ring crosses the polygon |
| Intersections.SingleRingMultiPolygon | lib/intersections.js:82-108 | with one ring and overlapping bounding boxes, the multi-polygon test agrees with `polygonIntersectsPolygon` |
| Intersections.AnyPointNear | lib/intersections.js:148-159 | the early-exit loop returns true iff some point is strictly within radius of the line |
| Intersections.LineIntersectsBufferedLine | lib/intersections.js:141-162 | true iff the lines cross (when A has a segment), a point of B is near A (when A has a segment), or a point of A is near B |
| Intersections.BufferedLinesMeetSymmetric | lib/intersections.js:141-162 | for lines with at least two points, the buffered line test is symmetric |
| Intersections.SharedVertexMeets | lib/intersections.js:141-162 | lines that share a vertex meet for any non-zero radius |
| Intersections.PolygonIntersectsBufferedMultiLine | lib/intersections.js:117-132 | true iff some line has a point inside the polygon (for polygons of 3 or more points) or meets the polygon within radius |
| Intersections.EdgeIntersectsBoxReversed | lib/intersections.js:357-377 | when no box corner lies on the edge's line, the edge test gives the same answer for both directions of the edge |
| Intersections.EdgeIntersectsBoxDependsOnDirection | lib/intersections.js:370-376 | an edge through a box corner can meet the box in one direction and miss it in the other |
| Intersections.PolygonIntersectsBox | lib/intersections.js:316-348 | the result is "a vertex in the closed box, a box corner inside the ring, or an edge meeting the box as `edgeIntersectsBox` decides"; a vertex in the closed box makes it true; an empty ring gives false |
| Clip.Round | lib/clip.js:76-81 | `Math.round` gives a whole number within half a unit: r - 0.5 <= v < r + 0.5 |
| Clip.RoundInteger | lib/clip.js:76-81 | rounding leaves whole numbers unchanged |
| Clip.RoundMonotone | lib/clip.js:76-81 | rounding is monotone |
| Clip.RoundNearest | lib/clip.js:76-81 | rounding gives the integer k whenever k - 0.5 <= v < k + 0.5 |
| Clip.RoundWithin | lib/clip.js:76-81 | rounding never crosses a whole-number bound |
| Clip.RoundPoint | lib/clip.js:76-81 | `round(x, y)` rounds both coordinates |
| Clip.CrossXBetween | lib/clip.js:26-28 | the interpolated y on a vertical side lies between the endpoints' y values |
| Clip.CrossYBetween | lib/clip.js:35-37 | the interpolated x on a horizontal side lies between the endpoints' x values |
| Clip.InsideSegmentUnchanged | lib/clip.js:22-56 | a segment with both ends in the half-open box is kept with its original, unrounded ends |
| Clip.BeyondOneSideDropped | lib/clip.js:22-56 | with whole-number sides, a segment wholly left of x1, wholly at or right of x2, or wholly at or below y2 is dropped; so is one wholly above y1 that does not cross x1 |
| Clip.LeftOrAboveDropped | lib/clip.js:22-33 | for any box, a segment wholly left of x1 is dropped, and so is one wholly above y1 that does not cross x1 |
| Clip.FractionalRightSideKept | lib/clip.js:22-47 | with a fractional right side, a vertical segment at or right of it that crosses the top side is rounded left of the side and kept |
| Clip.RoundingLiftsOntoTopSide | lib/clip.js:22-38 | a level segment within half a unit above y1 that crosses x1 is rounded onto the top side and kept as the corner point, although neither end is in the box |
| Clip.LeftStageBounds | lib/clip.js:22-29 | after the left stage both ends are at or right of x1 |
| Clip.TopStageBounds | lib/clip.js:31-38 | after the top stage both ends are also at or below y1 |
| Clip.RightStageBounds | lib/clip.js:40-47 | after the right stage both ends also lie within [x1, x2] |
| Clip.BottomStageBounds | lib/clip.js:49-56 | after the bottom stage both ends lie in the closed box |
| Clip.ClippedSegmentInBox | lib/clip.js:22-56 | with whole-number sides, both ends of every kept segment lie in the closed box |
| Clip.ClipStages | lib/clip.js:22-56 | the four trimming stages with their early `continue`s keep the segment iff `ClipSegment` keeps it, and return its ends |
| Clip.Emit | lib/clip.js:58-63 | after stitching a segment, the current line is the last output line |
| Clip.EmitExtendsIff | lib/clip.js:58-63 | a kept segment extends the current line (by its end) iff the line ends at its start; otherwise it starts a new line `[p0, p1]`; earlier lines are unchanged |
| Clip.StitchLine | lib/clip.js:18-63 | stitching the segments of one line keeps the current line aliased to the last output line |
| Clip.ClipLine | lib/clip.js:11-68 | the nested loops return exactly `ClipAll` over all lines |
| Clip.EmitPairs | lib/clip.js:58-63 | stitching adds exactly the kept segment to the segments of the output |
| Clip.StitchLinePairs | lib/clip.js:18-63 | the segments of the output grow by exactly the kept segments of the line, in order |
| Clip.ClipAllPairs | lib/clip.js:11-68 | the segments of the output lines are exactly the kept segments of all input lines, in order |
| Clip.StitchLineLong | lib/clip.js:58-63 | stitching keeps every output line at least two points long |
| Clip.ClipAllLong | lib/clip.js:11-68 | every output line has at least two points |
| Clip.ClipAllEmptyIff | lib/clip.js:11-68 | the output is empty iff no segment is kept |
| Clip.ShortLinesNothingKept | lib/clip.js:14-18 | lines of fewer than two points contribute no segment |
| Clip.ShortLinesClipToNothing | lib/clip.js:14-18 | empty input, or lines of fewer than two points only, give empty output |
| Clip.LeftOfBoxNothingKept | lib/clip.js:22-24 | a line whose segments all lie left of x1 keeps nothing |
| Clip.LeftOfBoxLinesNothingKept | lib/clip.js:22-24 | lines wholly left of x1 keep no segment |
| Clip.LeftOfBoxClipsToNothing | lib/clip.js:11-68 | lines wholly left of x1 give empty output |
| Clip.EmitInBox | lib/clip.js:58-63 | stitching a segment whose ends are in the closed box keeps all output in the box |
| Clip.StitchLineInBox | lib/clip.js:18-63 | stitching one line keeps all output in the closed box |
| Clip.ClipAllInBox | lib/clip.js:11-68 | with whole-number sides, every output point lies in the closed box |
| Clip.StitchLinePrefix | lib/clip.js:15-16 | stitching one line depends only on the current line, never on earlier output |
| Clip.ClipAllStep | lib/clip.js:14-16 | the output is the output of the earlier lines followed by this line's own output, so no output line mixes two input lines |
| Clip.InsidePrefixStitched | lib/clip.js:18-63 | the first n segments of a line inside the half-open box stitch into its first n + 1 points |
| Clip.InsideLineUnchanged | lib/clip.js:11-68 | a line of two or more points, all inside the half-open box, comes back unchanged as the only output line |
| Poi.RingMinIsLeast | lib/poi.js:97-108 | the running minimum over a ring's edges, including the wrap-around edge, is at most every edge distance and is attained |
| Poi.PolygonMinIsLeast | lib/poi.js:96-110 | the running minimum over all rings is defined iff some ring has a point, and it is the least edge distance and is attained |
| Poi.MinDistSqIsLeast | lib/poi.js:91-110 | the least squared edge distance is defined iff some ring has a point; it is a lower bound, is attained, and is non-negative |
| Poi.PointToPolygonDist | lib/poi.js:91-114 | the loop over rings and edges returns `SignedDist`: the root of the least squared edge distance, negated when the even-odd parity over all rings is even |
| Poi.SignedDistSign | lib/poi.js:91-114 | the signed distance is positive iff the point is inside by `multiPolygonContainsPoint` and off the outline, negative iff it is outside and off the outline, and its square is the least squared edge distance |
| Poi.VertexOnOutline | lib/poi.js:91-114 | every vertex of every ring has signed distance 0 |
| Poi.MakeCell | lib/poi.js:165-175 | a cell has the given centre and half-size, d is the signed distance at its centre, and max = d + h * SQRT2 |
| Poi.CellMaxAboveDistance | lib/poi.js:168 | max >= d when h >= 0, max > d when h > 0, and max = d when h = 0 |
| Poi.CompareMax | lib/poi.js:153-155 | the comparison is negative, zero or positive exactly when a.max is greater than, equal to or less than b.max |
| Poi.CompareMaxAntisymmetric | lib/poi.js:153-155 | swapping the two cells negates the comparison |
| Poi.GetCentroidCell | lib/poi.js:121-145 | the accumulating loop returns `CentroidCell`: the first point when the accumulated area is below 1e-10 in magnitude, otherwise (x / area, y / area), always with h = 0 |
| Poi.CentroidAreaPrefix | lib/poi.js:130-137 | the area accumulated over the first k edges relates to the shoelace chain of the first k points |
| Poi.CentroidAreaIsSignedArea | lib/poi.js:130-137 | the accumulated area is -3 times the ring's `calculateSignedArea` |
| Poi.FlatRingCentroidAtFirstPoint | lib/poi.js:139-142 | a ring of zero signed area gives the centroid cell at its first point |
| Poi.PopMax | lib/poi.js:58 | the popped cell has the greatest max of the queue (by `compareMax`), and the rest is the queue without it |
| Poi.UpdateBest | lib/poi.js:61-63 | the new best is the old best or the popped cell; its d is at least the cell's d; it is below the old best's d only when that was 0; otherwise it is the larger of the two |
| Poi.BestCanFallFromZero | lib/poi.js:61-63 | a best distance of exactly 0 is replaced even by a cell farther outside |
| Poi.UpdateBestKeepsDeepest | lib/poi.js:61-63 | if no probed cell with positive d is deeper than the best, this still holds after the update |
| Poi.Split | lib/poi.js:72-76 | a split gives four cells of half-size h/2, centred h/2 away from the parent's centre on both axes |
| Poi.SmallCellNotSplit | lib/poi.js:67-69 | a cell with h * SQRT2 <= precision is never split |
| Poi.DepthHalves | lib/poi.js:72-76 | halving a cell that is split strictly lowers its remaining subdivision depth |
| Poi.SplitLowersWeight | lib/poi.js:72-76 | replacing a split cell with its four children strictly lowers the queue's termination measure |
| Poi.GridEnd | lib/poi.js:35-37 | stepping from min by cellSize reaches max after finitely many steps, and every step that starts below max comes before that point |
| Poi.GridCovers | lib/poi.js:35-37 | every value between min and max lies in the span of some step that starts below max |
| Poi.PopKeeps | lib/poi.js:58 | popping keeps every queued cell built by `makeCell`, and lowers the measure by the popped cell's weight |
| Poi.PushFour | lib/poi.js:72-76 | the four children are the split of the cell; pushing them keeps the queue built by `makeCell` and lowers the measure |
| Poi.PushQuarters | lib/poi.js:72-76 | the queue gains exactly the four quarters in source order, stays built by `makeCell`, and its measure drops below that of the queue still holding the split cell |
| Poi.SeedCells | lib/poi.js:34-40 | the seeds are exactly the grid cells: for every square (a, b) whose corner (minX + a * cellSize, minY + b * cellSize) lies below (maxX, maxY), the cell of half-side cellSize / 2 centred in it is a seed, and every seed is such a cell |
| Poi.SeedGridCells | lib/poi.js:34-40 | every grid seed has h = cellSize / 2 and is built by `makeCell`; a box with positive width and height gives at least one seed |
| Poi.SeedsCoverBox | lib/poi.js:33-40 | the seeds cover the bounding box: every point of it lies in the square of some seed cell |
| Poi.ProbeKeeps | lib/poi.js:60-63 | recording a probed cell keeps the earlier probes and the deepest-so-far property |
| Poi.BestAfterIsProbe | lib/poi.js:60-64 | the running best over the popped cells is the first guess or one of the popped cells |
| Poi.PopStep | lib/poi.js:56-77 | one pop updates the running best; with or without the split, the queue and the popped cells together stay the seeds plus the quarters pushed, and the popped cell was a seed or an earlier quarter |
| Poi.QuartersAreSplits | lib/poi.js:66-76 | every quarter pushed is a quarter of some popped cell whose bound beat the running best by more than precision |
| Poi.SearchStep | lib/poi.js:56-77 | one turn of the loop, in either branch, keeps the search state: a genuine queue, the balance of popped and pushed cells, and the running best among the probes |
| Poi.Search | lib/poi.js:56-77 | the loop terminates for precision > 0; the popped cells are exactly the seeds and the quarters pushed, each popped once, each a seed or a quarter of an earlier split cell; the result is the running best over them; no probed cell with positive d is deeper, and a strictly-inside first guess is never bettered by a shallower result |
| Poi.FirstGuess | lib/poi.js:45-54 | the first guess is the centroid cell when it is not outside; otherwise it is whichever of the centroid and box-centre cells has the larger d |
| Poi.StartCell | lib/poi.js:45-54 | the centroid cell is probed, and the box-centre cell too exactly when the centroid has d < 0; the best is `FirstGuess` of the two and is among the probes |
| Poi.SearchBox | lib/poi.js:31-81 | the seeds are the grid over the box; the probes are the centroid, then the box centre when the centroid is outside, then the drained queue; the pole is the centre of the running best over the popped cells |
| Poi.FindPoleOfInaccessibility | lib/poi.js:14-82 | a missing or empty outer ring fails with "Invalid polygon: empty outer ring"; a zero-width or zero-height box gives (minX, minY); otherwise the seeds are the grid of side min(width, height) over the box, the probes are the centroid, the box-centre fallback and the drained queue, the result is the centre of the running best over the popped cells, and no probed cell with positive d is deeper |

## Left out

- Floating point: coordinates are exact reals. IEEE rounding, `NaN`, the
  infinities and `Number.isFinite` (`lib/poi.js:49-51`) are not modelled. Over
  the reals a distance is always finite, so those checks never fire.
- `Math.sqrt` is the parameter `sqrt`. Only `SignedDistSign` and
  `VertexOnOutline` assume it is a square root (`IsSqrt`).
- `Math.round` is `Floor(v + 0.5)`. The float behaviour at exact half-way
  values is not reproduced.
- The `tinyqueue` heap is a sequence with append and pop-max. Among cells
  with equal `max`, `PopMax` takes the first; the heap's own tie order is not
  modelled.
- The default `precision = 1` is an explicit parameter.
- FindPoleOfInaccessibility: requires `precision > 0`. Over the reals the loop
  need not stop for precision 0, and the claim at `lib/poi.js:10` that
  precision 0 "returns after first run" does not match the code.
- FindPoleOfInaccessibility: does not prove that the result is within
  precision of the true pole. The Lipschitz meaning of `max` is not proved.
  The contract states only that the result is the centre of a probed cell
  that no probed cell with positive d beats.
- FindPoleOfInaccessibility: the seeding loop, the first guess, the search
  loop and the four-way split are the separate methods `SeedCells`,
  `StartCell`, `Search` and `PushQuarters`, called in the source's order by
  `SearchBox`.
- SeedCells: `x += cellSize` is exact over the reals. In floating point the
  accumulated steps can round, which can add or drop a last column or row.
- Search: the order in which cells are popped is stated per pop (`PopMax`
  takes a cell of greatest `max`), not as a property of the whole trace.
- PointToPolygonDist: requires some ring to have a point. With no edge the
  source returns `-Infinity` from `Math.sqrt(Infinity)`, which has no real
  counterpart. `findPoleOfInaccessibility` guarantees an edge before
  measuring.
- BeyondOneSideDropped: the right and bottom cases are stated only for
  boxes with whole-number sides. With a fractional side, rounding a trimmed
  end can move it back inside, so a segment wholly right of the box can be
  kept (`FractionalRightSideKept`). The left and top cases hold for every
  box (`LeftOrAboveDropped`).
- BeyondOneSideDropped: the "wholly above y1" case is stated only for
  segments that do not cross x1. When the left stage rounds a trimmed end,
  it can lift a segment onto the top side; `RoundingLiftsOntoTopSide`
  states exactly that case.
- ClipLine: the source aliases the current clipped line with the last entry
  of the output array. The model writes the extended line back into the last
  output slot, and the invariant `Aliased` states that this is the same
  array. In-place sharing itself is not modelled.
- getBoundingBox: its body is not part of this model. `Util.BoundingBox` is
  specified from its tests.
- The benchmarks and the test files are not modelled as code.
