# Polyline intersection engine in Dafny

This project models the intersection engine of a small TypeScript playground. The engine finds
every crossing between the straight segments of one or more polylines ("curves"). It works as a
quadtree-style worklist:

- The starting quadrant is a rectangle around all curves. It holds every segment, keyed by
  curve, and a counter. The key order is insertion order. At the start the counter is the
  sum over the curves of each curve's point count less one. That is the number of segments when
  no curve is empty or repeated: an empty curve adds -1, and a curve passed twice is summed twice
  although the map holds it once.
- A FIFO queue of quadrants is processed one quadrant at a time.
- A quadrant whose counter is at most 2 is solved by brute force. In a child the counter is the
  number of its segments with at least one end inside its rectangle; a segment with both ends
  inside counts once.
- Any other quadrant is split into four quarters. Each quarter keeps the segments that have an
  end inside it or cross one of its diagonals. The quarters that still hold enough curves go back
  on the queue.
- Duplicate results are removed afterwards with a first-occurrence filter. Its keys are the
  point rounded to 4 decimals and, for several curves, the pair of curve labels.

`code.ts` is the canonical copy of the engine. `playground.ts:132-247` repeats it and adds a
quadrant `level` and a diagnostic `count` of inspected quadrants. The model has both.

Modules, in dependency order:

- `Wrappers`: the `Option` type.
- `Geometry`: points, segments and rectangles as exact reals. Orientation, the crossing test,
  the rectangle tests, `divideRect`, and `twoLinesIntersection` both as written and corrected.
- `Curves`: point objects and segment objects with identities, `twoSegmentsConnected`, and
  `curveSegments`.
- `Quadrants`: the curve-to-segments map as an ordered sequence of entries, with
  `has`/`get`/`set`/`add`. Also the specification of the split and the imperative
  `divideQuadrant`.
- `Naive`: the brute-force solver `quadrantIntersections`, specified by a function and
  implemented with its nested loops.
- `Bounds`: the bounding-box folds, `initQuads`, and `Number.MAX_VALUE` / `Number.MIN_VALUE`.
- `Subdivision`: the worklist `divideTillSolved`, specified by a fuelled function `Explore`, and
  its soundness.
- `Dedup`: `distinctArray`, `pointIdentifier` and `resultIdentifierFactory`.
- `Api`: the three public entry points.
- `Scenario`: a worked run on two crossing diagonals.

Identity is modelled by numbers:

- A curve has an id.
- A point object has an id; `twoSegmentsConnected` compares these ids, as the source compares
  array references.
- A segment object is identified by its curve and its position in that curve.

Each Map or Set is a sequence in insertion order. A well-formedness predicate stands for the
uniqueness that Map and Set guarantee.

## Model

| member | source | states |
|---|---|---|
| Geometry.CcwCyclic | code.ts:19-20 | the orientation test is unchanged by rotating its three points |
| Geometry.CcwAsymmetric | code.ts:19-20 | the test is strict: ccw(a,b,c) and ccw(a,c,b) never hold together |
| Geometry.CcwCollinearFalse | code.ts:19-20 | three collinear points (or a repeated point) are never counter-clockwise, in any order |
| Geometry.IntersectSymmetric | code.ts:21-22 | the crossing test gives the same answer with the two segments swapped |
| Geometry.IntersectNeedsLength | code.ts:21-22 | a zero-length segment crosses nothing |
| Geometry.TJunctionPasses | code.ts:21-22 | the test is not a proper-crossing test: a segment whose end touches the middle of another passes it |
| Geometry.CornerTouchDependsOnDirection | code.ts:29-30 | a segment meeting a quarter only at a corner is kept or not depending on its direction |
| Geometry.FlippedInvolution | code.ts:27-28 | flipping twice gives back the segment |
| Geometry.AntiDiagonalCorners | code.ts:27-30 | the flipped diagonal of a rectangle runs from its top-left to its bottom-right corner, so the rectangle test is "crosses the main diagonal or the anti-diagonal" |
| Geometry.DivideRect | code.ts:31-37 | four quarters; for a well-formed rectangle each quarter is well-formed and lies inside the parent |
| Geometry.DivideRectCovers | code.ts:31-37 | a point is in a well-formed rectangle iff it is in one of its quarters |
| Geometry.DivideRectMeetsOnMidlines | code.ts:31-37 | a point in two different quarters lies on a midline |
| Geometry.TwoLinesIntersection | code.ts:50-59 | as written: undefined exactly when the guard's condition holds (a vertical s1 that is zero-length or has a vertical s2, or a horizontal s2 that is zero-length or has a horizontal s1); a non-finite point exactly in the two divide-by-zero cases and for parallel oblique lines |
| Geometry.AxisBranchVerticalFirst | playground.ts:167 | as written, a vertical s1 with a non-horizontal s2 gives the point of s2's line at y = ay |
| Geometry.AxisBranchHorizontalFirst | playground.ts:168 | as written, a horizontal s1 with a non-vertical s2 gives the point of s2's line at x = ax |
| Geometry.AxisBranchVerticalSecond | playground.ts:169 | line 169 always has a non-zero divisor; the point is on s1's line at y = cy |
| Geometry.AxisBranchHorizontalSecond | playground.ts:170 | line 170 always has a non-zero divisor; the point is on s1's line at x = cx |
| Geometry.GeneralBranchOnBothLines | playground.ts:171-172 | with all four deltas non-zero and different slopes, the point lies on both infinite lines |
| Geometry.ParallelIffSameSlope | code.ts:57-58 | two oblique lines are parallel iff their slopes are equal; neither slope is zero |
| Geometry.SlopeInverseDistinct | code.ts:57 | distinct non-zero slopes have distinct inverses, so the second divisor of line 58 is non-zero |
| Geometry.AsWrittenMisplacesCrossing | code.ts:53 | counterexample: a vertical and a diagonal segment crossing at (5,5); the code returns (0,0), which is not on the vertical segment's line |
| Geometry.AsWrittenPlusCrossingNonFinite | code.ts:53 | counterexample: a vertical and a horizontal segment crossing at (5,5); the code divides by zero |
| Geometry.TwoLinesIntersectionCorrected | code.ts:50-59 | the corrected function gives a point iff the two lines are not parallel |
| Geometry.CorrectedOnBothLines | code.ts:50-59 | the corrected point lies on both lines and keeps the fixed coordinate of an axis-aligned segment |
| Geometry.LinesMeetOnce | code.ts:50-59 | two non-parallel lines share at most one point |
| Geometry.CrossingNotParallel | code.ts:21-22 | segments that pass the crossing test are not parallel |
| Geometry.AsWrittenAgreesOffAxis | code.ts:50-59 | when neither segment is vertical or horizontal, the function as written gives the corrected point, or a non-finite value exactly when the corrected function gives none |
| Geometry.CrossingHasIntersection | code.ts:69-71 | for crossing segments the corrected function gives the unique common point of the two lines |
| Curves.ConnectedToItself | code.ts:60-61 | every segment is connected to itself, so line 69 never pairs a segment with itself when self-intersecting |
| Curves.FollowedPrefix | code.ts:96 | the filter keeps every point but the last, in order, so a kept point's index in the filtered list is its index in the curve |
| Curves.CurveSegments | code.ts:95-96 | filtering the points that have a successor and mapping each to a segment gives n-1 segments for n >= 1 points and none for 0; segment i joins point objects i and i+1 of the curve and has its own id |
| Curves.CurveSegmentsDistinct | code.ts:95-96 | the segments of a curve are pairwise distinct, as the members of a Set are |
| Curves.ConsecutiveSegmentsConnected | playground.ts:174-175 | consecutive segments share the point object between them, so they are connected |
| Quadrants.Get | code.ts:46 | a key that is absent reads as the empty set |
| Quadrants.Put | code.ts:45 | after `set`, the key is present and maps to the new value; other keys are unchanged |
| Quadrants.SetAdd | code.ts:46 | after `add`, the members are the old ones plus s; distinct members stay distinct |
| Quadrants.Record | code.ts:45-46 | "create if missing, then add" adds s to c's set and changes no other key |
| Quadrants.GetAt | code.ts:39 | with distinct keys, looking up an entry's key finds that entry's value |
| Quadrants.GetConcat | code.ts:45 | a lookup in a concatenation finds the first part's value when the key is there |
| Quadrants.PutAbsent | code.ts:45 | setting a new key appends an entry at the end, keeping insertion order |
| Quadrants.PutLast | code.ts:45 | setting the last key again replaces its value in place |
| Quadrants.RecordExtends | code.ts:45-46 | recording under the curve being scanned extends that curve's entry |
| Quadrants.KeptMembers | code.ts:43-44 | a child keeps a segment iff the parent had it and it has an end inside the child or crosses one of its diagonals |
| Quadrants.KeptDistinct | code.ts:46 | the kept segments are distinct |
| Quadrants.EndsOfKept | code.ts:43 | every segment with an end inside is kept, so the counter counts kept segments |
| Quadrants.ChildMapKeys | code.ts:45 | a child's keys are among the parent's, and no child entry is empty |
| Quadrants.ChildMapWellFormed | code.ts:45-46 | a child's map has distinct keys and set values |
| Quadrants.ChildMapGet | code.ts:41-47 | a child's segments for c are the parent's segments for c that it keeps, in order |
| Quadrants.ChildEndsOfKept | code.ts:43 | a child's counter equals the ends-inside count over its own entries |
| Quadrants.DivideChild | code.ts:38-49 | each child: quarter bounding, level + 1, well-formed, segments exactly the kept ones, a curve present iff it kept a segment, no empty entry, counter equal to the number of recorded segments with an end inside |
| Quadrants.DivideOnlyRelevant | code.ts:43-46 | a child records s under c iff the parent held s under c and s is relevant to the child |
| Quadrants.PartialStep | code.ts:43-46 | one offer of a segment to a child, stated on the specification |
| Quadrants.KeptSnoc | code.ts:43-44 | offering one more segment extends the kept list and the counter by that segment's share |
| Quadrants.Place | code.ts:43-46 | the body of the inner `forEach` moves a child from one partial state to the next |
| Quadrants.AddCurve | code.ts:41-47 | offering every segment of c to every child gives the children after c |
| Quadrants.DivideQuadrant | code.ts:38-49 | the imperative split returns exactly `Divide(quad)` |
| Quadrants.ChildFromSnoc | code.ts:40 | a child after one more entry is the partial state with all of that entry's segments |
| Naive.PairHitsMembers | code.ts:69-71 | a result for one pair exists iff the pair passes line 69 and the corrected function gives its point |
| Naive.PairHitsAsWritten | code.ts:69-71 | for two oblique segments, a pair that passes line 69 gets a finite point from line 70 as written, and exactly that result is pushed; other pairs push nothing |
| Naive.SegmentHitsMembers | code.ts:68 | a result for s1 against a curve exists iff one of that curve's segments gives it |
| Naive.CandidateHitsMembers | code.ts:67 | a result for s1 exists iff one candidate entry gives it |
| Naive.CurveHitsMembers | code.ts:66 | a result for a curve exists iff one of its segments gives it |
| Naive.CandidatesMembers | code.ts:67 | an entry is a candidate iff self-intersecting or its curve is not yet checked |
| Naive.FlattenMembers | code.ts:64-73 | a result of the rounds is a result of one of them |
| Naive.QuadrantHitsMembers | code.ts:62-76 | r is a result iff some pair of segments from entries i and j passes line 69 with j's curve unchecked at round i (unless self-intersecting) and gives r's point |
| Naive.CheckedIffEarlier | code.ts:65-67 | with distinct keys, round i has checked exactly the curves of entries 0..i |
| Naive.QuadrantHitsExactly | code.ts:62-76 | with distinct keys, r is a result iff some s1 of entry i and s2 of entry j with i < j (any i, j when self-intersecting) pass line 69 and give r's point |
| Naive.DistinctCurvesWithoutSelf | code.ts:67 | without self-intersection a result never names one curve twice |
| Naive.NeverConnectedWithSelf | code.ts:69 | with self-intersection a result never comes from connected segments or from a segment with itself |
| Naive.QuadrantIntersections | code.ts:62-76 | the nested loops return exactly the specified results, in order |
| Naive.ScanCurve | code.ts:66-73 | the loops for one curve return that curve's round |
| Naive.ScanCandidates | code.ts:67-73 | the loop over candidates returns s1's results against them |
| Naive.ScanSegments | code.ts:68-72 | the innermost loop returns s1's results against one curve |
| Bounds.TwoRectsFitInRect | code.ts:87-88 | the result's min corner is the smaller of the two, and its max corner is the larger, coordinate by coordinate |
| Bounds.MultipleRectsFitInRect | code.ts:89-90 | the fold starts at [[0,0],[0,0]], so the origin is always inside |
| Bounds.MultipleRectsContain | code.ts:89-90 | every point of every input rectangle is inside the result |
| Bounds.CurveFitInRectContains | code.ts:91-94 | every point of the curve is inside its box |
| Bounds.CurveFitInRectLimits | code.ts:94 | the box's min corner is at most `Number.MAX_VALUE` and its max corner at least `Number.MIN_VALUE` (a positive number) |
| Bounds.CurveFitInRectTight | code.ts:91-94 | each side touches a point of the curve or keeps its starting value |
| Bounds.PutWellFormed | code.ts:99 | `new Map(...)` keeps distinct keys and set values |
| Bounds.InitialMapWellFormed | code.ts:99 | the starting map is well-formed and its keys are the curves' ids |
| Bounds.InitialMapGet | code.ts:99 | with distinct curves, each curve maps to its own segments |
| Bounds.InitialCounter | code.ts:100 | with distinct non-empty curves, the counter Σ(len-1) equals the number of segments in the map |
| Bounds.InitQuadsContents | playground.ts:213-228 | level 0, well-formed, keyed by the curves, with the origin and every curve point inside the bounding box |
| Subdivision.KeepChildrenMembers | code.ts:83 | a child is pushed iff it holds at least 2 curves (at least 1 when self-intersecting) |
| Subdivision.ResultsAppend | code.ts:82 | results of consecutive visits are concatenated |
| Subdivision.ExploreFifo | code.ts:81-83 | the inspected quadrants followed by those still queued are the initial queue followed by all pushed children: FIFO order |
| Subdivision.FifoStep | code.ts:81-83 | one shift-and-push step preserves the FIFO equation |
| Subdivision.ExploreVisits | code.ts:82-83 | a quadrant is solved iff its counter is at most 2; a split pushes exactly the children of `Divide` with enough curves, each one level deeper and bounded by one of the parent's quarters |
| Subdivision.ExploreFuel | playground.ts:195-197 | the run inspects at most fuel quadrants, and stops early only once its queue is empty |
| Subdivision.ExploreStable | code.ts:81 | once the queue empties, more fuel changes nothing |
| Subdivision.GetIsAnEntry | code.ts:63 | a non-empty lookup comes from an entry with that key |
| Subdivision.DivideKeeps | code.ts:83 | a child of a sound quadrant is sound: its segments under c were the original's under c |
| Subdivision.StepKeeps | code.ts:82-83 | every pushed child is well-formed and sound |
| Subdivision.StepWellFormed | code.ts:82-83 | pushed children are well-formed; a quadrant is solved iff its counter is at most 2 |
| Subdivision.AppendWellFormed | code.ts:83 | pushing well-formed children keeps the queue well-formed |
| Subdivision.SolvedJustified | code.ts:82 | every result of a solved sound quadrant comes from crossing segments of the original curves |
| Subdivision.ResultsCons | code.ts:82 | the results of a run are the first visit's results followed by the rest |
| Subdivision.ExploreKeeps | code.ts:79-86 | a quadrant property that every step passes on to the children it pushes, and that makes every result of a solved quadrant acceptable, makes every result of the whole run acceptable |
| Subdivision.ExploreSound | code.ts:79-86 | every result names two curves (different unless self-intersecting) and segments of theirs in the starting map that pass line 69 and give its point |
| Subdivision.DivideTillSolved | playground.ts:193-212 | the loop returns the specified results in FIFO order, the number of inspected quadrants (`count`) and what is left queued |
| Subdivision.ReplayExplore | code.ts:79-86 | a run of `fuel` iterations is its first n iterations followed by a run of the remaining fuel from the queue they leave |
| Subdivision.Iterate | code.ts:81-84 | one iteration takes the head off the queue, adds its naive results when its counter is at most 2, and otherwise appends its kept children, advancing the loop state by one step |
| Dedup.IdSetMembers | code.ts:103-108 | the ids seen are exactly the ids of the elements |
| Dedup.FirstOccurrencesPositions | playground.ts:229-237 | the output is the input's elements at increasing positions, each the first with its id, and every first occurrence is included |
| Dedup.FirstOccurrencesDistinct | playground.ts:229-237 | the output's ids are pairwise distinct and are the same set as the input's ids |
| Dedup.FirstOccurrencesOfDistinct | playground.ts:229-237 | an input with distinct ids is left unchanged |
| Dedup.FirstOccurrencesIdempotent | playground.ts:229-237 | applying the filter twice is the same as once |
| Dedup.FirstOccurrencesSubset | playground.ts:229-237 | every output element is an input element |
| Dedup.DistinctArray | code.ts:102-110 | the filter loop with its `countedVal` set returns exactly the first occurrences |
| Dedup.RoundHalfUp | code.ts:112 | the rounded magnitude is the nearest integer, with halves rounded up |
| Dedup.CloseScaled | code.ts:112 | two magnitudes that round to the same integer are less than one grid step apart |
| Dedup.ToFixedClose | code.ts:112 | numbers with the same 4-decimal string differ by less than 10^-4 |
| Dedup.ToFixedSameCell | code.ts:112 | non-negative numbers in the same grid cell get the same string |
| Dedup.ToFixedGrid | code.ts:112 | a grid point n/10^4 is written with the sign of n and the magnitude of n |
| Dedup.NegativeZeroKey | code.ts:112 | a small negative number rounds to "-0.0000", which differs from "0.0000" |
| Dedup.PointIdentifierClose | playground.ts:238-239 | points with equal keys agree to within 10^-4 in each coordinate |
| Dedup.CurveLabelFinds | code.ts:120 | a curve that occurs once in the input is labelled with its index |
| Dedup.CurveLabelMissing | code.ts:120 | a curve has no label iff it is not in the input |
| Dedup.ResultIdentifier | code.ts:117-118 | the two labels of a key are in sorted order |
| Dedup.ResultIdentifierSymmetric | playground.ts:244-245 | the key does not change when c1 and c2 are swapped |
| Dedup.SortedLabelsEqual | code.ts:118 | two label pairs sort to the same pair iff they hold the same labels |
| Dedup.ResultIdentifierEqual | code.ts:117-118 | two results have the same key iff their point keys are equal and their label pairs are equal as multisets |
| Api.InitialMapHolds | code.ts:99 | a curve id with a non-empty entry in the starting map maps to the segments of a curve with that id, and no later curve has that id: the Map keeps the last value |
| Api.InitialSound | code.ts:97-101 | the starting quadrant is well-formed and sound |
| Api.ResultFromCurves | code.ts:97-101 | every result of the run names two input curves and segments of theirs that cross at its point |
| Api.ResultsFromCurves | code.ts:79-86 | the same for all results at once |
| Api.DistinctPointsSound | code.ts:102-110 | removing duplicates keeps only points that come from the curves |
| Api.DistinctPoints | code.ts:113-116 | run, take the points, remove duplicate keys; distinct keys; every point is a crossing of the curves |
| Api.SingleCurveCrossings | code.ts:113-114 | with one curve, every crossing found is between two of its segments that share no point |
| Api.TwoCurveCrossings | code.ts:115-116 | with two curves and no self-intersection, every point is a crossing between c1 and c2 |
| Api.CurveIntersections | playground.ts:240-241 | the self-crossing points of one curve, pairwise distinct keys, each from two unconnected crossing segments of the curve |
| Api.TwoCurvesIntersections | code.ts:115-116 | the crossing points of two curves, pairwise distinct keys, each from segments of c1 and c2 |
| Api.MultipleCurvesIntersections | code.ts:119-120 | results with pairwise distinct keys, each naming two input curves and segments of theirs crossing at its point |
| Scenario.DiagonalsStart | code.ts:99-100 | the starting map of the two diagonals holds one segment per curve, and the counter is 2 |
| Scenario.DiagonalsCross | code.ts:69-71 | the two diagonal segments pass the crossing test and meet at (5, 5) |
| Scenario.DiagonalRoundZero | code.ts:64-73 | the first curve's round pairs it with the second and finds the centre |
| Scenario.DiagonalRoundOne | code.ts:64-73 | the second curve's round finds nothing, since both curves are checked by then |
| Scenario.SolvedAtOnce | code.ts:81-82 | a single quadrant with counter at most 2 is solved in one iteration that empties the queue |
| Scenario.DiagonalsMeetAtCentre | code.ts:79-120 | two crossing diagonals of a 10 by 10 square give one result, at (5, 5), in one step |

## Left out

- Rendering and UI: `drawRect`, `drawPoint`, `drawText` and `hslToRgb` (playground.ts:84-127), the
  drawing calls inside `divideTillSolved`, and the `Playground` class (scene, camera, animation,
  random anchors, splines, timing). These are foreign graphics calls, clocks and randomness.
- IEEE-754 arithmetic: coordinates are exact reals. There is no rounding, no NaN and no infinity.
  The source produces a non-finite value in three places: the divisions of code.ts:53 and
  code.ts:54, and the slope form of code.ts:57-58 for parallel oblique lines. Only
  `Geometry.TwoLinesIntersection` reports these, as `NonFinite`. No member of the engine
  produces a non-finite value, because the engine uses the corrected function (see below).
- The line intersection inside the engine: code.ts:70 calls `twoLinesIntersection` as written,
  and code.ts:71 pushes whatever is not `undefined`. The engine here calls the corrected
  function of the Findings table instead. For a pair that passes line 69, the two agree when
  neither segment is vertical or horizontal (Geometry.AsWrittenAgreesOffAxis,
  Naive.PairHitsAsWritten). When one of them is, the source pushes another value: a misplaced
  point, such as (0,0) for (5,0)-(5,10) against (0,0)-(10,10), or a non-finite one, such as for
  (5,0)-(5,10) against (0,5)-(10,5). A non-finite point has no value among real coordinates. A
  misplaced finite point could be stated, with a per-pair step that takes the line-intersection
  function as a parameter, but the engine is stated only for the corrected function. Each member
  below is therefore weaker than the source, but only for such pairs.
- Naive.PairHits: pushes the corrected point, not line 70's as written, for a pair passing line 69 with a vertical or horizontal segment.
- Naive.PairHitsMembers: characterises the corrected point, not line 70's as written, for pairs with a vertical or horizontal segment.
- Naive.ScanSegments: returns the corrected points of Naive.PairHits, not the source's, for pairs with a vertical or horizontal segment.
- Naive.ScanCandidates: carries the corrected points of Naive.ScanSegments, not the source's.
- Naive.ScanCurve: carries the corrected points of Naive.ScanSegments, not the source's.
- Naive.QuadrantIntersections: returns the corrected points, not the source's, for axis-aligned pairs.
- Naive.QuadrantHitsMembers: states "gives r's point" of the corrected function, not of line 70 as written.
- Naive.QuadrantHitsExactly: characterises the corrected point, not line 70's as written.
- Subdivision.SolvedJustified: "crossing at its point" holds for the corrected engine; the source's results for axis-aligned pairs are misplaced or non-finite.
- Subdivision.ExploreSound: soundness of the corrected engine; the source's run can return (0,0) or a non-finite point for axis-aligned pairs.
- Subdivision.DivideTillSolved: its results are those of the corrected engine, not the source's, for axis-aligned pairs.
- Api.ResultFromCurves: soundness of the corrected engine, which the source's run does not have for axis-aligned pairs.
- Api.ResultsFromCurves: the same as Api.ResultFromCurves, for all results at once.
- Api.DistinctPointsSound: soundness of the corrected engine, not of the source.
- Api.DistinctPoints: "every point is a crossing" holds for the corrected engine; the source can return (0,0) or a non-finite point.
- Api.SingleCurveCrossings: the same gap as Api.DistinctPoints, for one curve.
- Api.TwoCurveCrossings: the same gap as Api.DistinctPoints, for two curves.
- Api.CurveIntersections: the source returns (0,0) for the curve (5,0), (5,10), (0,0), (10,10), which is not a self-crossing; the crossing of its first and third segments is at (5,5).
- Api.TwoCurvesIntersections: the source returns (0,0) for (5,0)-(5,10) against (0,0)-(10,10), whose crossing is at (5,5).
- Api.MultipleCurvesIntersections: the same gap as Api.TwoCurvesIntersections.
- `Number.MAX_VALUE` and `Number.MIN_VALUE` are their exact real values. A coordinate beyond
  `MAX_VALUE` cannot occur in the source but can occur here.
- Dedup.ToFixed: models `toFixed(4)` as a sign flag plus the magnitude rounded half-up on the
  10^-4 grid. It does not model the formatting of numbers of 10^21 or more, or the source's
  binary rounding of decimal halves.
- Subdivision.DivideTillSolved: the source's loop has no bound and might not end. The model runs
  for at most `fuel` quadrants and returns what is left queued. The entry points therefore return
  a `complete` flag that says whether the queue emptied.
- Completeness (every crossing is found) is not stated, for two reasons. The first is that the
  split keeps a segment only if it has an end in the quarter or passes the crossing test against
  one of the quarter's diagonals. That test treats a collinear endpoint as not counter-clockwise,
  so whether a segment that only touches a diagonal is kept depends on the segment's direction
  (Geometry.CornerTouchDependsOnDirection). Some segments that touch a quarter are therefore kept
  there and others are not, and no claim is made that every crossing survives the split. The
  second is that the source's loop need not end, and the model runs it for a bounded fuel. Only
  soundness is proved: every result comes from two segments of the curves that pass the crossing
  test, at their lines' intersection.
- Curve labels `c0`, `c1`, … are modelled as their indices, and the pair is sorted by number rather
  than as strings. Key equality is the same (Dedup.ResultIdentifierEqual). Only the order of the
  two labels inside a key differs.
- JS reference identity is modelled by ids. Two curves with the same id stand for the same array
  object.
- Segment sets are stored by value under their curve. A segment is never shared between curves,
  so this loses nothing.

## Findings

| source | as written | input that shows it | evidently intended | confidence | as-written member | corrected member |
|---|---|---|---|---|---|---|
| code.ts:53-56 (playground.ts:167-170) | the four axis branches have their bodies swapped in pairs: a vertical s1 returns the point of s2's line at y = ay, a horizontal s1 returns it at x = ax, and likewise for s2. Lines 53 and 54 can divide by zero | s1 = (5,0)-(5,10) with s2 = (0,0)-(10,10) gives (0,0), not (5,5). s1 = (5,0)-(5,10) with s2 = (0,5)-(10,5) divides by deltaY2 = 0 | a vertical s1 keeps x = ax and a horizontal s1 keeps y = ay, and likewise for s2, so the result is the crossing of the two lines | not executed | Geometry.AsWrittenMisplacesCrossing | Geometry.CrossingHasIntersection |
