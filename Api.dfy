/**
 * The three public entry points (code.ts:113-120; `curveSelfIntersections` in
 * playground.ts:240-247). Each runs the worklist on the starting quadrant and
 * removes duplicates. The worklist is bounded by `fuel`, so each also reports
 * whether the run finished, that is, whether its queue emptied.
 */
module Api {
  import opened Wrappers
  import opened Geometry
  import opened Curves
  import opened Quadrants
  import opened Naive
  import opened Bounds
  import opened Subdivision
  import opened Dedup

  /** The points of the results, in order, with the two curves dropped. */
  function PointsOf(rs: seq<Intersection>): seq<Point> {
    seq(|rs|, i requires 0 <= i < |rs| => rs[i].point)
  }

  /**
   * p is where segment s1 of curves[i] meets segment s2 of curves[j]. The two segments pass
   * the test on line 69, and when not self-intersecting the two curves are different.
   */
  ghost predicate CrossingOf(curves: seq<Curve>, i: int, j: int, p: Point, selfIntersect: bool) {
    && 0 <= i < |curves| && 0 <= j < |curves| && (selfIntersect || curves[i].id != curves[j].id)
    && exists s1, s2 :: s1 in CurveSegments(curves[i]) && s2 in CurveSegments(curves[j])
         && Tested(s1, s2, selfIntersect) && TwoLinesIntersectionCorrected(s1.Geo(), s2.Geo()) == Some(p)
  }

  /** r names two of the curves and a crossing of their segments. */
  ghost predicate FromCurves(curves: seq<Curve>, r: Intersection, selfIntersect: bool) {
    exists i, j :: CrossingOf(curves, i, j, r.point, selfIntersect) && curves[i].id == r.c1 && curves[j].id == r.c2
  }

  /** The curve every id of the starting map stands for: the last one with that id. */
  lemma {:induction false} InitialMapHolds(curves: seq<Curve>, d: CurveId) returns (i: nat)
    requires Get(InitialMap(curves), d) != []
    ensures i < |curves| && curves[i].id == d && Get(InitialMap(curves), d) == CurveSegments(curves[i])
    ensures forall k :: i < k < |curves| ==> curves[k].id != d
  {
    var n := |curves| - 1;
    var init := curves[..n];
    InitialMapStep(curves, d);
    if curves[n].id == d {
      i := n;
    } else {
      i := InitialMapHolds(init, d);
      assert curves[i] == init[i];
      LaterIdsDiffer(curves, init, d, i);
    }
  }

  /** No curve after i has id d, when none in the list without the last one does and the last one does not. */
  lemma LaterIdsDiffer(curves: seq<Curve>, init: seq<Curve>, d: CurveId, i: nat)
    requires 0 < |curves| && init == curves[..|curves| - 1] && curves[|curves| - 1].id != d
    requires forall k :: i < k < |init| ==> init[k].id != d
    ensures forall k :: i < k < |curves| ==> curves[k].id != d
  {
    forall k | i < k < |init| ensures curves[k].id != d {
      assert init[k] == curves[k];
    }
  }

  lemma InitialMapStep(curves: seq<Curve>, d: CurveId)
    requires |curves| > 0
    ensures var n := |curves| - 1;
      Get(InitialMap(curves), d) == if curves[n].id == d then CurveSegments(curves[n]) else Get(InitialMap(curves[..n]), d)
  {
  }

  /** The starting quadrant is well-formed and sound with respect to its own map. */
  lemma InitialSound(curves: seq<Curve>)
    ensures AllWellFormed(InitQuads(curves)) && AllSound(InitQuads(curves), InitialMap(curves))
  {
    var m := InitialMap(curves);
    InitialMapWellFormed(curves);
    forall i | 0 <= i < |m| ensures Get(m, m[i].curve) == m[i].segments {
      GetAt(m, i);
    }
  }

  /** Every result of the worklist run on `initQuads(curves)` names two of the curves and a crossing of theirs. */
  lemma ResultFromCurves(curves: seq<Curve>, selfIntersect: bool, fuel: nat, r: Intersection)
    requires r in Results(Explore(InitQuads(curves), Stepper(selfIntersect), fuel).visits, Solver(selfIntersect))
    ensures FromCurves(curves, r, selfIntersect)
  {
    var base := InitialMap(curves);
    InitialSound(curves);
    ExploreSound(InitQuads(curves), selfIntersect, fuel, base, r);
    var s1, s2 :| s1 in Get(base, r.c1) && s2 in Get(base, r.c2) && Hit(r, r.c1, s1, r.c2, s2, selfIntersect);
    var i := InitialMapHolds(curves, r.c1);
    var j := InitialMapHolds(curves, r.c2);
    assert CrossingOf(curves, i, j, r.point, selfIntersect);
  }

  /** String keys of results, as `resultIdentifierFactory(...)` builds them for these curves. */
  function ResultKeyOf(curves: seq<Curve>): Intersection -> ResultKey {
    r => ResultIdentifier(curves, r)
  }

  /** p is a crossing between segments of two of the curves. */
  ghost predicate CrossingAt(curves: seq<Curve>, p: Point, selfIntersect: bool) {
    exists i, j :: CrossingOf(curves, i, j, p, selfIntersect)
  }

  /** Every point is a crossing between segments of two of the curves. */
  ghost predicate PointsFromCurves(curves: seq<Curve>, points: seq<Point>, selfIntersect: bool) {
    forall k :: 0 <= k < |points| ==> CrossingAt(curves, points[k], selfIntersect)
  }

  /** The points left after removing duplicates from results that come from the curves come from the curves too. */
  lemma DistinctPointsSound(curves: seq<Curve>, selfIntersect: bool, res: seq<Intersection>, points: seq<Point>)
    requires forall r :: r in res ==> FromCurves(curves, r, selfIntersect)
    requires points == FirstOccurrences(PointsOf(res), PointIdentifier)
    ensures PointsFromCurves(curves, points, selfIntersect)
  {
    var all := PointsOf(res);
    forall k | 0 <= k < |points| ensures CrossingAt(curves, points[k], selfIntersect) {
      FirstOccurrencesSubset(all, PointIdentifier, points[k]);
      var n :| 0 <= n < |res| && res[n].point == points[k];
      assert FromCurves(curves, res[n], selfIntersect);
      var i, j :| CrossingOf(curves, i, j, res[n].point, selfIntersect) && curves[i].id == res[n].c1 && curves[j].id == res[n].c2;
      assert CrossingOf(curves, i, j, points[k], selfIntersect);
    }
  }

  /** All results of the run on `initQuads(curves)` come from the curves. */
  lemma ResultsFromCurves(curves: seq<Curve>, selfIntersect: bool, fuel: nat, res: seq<Intersection>)
    requires res == Results(Explore(InitQuads(curves), Stepper(selfIntersect), fuel).visits, Solver(selfIntersect))
    ensures forall r :: r in res ==> FromCurves(curves, r, selfIntersect)
  {
    forall r | r in res ensures FromCurves(curves, r, selfIntersect) {
      ResultFromCurves(curves, selfIntersect, fuel, r);
    }
  }

  /** Shared by the two point-returning entry points: run, take the points, drop duplicate keys. */
  method DistinctPoints(curves: seq<Curve>, selfIntersect: bool, fuel: nat) returns (points: seq<Point>, complete: bool)
    ensures var run := Explore(InitQuads(curves), Stepper(selfIntersect), fuel);
      points == FirstOccurrences(PointsOf(Results(run.visits, Solver(selfIntersect))), PointIdentifier)
      && complete == (run.pending == [])
    ensures DistinctIdsOf(points, PointIdentifier)
    ensures PointsFromCurves(curves, points, selfIntersect)
  {
    InitialSound(curves);
    var res, _, rest := DivideTillSolved(InitQuads(curves), selfIntersect, fuel);
    var all := PointsOf(res);
    points := DistinctArray(all, PointIdentifier);
    complete := rest == [];
    FirstOccurrencesDistinct(all, PointIdentifier);
    ResultsFromCurves(curves, selfIntersect, fuel, res);
    DistinctPointsSound(curves, selfIntersect, res, points);
  }

  /** Two segments of c that share no point cross at p. */
  ghost predicate SelfCrossing(c: Curve, s1: Edge, s2: Edge, p: Point) {
    && s1 in CurveSegments(c) && s2 in CurveSegments(c)
    && !TwoSegmentsConnected(s1, s2) && TwoSegmentsIntersect(s1.Geo(), s2.Geo())
    && TwoLinesIntersectionCorrected(s1.Geo(), s2.Geo()) == Some(p)
  }

  /** p is where two segments of c that share no point cross. */
  ghost predicate SelfCrossingAt(c: Curve, p: Point) {
    exists s1, s2 :: SelfCrossing(c, s1, s2, p)
  }

  /** With a single curve, a crossing of two of its segments on line 69 is a self-crossing. */
  lemma SingleCurveCrossings(c: Curve, points: seq<Point>)
    requires PointsFromCurves([c], points, true)
    ensures forall k :: 0 <= k < |points| ==> SelfCrossingAt(c, points[k])
  {
    forall k | 0 <= k < |points| ensures SelfCrossingAt(c, points[k]) {
      var i, j :| CrossingOf([c], i, j, points[k], true);
      assert [c][i] == c && [c][j] == c;
      var s1, s2 :| s1 in CurveSegments(c) && s2 in CurveSegments(c) && Tested(s1, s2, true)
        && TwoLinesIntersectionCorrected(s1.Geo(), s2.Geo()) == Some(points[k]);
      assert SelfCrossing(c, s1, s2, points[k]);
    }
  }

  /** With two curves and no self-crossings, each point is a crossing between c1 and c2. */
  lemma TwoCurveCrossings(c1: Curve, c2: Curve, points: seq<Point>)
    requires PointsFromCurves([c1, c2], points, false)
    ensures forall k :: 0 <= k < |points| ==>
      CrossingOf([c1, c2], 0, 1, points[k], false) || CrossingOf([c1, c2], 1, 0, points[k], false)
  {
    forall k | 0 <= k < |points| ensures CrossingOf([c1, c2], 0, 1, points[k], false) || CrossingOf([c1, c2], 1, 0, points[k], false) {
      var i, j :| CrossingOf([c1, c2], i, j, points[k], false);
    }
  }

  /**
   * `curveIntersections` (code.ts:113-114): the self-crossings of one curve, one point per key.
   * Each is where two segments of the curve that share no point cross.
   */
  method CurveIntersections(c: Curve, fuel: nat) returns (points: seq<Point>, complete: bool)
    ensures var run := Explore(InitQuads([c]), Stepper(true), fuel);
      points == FirstOccurrences(PointsOf(Results(run.visits, Solver(true))), PointIdentifier)
      && complete == (run.pending == [])
    ensures DistinctIdsOf(points, PointIdentifier)
    ensures forall k :: 0 <= k < |points| ==> SelfCrossingAt(c, points[k])
  {
    points, complete := DistinctPoints([c], true, fuel);
    SingleCurveCrossings(c, points);
  }

  /**
   * `twoCurvesIntersections` (code.ts:115-116): the crossings between c1 and c2 (and of each with
   * itself when `selfIntersect`), one point per key.
   */
  method TwoCurvesIntersections(c1: Curve, c2: Curve, selfIntersect: bool, fuel: nat) returns (points: seq<Point>, complete: bool)
    ensures var run := Explore(InitQuads([c1, c2]), Stepper(selfIntersect), fuel);
      points == FirstOccurrences(PointsOf(Results(run.visits, Solver(selfIntersect))), PointIdentifier)
      && complete == (run.pending == [])
    ensures DistinctIdsOf(points, PointIdentifier)
    ensures PointsFromCurves([c1, c2], points, selfIntersect)
    ensures !selfIntersect ==> forall k :: 0 <= k < |points| ==>
      CrossingOf([c1, c2], 0, 1, points[k], false) || CrossingOf([c1, c2], 1, 0, points[k], false)
  {
    points, complete := DistinctPoints([c1, c2], selfIntersect, fuel);
    if !selfIntersect {
      TwoCurveCrossings(c1, c2, points);
    }
  }

  /**
   * `multipleCurvesIntersections` (code.ts:119-120): the results themselves, one per key of
   * `resultIdentifierFactory`, each naming two of the curves and a crossing of their segments.
   */
  method MultipleCurvesIntersections(curves: seq<Curve>, selfIntersect: bool, fuel: nat)
    returns (results: seq<Intersection>, complete: bool)
    ensures var run := Explore(InitQuads(curves), Stepper(selfIntersect), fuel);
      results == FirstOccurrences(Results(run.visits, Solver(selfIntersect)), ResultKeyOf(curves))
      && complete == (run.pending == [])
    ensures forall k, l :: 0 <= k < l < |results| ==> ResultIdentifier(curves, results[k]) != ResultIdentifier(curves, results[l])
    ensures forall k :: 0 <= k < |results| ==> FromCurves(curves, results[k], selfIntersect)
  {
    var quads := InitQuads(curves);
    InitialSound(curves);
    var res, _, rest := DivideTillSolved(quads, selfIntersect, fuel);
    results := DistinctArray(res, ResultKeyOf(curves));
    complete := rest == [];
    FirstOccurrencesDistinct(res, ResultKeyOf(curves));
    forall k | 0 <= k < |results| ensures FromCurves(curves, results[k], selfIntersect) {
      FirstOccurrencesSubset(res, ResultKeyOf(curves), results[k]);
      ResultFromCurves(curves, selfIntersect, fuel, results[k]);
    }
  }
}
