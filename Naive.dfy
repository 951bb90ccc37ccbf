/**
 * The brute-force solver run on a quadrant with few segment ends (code.ts:62-76).
 * The specification functions mirror the loop nest: entries, their segments, the
 * candidate entries the filter on line 67 lets through, and their segments.
 */
module Naive {
  import opened Wrappers
  import opened Geometry
  import opened Curves
  import opened Quadrants

  /** A result `[c1, c2, point]`: the two curves and where they cross. */
  datatype Intersection = Intersection(c1: CurveId, c2: CurveId, point: Point)

  /** The test on line 69. */
  predicate Tested(s1: Edge, s2: Edge, selfIntersect: bool) {
    (!selfIntersect || !TwoSegmentsConnected(s1, s2)) && TwoSegmentsIntersect(s1.Geo(), s2.Geo())
  }

  /** The result r records the pair (s1 of c1, s2 of c2): the pair passes line 69 and r's point is their crossing. */
  predicate Hit(r: Intersection, c1: CurveId, s1: Edge, c2: CurveId, s2: Edge, selfIntersect: bool) {
    r.c1 == c1 && r.c2 == c2 && Tested(s1, s2, selfIntersect)
    && TwoLinesIntersectionCorrected(s1.Geo(), s2.Geo()) == Some(r.point)
  }

  /** Lines 69-71 for one pair. */
  function PairHits(c1: CurveId, s1: Edge, c2: CurveId, s2: Edge, selfIntersect: bool): seq<Intersection> {
    if Tested(s1, s2, selfIntersect) then
      match TwoLinesIntersectionCorrected(s1.Geo(), s2.Geo())
      case Some(p) => [Intersection(c1, c2, p)]
      case None => []
    else []
  }

  /**
   * For two oblique segments, line 70 as written gives a finite point for every pair that passes
   * line 69, and that point is the one pushed here.
   */
  lemma PairHitsAsWritten(c1: CurveId, s1: Edge, c2: CurveId, s2: Edge, selfIntersect: bool)
    requires Oblique(s1.Geo()) && Oblique(s2.Geo())
    ensures !Tested(s1, s2, selfIntersect) ==> PairHits(c1, s1, c2, s2, selfIntersect) == []
    ensures Tested(s1, s2, selfIntersect) ==>
      TwoLinesIntersection(s1.Geo(), s2.Geo()).Found? &&
      PairHits(c1, s1, c2, s2, selfIntersect) == [Intersection(c1, c2, TwoLinesIntersection(s1.Geo(), s2.Geo()).p)]
  {
    AsWrittenAgreesOffAxis(s1.Geo(), s2.Geo());
    if Tested(s1, s2, selfIntersect) {
      CrossingNotParallel(s1.Geo(), s2.Geo());
    }
  }

  /** Line 68: s1 against every segment of curve c2. */
  function SegmentHits(c1: CurveId, s1: Edge, c2: CurveId, others: seq<Edge>, selfIntersect: bool): seq<Intersection> {
    if |others| == 0 then []
    else SegmentHits(c1, s1, c2, others[..|others| - 1], selfIntersect) + PairHits(c1, s1, c2, others[|others| - 1], selfIntersect)
  }

  /** Line 67: s1 against every candidate entry. */
  function CandidateHits(c1: CurveId, s1: Edge, cands: seq<Entry>, selfIntersect: bool): seq<Intersection> {
    if |cands| == 0 then []
    else
      var e := cands[|cands| - 1];
      CandidateHits(c1, s1, cands[..|cands| - 1], selfIntersect) + SegmentHits(c1, s1, e.curve, e.segments, selfIntersect)
  }

  /** Line 66: every segment of c1 against the candidates. */
  function CurveHits(c1: CurveId, segs: seq<Edge>, cands: seq<Entry>, selfIntersect: bool): seq<Intersection> {
    if |segs| == 0 then []
    else CurveHits(c1, segs[..|segs| - 1], cands, selfIntersect) + CandidateHits(c1, segs[|segs| - 1], cands, selfIntersect)
  }

  /** The filter on line 67: every entry when self-intersecting, otherwise those not yet checked. */
  function Candidates(entries: seq<Entry>, checked: set<CurveId>, selfIntersect: bool): seq<Entry> {
    if |entries| == 0 then []
    else
      var e := entries[|entries| - 1];
      Candidates(entries[..|entries| - 1], checked, selfIntersect) + (if selfIntersect || e.curve !in checked then [e] else [])
  }

  /** The rounds' results one after the other. */
  function Flatten(rounds: seq<seq<Intersection>>): seq<Intersection> {
    if |rounds| == 0 then [] else Flatten(rounds[..|rounds| - 1]) + rounds[|rounds| - 1]
  }

  /** Round i of line 64: entry i against the candidates once the first i + 1 curves are checked. */
  function Round(entries: seq<Entry>, i: nat, selfIntersect: bool): seq<Intersection>
    requires i < |entries|
  {
    CurveHits(entries[i].curve, entries[i].segments, Candidates(entries, Keys(entries[..i + 1]), selfIntersect), selfIntersect)
  }

  function Rounds(entries: seq<Entry>, selfIntersect: bool): seq<seq<Intersection>> {
    seq(|entries|, i requires 0 <= i < |entries| => Round(entries, i, selfIntersect))
  }

  function QuadrantHits(q: Quadrant, selfIntersect: bool): seq<Intersection> {
    Flatten(Rounds(q.curveToSegments, selfIntersect))
  }

  // ---------------------------------------------------------------------------------------------
  // What each level of the loop nest contributes
  // ---------------------------------------------------------------------------------------------

  lemma PairHitsMembers(c1: CurveId, s1: Edge, c2: CurveId, s2: Edge, selfIntersect: bool, r: Intersection)
    ensures r in PairHits(c1, s1, c2, s2, selfIntersect) <==> Hit(r, c1, s1, c2, s2, selfIntersect)
  {
  }

  lemma {:induction false} SegmentHitsMembers(c1: CurveId, s1: Edge, c2: CurveId, others: seq<Edge>, selfIntersect: bool, r: Intersection)
    ensures r in SegmentHits(c1, s1, c2, others, selfIntersect) <==> exists s2 :: s2 in others && Hit(r, c1, s1, c2, s2, selfIntersect)
  {
    if |others| > 0 {
      var init, last := others[..|others| - 1], others[|others| - 1];
      assert others == init + [last];
      SegmentHitsMembers(c1, s1, c2, init, selfIntersect, r);
      PairHitsMembers(c1, s1, c2, last, selfIntersect, r);
    }
  }

  lemma {:induction false} CandidateHitsMembers(c1: CurveId, s1: Edge, cands: seq<Entry>, selfIntersect: bool, r: Intersection)
    ensures r in CandidateHits(c1, s1, cands, selfIntersect)
      <==> exists e :: e in cands && r in SegmentHits(c1, s1, e.curve, e.segments, selfIntersect)
  {
    if |cands| > 0 {
      var init, last := cands[..|cands| - 1], cands[|cands| - 1];
      assert cands == init + [last];
      CandidateHitsMembers(c1, s1, init, selfIntersect, r);
    }
  }

  lemma {:induction false} CurveHitsMembers(c1: CurveId, segs: seq<Edge>, cands: seq<Entry>, selfIntersect: bool, r: Intersection)
    ensures r in CurveHits(c1, segs, cands, selfIntersect) <==> exists s1 :: s1 in segs && r in CandidateHits(c1, s1, cands, selfIntersect)
  {
    if |segs| > 0 {
      var init, last := segs[..|segs| - 1], segs[|segs| - 1];
      assert segs == init + [last];
      CurveHitsMembers(c1, init, cands, selfIntersect, r);
      assert CurveHits(c1, segs, cands, selfIntersect) == CurveHits(c1, init, cands, selfIntersect) + CandidateHits(c1, last, cands, selfIntersect);
      if r in CurveHits(c1, segs, cands, selfIntersect) {
        if r !in CandidateHits(c1, last, cands, selfIntersect) {
          var s1 :| s1 in init && r in CandidateHits(c1, s1, cands, selfIntersect);
          assert s1 in segs;
        }
      } else {
        forall s1 | s1 in segs ensures r !in CandidateHits(c1, s1, cands, selfIntersect) {
          if s1 != last {
            assert s1 in init;
          }
        }
      }
    }
  }

  lemma {:induction false} CandidatesMembers(entries: seq<Entry>, checked: set<CurveId>, selfIntersect: bool, e: Entry)
    ensures e in Candidates(entries, checked, selfIntersect) <==> e in entries && (selfIntersect || e.curve !in checked)
  {
    if |entries| > 0 {
      var init := entries[..|entries| - 1];
      assert entries == init + [entries[|entries| - 1]];
      CandidatesMembers(init, checked, selfIntersect, e);
    }
  }

  lemma {:induction false} FlattenMembers(rounds: seq<seq<Intersection>>, r: Intersection)
    ensures r in Flatten(rounds) <==> exists i :: 0 <= i < |rounds| && r in rounds[i]
  {
    if |rounds| > 0 {
      var init := rounds[..|rounds| - 1];
      FlattenMembers(init, r);
      if r in Flatten(rounds) && r !in rounds[|rounds| - 1] {
        var i :| 0 <= i < |init| && r in init[i];
        assert rounds[i] == init[i];
      }
      if exists i :: 0 <= i < |rounds| && r in rounds[i] {
        var i :| 0 <= i < |rounds| && r in rounds[i];
        if i < |init| {
          assert init[i] == rounds[i];
        }
      }
    }
  }

  /** The pair (i, s1) and (j, s2) of entries and segments that a result came from. */
  predicate PairOf(m: seq<Entry>, i: int, j: int, s1: Edge, s2: Edge, r: Intersection, selfIntersect: bool) {
    && 0 <= i < |m| && 0 <= j < |m|
    && s1 in m[i].segments && s2 in m[j].segments
    && (selfIntersect || m[j].curve !in Keys(m[..i + 1]))
    && Hit(r, m[i].curve, s1, m[j].curve, s2, selfIntersect)
  }

  /**
   * Exactly the pairs the source tests are reported (code.ts:62-76): r is a result of the quadrant iff
   * some segment s1 of entry i and s2 of entry j pass the test on line 69, r's point is their
   * crossing, and without self-intersection entry j belongs to a curve not checked by round i.
   */
  lemma QuadrantHitsMembers(q: Quadrant, selfIntersect: bool, r: Intersection)
    ensures var m := q.curveToSegments;
      r in QuadrantHits(q, selfIntersect) <==> exists i, j, s1, s2 :: PairOf(m, i, j, s1, s2, r, selfIntersect)
  {
    var m := q.curveToSegments;
    if r in QuadrantHits(q, selfIntersect) {
      HitIsPair(m, selfIntersect, r);
    }
    if exists i, j, s1, s2 :: PairOf(m, i, j, s1, s2, r, selfIntersect) {
      var i, j, s1, s2 :| PairOf(m, i, j, s1, s2, r, selfIntersect);
      PairIsHit(m, i, j, s1, s2, r, selfIntersect);
    }
  }

  lemma HitIsPair(m: seq<Entry>, selfIntersect: bool, r: Intersection)
    requires r in Flatten(Rounds(m, selfIntersect))
    ensures exists i, j, s1, s2 :: PairOf(m, i, j, s1, s2, r, selfIntersect)
  {
    FlattenMembers(Rounds(m, selfIntersect), r);
    var i :| 0 <= i < |m| && r in Round(m, i, selfIntersect);
    var cands := Candidates(m, Keys(m[..i + 1]), selfIntersect);
    CurveHitsMembers(m[i].curve, m[i].segments, cands, selfIntersect, r);
    var s1 :| s1 in m[i].segments && r in CandidateHits(m[i].curve, s1, cands, selfIntersect);
    CandidateHitsMembers(m[i].curve, s1, cands, selfIntersect, r);
    var e :| e in cands && r in SegmentHits(m[i].curve, s1, e.curve, e.segments, selfIntersect);
    CandidatesMembers(m, Keys(m[..i + 1]), selfIntersect, e);
    var j :| 0 <= j < |m| && m[j] == e;
    SegmentHitsMembers(m[i].curve, s1, e.curve, e.segments, selfIntersect, r);
    var s2 :| s2 in e.segments && Hit(r, m[i].curve, s1, e.curve, s2, selfIntersect);
    assert PairOf(m, i, j, s1, s2, r, selfIntersect);
  }

  lemma PairIsHit(m: seq<Entry>, i: int, j: int, s1: Edge, s2: Edge, r: Intersection, selfIntersect: bool)
    requires PairOf(m, i, j, s1, s2, r, selfIntersect)
    ensures r in Flatten(Rounds(m, selfIntersect))
  {
    var cands := Candidates(m, Keys(m[..i + 1]), selfIntersect);
    SegmentHitsMembers(m[i].curve, s1, m[j].curve, m[j].segments, selfIntersect, r);
    CandidatesMembers(m, Keys(m[..i + 1]), selfIntersect, m[j]);
    CandidateHitsMembers(m[i].curve, s1, cands, selfIntersect, r);
    CurveHitsMembers(m[i].curve, m[i].segments, cands, selfIntersect, r);
    assert r in Round(m, i, selfIntersect);
    assert Rounds(m, selfIntersect)[i] == Round(m, i, selfIntersect);
    FlattenMembers(Rounds(m, selfIntersect), r);
  }

  /** With distinct keys, the curves checked by round i are those of entries 0..i. */
  lemma CheckedIffEarlier(m: seq<Entry>, i: nat, j: nat)
    requires DistinctKeys(m) && i < |m| && j < |m|
    ensures m[j].curve in Keys(m[..i + 1]) <==> j <= i
  {
    if m[j].curve in Keys(m[..i + 1]) {
      var k :| 0 <= k < i + 1 && m[..i + 1][k].curve == m[j].curve;
      assert m[k].curve == m[j].curve;
    }
    if j <= i {
      assert m[..i + 1][j] == m[j];
    }
  }

  /**
   * The solver's results on a well-formed quadrant (code.ts:62-76). Every result comes from a
   * segment s1 of its c1 and a segment s2 of its c2 that pass the source's crossing test (a
   * touching endpoint may pass) and whose line intersection is the reported point; when
   * self-intersecting, the two segments are never connected, so no segment is paired with itself
   * or a neighbour; otherwise c1 != c2 and c2's entry comes after c1's.
   * Conversely every such pair is reported.
   */
  lemma QuadrantHitsExactly(q: Quadrant, selfIntersect: bool, r: Intersection)
    requires DistinctKeys(q.curveToSegments)
    ensures var m := q.curveToSegments;
      r in QuadrantHits(q, selfIntersect) <==>
        exists i, j, s1, s2 :: 0 <= i < |m| && 0 <= j < |m| && (selfIntersect || i < j)
          && s1 in m[i].segments && s2 in m[j].segments && Hit(r, m[i].curve, s1, m[j].curve, s2, selfIntersect)
  {
    var m := q.curveToSegments;
    QuadrantHitsMembers(q, selfIntersect, r);
    if r in QuadrantHits(q, selfIntersect) {
      var i, j, s1, s2 :| PairOf(m, i, j, s1, s2, r, selfIntersect);
      CheckedIffEarlier(m, i, j);
    } else {
      forall i, j, s1, s2 | 0 <= i < |m| && 0 <= j < |m| && (selfIntersect || i < j) && s1 in m[i].segments && s2 in m[j].segments
        ensures !Hit(r, m[i].curve, s1, m[j].curve, s2, selfIntersect)
      {
        CheckedIffEarlier(m, i, j);
        assert !PairOf(m, i, j, s1, s2, r, selfIntersect);
      }
    }
  }

  /** Without self-intersection, a result never pairs a curve with itself. */
  lemma DistinctCurvesWithoutSelf(q: Quadrant, r: Intersection)
    requires DistinctKeys(q.curveToSegments) && r in QuadrantHits(q, false)
    ensures r.c1 != r.c2
  {
    QuadrantHitsExactly(q, false, r);
  }

  /** With self-intersection, a result never comes from connected segments. */
  lemma NeverConnectedWithSelf(q: Quadrant, r: Intersection)
    requires r in QuadrantHits(q, true)
    ensures exists i, j, s1, s2 :: PairOf(q.curveToSegments, i, j, s1, s2, r, true) && !TwoSegmentsConnected(s1, s2) && s1 != s2
  {
    QuadrantHitsMembers(q, true, r);
    var i, j, s1, s2 :| PairOf(q.curveToSegments, i, j, s1, s2, r, true);
    ConnectedToItself(s1);
  }

  // ---------------------------------------------------------------------------------------------
  // The solver as the source runs it
  // ---------------------------------------------------------------------------------------------

  /** Lines 62-76: nested loops pushing onto `res` while `checkedCurve` grows. */
  method QuadrantIntersections(q: Quadrant, selfIntersect: bool) returns (res: seq<Intersection>)
    ensures res == QuadrantHits(q, selfIntersect)
  {
    res := [];
    var checkedCurve: set<CurveId> := {};
    var entries := q.curveToSegments;
    ghost var rs := Rounds(entries, selfIntersect);
    var i := 0;
    while i < |entries|
      invariant 0 <= i <= |entries|
      invariant checkedCurve == Keys(entries[..i])
      invariant res == Flatten(rs[..i])
    {
      var c1, segments := entries[i].curve, entries[i].segments;
      checkedCurve := checkedCurve + {c1};
      var more := ScanCurve(c1, segments, entries, checkedCurve, selfIntersect);
      RoundStep(entries, i, selfIntersect, res, checkedCurve, more);
      res := res + more;
      i := i + 1;
    }
    assert rs[..|entries|] == rs;
  }

  lemma KeysPrefixStep(entries: seq<Entry>, i: nat)
    requires i < |entries|
    ensures Keys(entries[..i + 1]) == Keys(entries[..i]) + {entries[i].curve}
  {
    KeysAppend(entries[..i], [entries[i]]);
    KeysSingle(entries[i]);
    assert entries[..i + 1] == entries[..i] + [entries[i]];
  }

  /** Round i of the loop of lines 64-73 extends the results and the checked curves as specified. */
  lemma RoundStep(entries: seq<Entry>, i: nat, selfIntersect: bool, res: seq<Intersection>, checked: set<CurveId>, more: seq<Intersection>)
    requires i < |entries|
    requires res == Flatten(Rounds(entries, selfIntersect)[..i])
    requires checked == Keys(entries[..i]) + {entries[i].curve}
    requires more == CurveHits(entries[i].curve, entries[i].segments, Candidates(entries, checked, selfIntersect), selfIntersect)
    ensures checked == Keys(entries[..i + 1])
    ensures res + more == Flatten(Rounds(entries, selfIntersect)[..i + 1])
  {
    KeysPrefixStep(entries, i);
    RoundsAt(entries, i, selfIntersect);
    FlattenStep(Rounds(entries, selfIntersect), i);
  }

  lemma RoundsAt(entries: seq<Entry>, i: nat, selfIntersect: bool)
    requires i < |entries|
    ensures |Rounds(entries, selfIntersect)| == |entries|
    ensures Rounds(entries, selfIntersect)[i] == Round(entries, i, selfIntersect)
  {
  }

  lemma FlattenStep(rs: seq<seq<Intersection>>, i: nat)
    requires i < |rs|
    ensures Flatten(rs[..i + 1]) == Flatten(rs[..i]) + rs[i]
  {
    assert rs[..i + 1][..i] == rs[..i];
  }

  /** Lines 66-73 for one curve c1: the filtered entries are recomputed for each segment, as on line 67. */
  method ScanCurve(c1: CurveId, segments: seq<Edge>, entries: seq<Entry>, checkedCurve: set<CurveId>, selfIntersect: bool)
    returns (res: seq<Intersection>)
    ensures res == CurveHits(c1, segments, Candidates(entries, checkedCurve, selfIntersect), selfIntersect)
  {
    res := [];
    var j := 0;
    while j < |segments|
      invariant 0 <= j <= |segments|
      invariant res == CurveHits(c1, segments[..j], Candidates(entries, checkedCurve, selfIntersect), selfIntersect)
    {
      var s1 := segments[j];
      var more := ScanCandidates(c1, s1, Candidates(entries, checkedCurve, selfIntersect), selfIntersect);
      assert segments[..j + 1][..j] == segments[..j];
      res := res + more;
      j := j + 1;
    }
    assert segments[..|segments|] == segments;
  }

  /** Line 67's `forEach`: segment s1 of c1 against each candidate entry. */
  method ScanCandidates(c1: CurveId, s1: Edge, cands: seq<Entry>, selfIntersect: bool) returns (res: seq<Intersection>)
    ensures res == CandidateHits(c1, s1, cands, selfIntersect)
  {
    res := [];
    var k := 0;
    while k < |cands|
      invariant 0 <= k <= |cands|
      invariant res == CandidateHits(c1, s1, cands[..k], selfIntersect)
    {
      var more := ScanSegments(c1, s1, cands[k].curve, cands[k].segments, selfIntersect);
      assert cands[..k + 1][..k] == cands[..k];
      res := res + more;
      k := k + 1;
    }
    assert cands[..|cands|] == cands;
  }

  /** Lines 68-72: segment s1 of c1 against each segment of c2, pushing every crossing found. */
  method ScanSegments(c1: CurveId, s1: Edge, c2: CurveId, otherSegments: seq<Edge>, selfIntersect: bool) returns (res: seq<Intersection>)
    ensures res == SegmentHits(c1, s1, c2, otherSegments, selfIntersect)
  {
    res := [];
    var l := 0;
    while l < |otherSegments|
      invariant 0 <= l <= |otherSegments|
      invariant res == SegmentHits(c1, s1, c2, otherSegments[..l], selfIntersect)
    {
      var s2 := otherSegments[l];
      assert otherSegments[..l + 1][..l] == otherSegments[..l];
      if (!selfIntersect || !TwoSegmentsConnected(s1, s2)) && TwoSegmentsIntersect(s1.Geo(), s2.Geo()) {
        var intersection := TwoLinesIntersectionCorrected(s1.Geo(), s2.Geo());
        if intersection.Some? {
          res := res + [Intersection(c1, c2, intersection.value)];
        }
      }
      l := l + 1;
    }
    assert otherSegments[..|otherSegments|] == otherSegments;
  }
}
