/**
 * The starting quadrant (code.ts:87-101; its `level` from playground.ts:227):
 * the bounding-box folds, the initial curve-to-segments map and the counter.
 */
module Bounds {
  import opened Geometry
  import opened Curves
  import opened Quadrants

  /** `Number.MAX_VALUE`, the largest finite double, (2^53 - 1) * 2^971, written out exactly. */
  const MaxValue: real := 179769313486231570814527423731704356798070567525844996598917476803157260780028538760589558632766878171540458953514382464234321326889464182768467546703537516986049910576551282076245490090389328944075868508455133942304583236903222948165808559332123348274797826204144723168738177180919299881250404026184124858368.0

  /** `Number.MIN_VALUE`, the smallest positive double 2^-1074: positive, not the most negative number. */
  const MinValue: real := 1.0 / 202402253307310618352495346718917307049556649764142118356901358027430339567995346891960383701437124495187077864316811911389808737385793476867013399940738509921517424276566361364466907742093216341239767678472745068562007483424692698618103355649159556340810056512358769552333414615230502532186327508646006263307707741093494784.0

  function Min(a: real, b: real): real { if a <= b then a else b }
  function Max(a: real, b: real): real { if a >= b then a else b }

  /** Corner-wise min of the min corners and max of the max corners (code.ts:87-88). */
  function TwoRectsFitInRect(r1: Rect, r2: Rect): (r: Rect)
    ensures r.lo.x <= r1.lo.x && r.lo.x <= r2.lo.x && (r.lo.x == r1.lo.x || r.lo.x == r2.lo.x)
    ensures r.lo.y <= r1.lo.y && r.lo.y <= r2.lo.y && (r.lo.y == r1.lo.y || r.lo.y == r2.lo.y)
    ensures r.hi.x >= r1.hi.x && r.hi.x >= r2.hi.x && (r.hi.x == r1.hi.x || r.hi.x == r2.hi.x)
    ensures r.hi.y >= r1.hi.y && r.hi.y >= r2.hi.y && (r.hi.y == r1.hi.y || r.hi.y == r2.hi.y)
  {
    Rect(Point(Min(r1.lo.x, r2.lo.x), Min(r1.lo.y, r2.lo.y)), Point(Max(r1.hi.x, r2.hi.x), Max(r1.hi.y, r2.hi.y)))
  }

  /** The fold of code.ts:89-90, starting from the degenerate rectangle at the origin. */
  function MultipleRectsFitInRect(rects: seq<Rect>): (r: Rect)
    ensures PointInRect(Point(0.0, 0.0), r)
  {
    if |rects| == 0 then Rect(Point(0.0, 0.0), Point(0.0, 0.0))
    else TwoRectsFitInRect(MultipleRectsFitInRect(rects[..|rects| - 1]), rects[|rects| - 1])
  }

  /** The fold's result holds every point of every one of the rectangles. */
  lemma {:induction false} MultipleRectsContain(rects: seq<Rect>, i: nat, p: Point)
    requires i < |rects| && PointInRect(p, rects[i])
    ensures PointInRect(p, MultipleRectsFitInRect(rects))
  {
    var init := rects[..|rects| - 1];
    if i < |init| {
      assert init[i] == rects[i];
      MultipleRectsContain(init, i, p);
    }
  }

  /** Widens `prev` to take in one more point (code.ts:92-93). */
  function Widen(prev: Rect, p: Point): Rect {
    Rect(Point(Min(prev.lo.x, p.x), Min(prev.lo.y, p.y)), Point(Max(prev.hi.x, p.x), Max(prev.hi.y, p.y)))
  }

  /** The fold of code.ts:91-94, starting from [[MAX_VALUE, MAX_VALUE], [MIN_VALUE, MIN_VALUE]]. */
  function CurveFitInRect(points: seq<Vertex>): Rect {
    if |points| == 0 then Rect(Point(MaxValue, MaxValue), Point(MinValue, MinValue))
    else Widen(CurveFitInRect(points[..|points| - 1]), points[|points| - 1].at)
  }

  /** Each side of a curve's box touches one of its points or is still at its initial value. */
  predicate Tight(points: seq<Vertex>, r: Rect) {
    && ((exists i :: 0 <= i < |points| && points[i].at.x == r.lo.x) || r.lo.x == MaxValue)
    && ((exists i :: 0 <= i < |points| && points[i].at.y == r.lo.y) || r.lo.y == MaxValue)
    && ((exists i :: 0 <= i < |points| && points[i].at.x == r.hi.x) || r.hi.x == MinValue)
    && ((exists i :: 0 <= i < |points| && points[i].at.y == r.hi.y) || r.hi.y == MinValue)
  }

  /** The box of a curve contains every vertex. */
  lemma {:induction false} CurveFitInRectContains(points: seq<Vertex>, i: nat)
    requires i < |points|
    ensures PointInRect(points[i].at, CurveFitInRect(points))
  {
    var init := points[..|points| - 1];
    if i < |init| {
      assert init[i] == points[i];
      CurveFitInRectContains(init, i);
    }
  }

  /** Its max corner is at least MIN_VALUE, so it reaches past the origin even when every coordinate is negative. */
  lemma {:induction false} CurveFitInRectLimits(points: seq<Vertex>)
    ensures var r := CurveFitInRect(points);
      r.lo.x <= MaxValue && r.lo.y <= MaxValue && r.hi.x >= MinValue && r.hi.y >= MinValue
  {
    if |points| > 0 {
      CurveFitInRectLimits(points[..|points| - 1]);
    }
  }

  /** Each side touches one of its points or still holds its starting value. */
  lemma {:induction false} CurveFitInRectTight(points: seq<Vertex>)
    ensures Tight(points, CurveFitInRect(points))
  {
    if |points| > 0 {
      var init := points[..|points| - 1];
      CurveFitInRectTight(init);
      var prev := CurveFitInRect(init);
      var r := CurveFitInRect(points);
      var n := |points| - 1;
      if r.lo.x != points[n].at.x && r.lo.x != MaxValue {
        var i :| 0 <= i < |init| && init[i].at.x == prev.lo.x;
        assert points[i].at.x == r.lo.x;
      }
      if r.lo.y != points[n].at.y && r.lo.y != MaxValue {
        var i :| 0 <= i < |init| && init[i].at.y == prev.lo.y;
        assert points[i].at.y == r.lo.y;
      }
      if r.hi.x != points[n].at.x && r.hi.x != MinValue {
        var i :| 0 <= i < |init| && init[i].at.x == prev.hi.x;
        assert points[i].at.x == r.hi.x;
      }
      if r.hi.y != points[n].at.y && r.hi.y != MinValue {
        var i :| 0 <= i < |init| && init[i].at.y == prev.hi.y;
        assert points[i].at.y == r.hi.y;
      }
    }
  }

  function CurveBoxes(curves: seq<Curve>): seq<Rect> {
    seq(|curves|, i requires 0 <= i < |curves| => CurveFitInRect(curves[i].points))
  }

  /** The starting map of code.ts:99, built from each curve and its segments: a repeated curve keeps its first position and its last value. */
  function InitialMap(curves: seq<Curve>): seq<Entry> {
    if |curves| == 0 then []
    else
      var c := curves[|curves| - 1];
      Put(InitialMap(curves[..|curves| - 1]), c.id, CurveSegments(c))
  }

  /** The counter's start (code.ts:100): each curve's number of points less one, summed, so an empty curve counts -1. */
  function EndTotal(curves: seq<Curve>): int {
    if |curves| == 0 then 0 else EndTotal(curves[..|curves| - 1]) + |curves[|curves| - 1].points| - 1
  }

  /** code.ts:97-101 with playground.ts:227: the single starting quadrant at level 0. */
  function InitQuads(curves: seq<Curve>): seq<Quadrant> {
    [Quadrant(MultipleRectsFitInRect(CurveBoxes(curves)), InitialMap(curves), EndTotal(curves), 0)]
  }

  predicate DistinctIds(curves: seq<Curve>) {
    forall i, j :: 0 <= i < j < |curves| ==> curves[i].id != curves[j].id
  }

  function CurveIds(curves: seq<Curve>): set<CurveId> {
    set i | 0 <= i < |curves| :: curves[i].id
  }

  /** The total number of segments a map holds. */
  function SegmentCount(m: seq<Entry>): nat {
    if |m| == 0 then 0 else SegmentCount(m[..|m| - 1]) + |m[|m| - 1].segments|
  }

  lemma {:induction false} PutWellFormed(m: seq<Entry>, c: CurveId, v: seq<Edge>)
    requires WellFormedMap(m) && DistinctEdges(v)
    ensures WellFormedMap(Put(m, c, v))
  {
    if |m| > 0 {
      var tail := m[1..];
      assert WellFormedMap(tail) by {
        forall i, j | 0 <= i < j < |tail| ensures tail[i].curve != tail[j].curve {
          assert tail[i] == m[i + 1] && tail[j] == m[j + 1];
        }
        forall i | 0 <= i < |tail| ensures DistinctEdges(tail[i].segments) {
          assert tail[i] == m[i + 1];
        }
      }
      assert m[0].curve !in Keys(tail) by {
        forall k | 0 <= k < |tail| ensures tail[k].curve != m[0].curve {
          assert tail[k] == m[k + 1];
        }
      }
      var rest := if m[0].curve == c then tail else Put(tail, c, v);
      var head := if m[0].curve == c then Entry(c, v) else m[0];
      if m[0].curve != c {
        PutWellFormed(tail, c, v);
      }
      assert head.curve !in Keys(rest);
      var r := [head] + rest;
      assert Put(m, c, v) == r;
      forall i, j | 0 <= i < j < |r| ensures r[i].curve != r[j].curve {
        assert r[j] == rest[j - 1];
        if i == 0 {
          assert rest[j - 1].curve in Keys(rest);
        } else {
          assert r[i] == rest[i - 1];
        }
      }
      forall i | 0 <= i < |r| ensures DistinctEdges(r[i].segments) {
        if i > 0 {
          assert r[i] == rest[i - 1];
        }
      }
    }
  }

  /** The ids of a list of curves are those before the last one plus the last one's. */
  lemma CurveIdsSnoc(curves: seq<Curve>)
    requires |curves| > 0
    ensures CurveIds(curves) == CurveIds(curves[..|curves| - 1]) + {curves[|curves| - 1].id}
  {
    var init := curves[..|curves| - 1];
    forall d | d in CurveIds(curves) ensures d in CurveIds(init) + {curves[|curves| - 1].id} {
      var i :| 0 <= i < |curves| && curves[i].id == d;
      if i < |init| {
        assert init[i] == curves[i];
      }
    }
    forall d | d in CurveIds(init) ensures d in CurveIds(curves) {
      var i :| 0 <= i < |init| && init[i].id == d;
      assert curves[i] == init[i];
    }
  }

  /** Distinct ids stay distinct without the last curve, and the last id is not among the others. */
  lemma DistinctIdsSnoc(curves: seq<Curve>)
    requires |curves| > 0 && DistinctIds(curves)
    ensures DistinctIds(curves[..|curves| - 1])
    ensures curves[|curves| - 1].id !in CurveIds(curves[..|curves| - 1])
  {
    var init := curves[..|curves| - 1];
    forall i, j | 0 <= i < j < |init| ensures init[i].id != init[j].id {
      assert init[i] == curves[i] && init[j] == curves[j];
    }
    forall i | 0 <= i < |init| ensures init[i].id != curves[|curves| - 1].id {
      assert init[i] == curves[i];
    }
  }

  /** The starting map is a well-formed Map whose keys are exactly the curves' ids. */
  lemma {:induction false} InitialMapWellFormed(curves: seq<Curve>)
    ensures WellFormedMap(InitialMap(curves))
    ensures Keys(InitialMap(curves)) == CurveIds(curves)
  {
    if |curves| > 0 {
      var init := curves[..|curves| - 1];
      var c := curves[|curves| - 1];
      InitialMapWellFormed(init);
      CurveSegmentsDistinct(c);
      PutWellFormed(InitialMap(init), c.id, CurveSegments(c));
      CurveIdsSnoc(curves);
    }
  }

  /** With distinct ids, each curve's entry holds exactly its own segments. */
  lemma {:induction false} InitialMapGet(curves: seq<Curve>, i: nat)
    requires DistinctIds(curves) && i < |curves|
    ensures Get(InitialMap(curves), curves[i].id) == CurveSegments(curves[i])
  {
    var init := curves[..|curves| - 1];
    var c := curves[|curves| - 1];
    var m := InitialMap(init);
    if i < |init| {
      assert init[i] == curves[i];
      assert curves[i].id != c.id;
      DistinctIdsSnoc(curves);
      InitialMapGet(init, i);
      assert Get(InitialMap(curves), curves[i].id) == Get(m, curves[i].id);
    } else {
      assert curves[i] == c;
      assert Get(InitialMap(curves), c.id) == CurveSegments(c);
    }
  }

  /** With distinct ids and no empty curve, the counter starts at the number of segments in the map. */
  lemma {:induction false} InitialCounter(curves: seq<Curve>)
    requires DistinctIds(curves)
    requires forall i :: 0 <= i < |curves| ==> |curves[i].points| >= 1
    ensures EndTotal(curves) == SegmentCount(InitialMap(curves))
  {
    if |curves| > 0 {
      var init := curves[..|curves| - 1];
      var c := curves[|curves| - 1];
      DistinctIdsSnoc(curves);
      InitialCounter(init);
      InitialMapWellFormed(init);
      PutAbsent(InitialMap(init), c.id, CurveSegments(c));
      var m := InitialMap(init) + [Entry(c.id, CurveSegments(c))];
      assert m[..|m| - 1] == InitialMap(init);
    }
  }

  /**
   * The starting quadrant (code.ts:97-101, playground.ts:223-228): level 0, well-formed, one entry
   * per curve id, and a bounding box that holds every vertex of every curve and the origin.
   */
  lemma InitQuadsContents(curves: seq<Curve>)
    ensures var q := InitQuads(curves)[0];
      && q.level == 0
      && WellFormed(q)
      && Keys(q.curveToSegments) == CurveIds(curves)
      && PointInRect(Point(0.0, 0.0), q.bounding)
      && (forall i, k :: 0 <= i < |curves| && 0 <= k < |curves[i].points| ==> PointInRect(curves[i].points[k].at, q.bounding))
  {
    InitialMapWellFormed(curves);
    var boxes := CurveBoxes(curves);
    forall i, k | 0 <= i < |curves| && 0 <= k < |curves[i].points|
      ensures PointInRect(curves[i].points[k].at, InitQuads(curves)[0].bounding)
    {
      CurveFitInRectContains(curves[i].points, k);
      MultipleRectsContain(boxes, i, curves[i].points[k].at);
    }
  }
}
