/**
 * Quadrants and their four-way split (code.ts:10-14, 38-49; the `level`
 * field of playground.ts:163).  A JavaScript `Map<curve, Set<segment>>` is an
 * insertion-ordered sequence of entries; `WellFormed` states what Map and Set
 * guarantee: no curve twice, no segment twice under one curve.
 */
module Quadrants {
  import opened Geometry
  import opened Curves

  /** One key/value pair of a curve-to-segments map. */
  datatype Entry = Entry(curve: CurveId, segments: seq<Edge>)

  datatype Quadrant = Quadrant(bounding: Rect, curveToSegments: seq<Entry>, numEndInSections: int, level: nat)

  // ---------------------------------------------------------------------------------------------
  // The insertion-ordered map
  // ---------------------------------------------------------------------------------------------

  function Keys(m: seq<Entry>): set<CurveId> {
    set i | 0 <= i < |m| :: m[i].curve
  }

  lemma KeysAppend(a: seq<Entry>, b: seq<Entry>)
    ensures Keys(a + b) == Keys(a) + Keys(b)
  {
    forall c | c in Keys(a + b) ensures c in Keys(a) + Keys(b) {
      var i :| 0 <= i < |a + b| && (a + b)[i].curve == c;
      if i >= |a| {
        assert b[i - |a|].curve == c;
      }
    }
    forall c | c in Keys(a) ensures c in Keys(a + b) {
      var i :| 0 <= i < |a| && a[i].curve == c;
      assert (a + b)[i].curve == c;
    }
    forall c | c in Keys(b) ensures c in Keys(a + b) {
      var i :| 0 <= i < |b| && b[i].curve == c;
      assert (a + b)[|a| + i].curve == c;
    }
  }

  lemma KeysSingle(e: Entry)
    ensures Keys([e]) == {e.curve}
  {
    assert [e][0].curve == e.curve;
  }

  /** `map.get(c)`, with the empty set for a missing key (the source only reads present keys). */
  function Get(m: seq<Entry>, c: CurveId): (r: seq<Edge>)
    ensures c !in Keys(m) ==> r == []
  {
    if |m| == 0 then []
    else if m[0].curve == c then m[0].segments
    else (KeysAppend([m[0]], m[1..]); assert [m[0]] + m[1..] == m; Get(m[1..], c))
  }

  /** `map.set(c, v)`: replaces the value in place when c is present, appends an entry otherwise. */
  function Put(m: seq<Entry>, c: CurveId, v: seq<Edge>): (r: seq<Entry>)
    ensures Keys(r) == Keys(m) + {c}
    ensures Get(r, c) == v
    ensures forall d :: d != c ==> Get(r, d) == Get(m, d)
  {
    if |m| == 0 then KeysSingle(Entry(c, v)); [Entry(c, v)]
    else if m[0].curve == c then
      KeysAppend([m[0]], m[1..]);
      KeysAppend([Entry(c, v)], m[1..]);
      KeysSingle(m[0]);
      KeysSingle(Entry(c, v));
      assert [m[0]] + m[1..] == m;
      [Entry(c, v)] + m[1..]
    else
      var rest := Put(m[1..], c, v);
      KeysAppend([m[0]], m[1..]);
      KeysAppend([m[0]], rest);
      assert [m[0]] + m[1..] == m;
      assert ([m[0]] + rest)[1..] == rest;
      [m[0]] + rest
  }

  /** `set.add(s)`: no effect when s is already a member. */
  function SetAdd(segs: seq<Edge>, s: Edge): (r: seq<Edge>)
    ensures s in r && forall t :: t in r <==> t in segs || t == s
    ensures DistinctEdges(segs) ==> DistinctEdges(r)
  {
    if s in segs then segs else segs + [s]
  }

  /** Lines 45-46: create an empty set for c if it has none, then add s to c's set. */
  function Record(m: seq<Entry>, c: CurveId, s: Edge): (r: seq<Entry>)
    ensures Keys(r) == Keys(m) + {c}
    ensures Get(r, c) == SetAdd(Get(m, c), s)
    ensures forall d :: d != c ==> Get(r, d) == Get(m, d)
  {
    var m1 := if c in Keys(m) then m else Put(m, c, []);
    Put(m1, c, SetAdd(Get(m1, c), s))
  }

  predicate DistinctKeys(m: seq<Entry>) {
    forall i, j :: 0 <= i < j < |m| ==> m[i].curve != m[j].curve
  }

  /** A map whose keys are distinct and whose values are sets. */
  predicate WellFormedMap(m: seq<Entry>) {
    DistinctKeys(m) && forall i :: 0 <= i < |m| ==> DistinctEdges(m[i].segments)
  }

  predicate WellFormed(q: Quadrant) {
    WellFormedMap(q.curveToSegments)
  }

  /** With distinct keys, looking up an entry's key finds that entry's value. */
  lemma {:induction false} GetAt(m: seq<Entry>, i: nat)
    requires DistinctKeys(m) && i < |m|
    ensures Get(m, m[i].curve) == m[i].segments
  {
    if i > 0 {
      assert m[1..][i - 1] == m[i];
      GetAt(m[1..], i - 1);
    }
  }

  lemma {:induction false} GetConcat(a: seq<Entry>, b: seq<Entry>, c: CurveId)
    ensures Get(a + b, c) == if c in Keys(a) then Get(a, c) else Get(b, c)
  {
    if |a| == 0 {
      assert a + b == b;
    } else {
      assert (a + b)[1..] == a[1..] + b;
      KeysAppend([a[0]], a[1..]);
      assert [a[0]] + a[1..] == a;
      if a[0].curve != c {
        GetConcat(a[1..], b, c);
      }
    }
  }

  lemma {:induction false} PutAbsent(m: seq<Entry>, c: CurveId, v: seq<Edge>)
    requires c !in Keys(m)
    ensures Put(m, c, v) == m + [Entry(c, v)]
  {
    if |m| > 0 {
      assert m[0].curve != c;
      KeysAppend([m[0]], m[1..]);
      assert [m[0]] + m[1..] == m;
      PutAbsent(m[1..], c, v);
      assert [m[0]] + (m[1..] + [Entry(c, v)]) == m + [Entry(c, v)];
    }
  }

  lemma {:induction false} PutLast(m: seq<Entry>, c: CurveId, w: seq<Edge>, v: seq<Edge>)
    requires c !in Keys(m)
    ensures Put(m + [Entry(c, w)], c, v) == m + [Entry(c, v)]
  {
    if |m| == 0 {
      assert m + [Entry(c, w)] == [Entry(c, w)];
    } else {
      assert m[0].curve != c;
      KeysAppend([m[0]], m[1..]);
      assert [m[0]] + m[1..] == m;
      assert (m + [Entry(c, w)])[1..] == m[1..] + [Entry(c, w)];
      PutLast(m[1..], c, w, v);
      assert [m[0]] + (m[1..] + [Entry(c, v)]) == m + [Entry(c, v)];
    }
  }

  /** Recording a new segment under the curve being scanned extends that curve's last entry. */
  lemma RecordExtends(m: seq<Entry>, c: CurveId, ks: seq<Edge>, s: Edge)
    requires c !in Keys(m) && s !in ks
    ensures Record(m + Tail(c, ks), c, s) == m + [Entry(c, ks + [s])]
  {
    KeysAppend(m, [Entry(c, ks)]);
    KeysSingle(Entry(c, ks));
    if ks == [] {
      assert m + Tail(c, ks) == m;
      PutAbsent(m, c, []);
      GetConcat(m, [Entry(c, [])], c);
      assert Get(m + [Entry(c, [])], c) == [];
      assert SetAdd([], s) == [s] == ks + [s];
      PutLast(m, c, [], [s]);
    } else {
      GetConcat(m, [Entry(c, ks)], c);
      PutLast(m, c, ks, ks + [s]);
    }
  }

  // ---------------------------------------------------------------------------------------------
  // What a child of the split receives
  // ---------------------------------------------------------------------------------------------

  /** A segment a child takes: an endpoint inside it, or a crossing of one of its diagonals. */
  predicate Relevant(s: Edge, r: Rect) {
    SegmentEndInRect(s.Geo(), r) || SegmentCrossRect(s.Geo(), r)
  }

  /** The segments, in order, that a child with bounding r keeps. */
  function Kept(segs: seq<Edge>, r: Rect): seq<Edge> {
    if |segs| == 0 then []
    else Kept(segs[..|segs| - 1], r) + (if Relevant(segs[|segs| - 1], r) then [segs[|segs| - 1]] else [])
  }

  /** How many of the segments have an endpoint in r. */
  function Ends(segs: seq<Edge>, r: Rect): nat {
    if |segs| == 0 then 0
    else Ends(segs[..|segs| - 1], r) + (if SegmentEndInRect(segs[|segs| - 1].Geo(), r) then 1 else 0)
  }

  /** The entry a curve contributes: none when no segment was recorded. */
  function Tail(c: CurveId, ks: seq<Edge>): seq<Entry> {
    if ks == [] then [] else [Entry(c, ks)]
  }

  function ChildMap(m: seq<Entry>, r: Rect): seq<Entry> {
    if |m| == 0 then []
    else ChildMap(m[..|m| - 1], r) + Tail(m[|m| - 1].curve, Kept(m[|m| - 1].segments, r))
  }

  function ChildEnds(m: seq<Entry>, r: Rect): nat {
    if |m| == 0 then 0 else ChildEnds(m[..|m| - 1], r) + Ends(m[|m| - 1].segments, r)
  }

  function ChildFrom(m: seq<Entry>, r: Rect, level: nat): Quadrant {
    Quadrant(r, ChildMap(m, r), ChildEnds(m, r), level)
  }

  /** The four children the split of q produces, in the order of `DivideRect`. */
  function Divide(q: Quadrant): seq<Quadrant> {
    var rs := DivideRect(q.bounding);
    seq(4, k requires 0 <= k < 4 => ChildFrom(q.curveToSegments, rs[k], q.level + 1))
  }

  /** A child part-way through the scan: entries before the current one, then a prefix of its segments. */
  function Partial(done: seq<Entry>, c: CurveId, ss: seq<Edge>, r: Rect, level: nat): Quadrant {
    Quadrant(r, ChildMap(done, r) + Tail(c, Kept(ss, r)), ChildEnds(done, r) + Ends(ss, r), level)
  }

  lemma {:induction false} KeptMembers(segs: seq<Edge>, r: Rect, s: Edge)
    ensures s in Kept(segs, r) <==> s in segs && Relevant(s, r)
  {
    if |segs| > 0 {
      var init := segs[..|segs| - 1];
      assert segs == init + [segs[|segs| - 1]];
      KeptMembers(init, r, s);
    }
  }

  lemma {:induction false} KeptDistinct(segs: seq<Edge>, r: Rect)
    requires DistinctEdges(segs)
    ensures DistinctEdges(Kept(segs, r))
  {
    if |segs| > 0 {
      var init := segs[..|segs| - 1];
      KeptDistinct(init, r);
      KeptMembers(init, r, segs[|segs| - 1]);
    }
  }

  /** Every segment with an endpoint inside is kept, so the kept ones that do are exactly as many. */
  lemma {:induction false} EndsOfKept(segs: seq<Edge>, r: Rect)
    ensures Ends(Kept(segs, r), r) == Ends(segs, r)
    ensures Ends(segs, r) <= |Kept(segs, r)|
  {
    if |segs| > 0 {
      var init := segs[..|segs| - 1];
      var s := segs[|segs| - 1];
      EndsOfKept(init, r);
      if Relevant(s, r) {
        assert (Kept(init, r) + [s])[..|Kept(init, r)|] == Kept(init, r);
      } else {
        assert Kept(segs, r) == Kept(init, r) + [] == Kept(init, r);
      }
    }
  }

  lemma {:induction false} ChildMapKeys(m: seq<Entry>, r: Rect)
    ensures Keys(ChildMap(m, r)) <= Keys(m)
    ensures forall k :: 0 <= k < |ChildMap(m, r)| ==> ChildMap(m, r)[k].segments != []
  {
    if |m| > 0 {
      var init := m[..|m| - 1];
      var e := m[|m| - 1];
      ChildMapKeys(init, r);
      KeysAppend(ChildMap(init, r), Tail(e.curve, Kept(e.segments, r)));
      KeysAppend(init, [e]);
      assert init + [e] == m;
      assert Keys([e]) == {e.curve};
    }
  }

  lemma {:induction false} ChildMapWellFormed(m: seq<Entry>, r: Rect)
    requires WellFormedMap(m)
    ensures WellFormedMap(ChildMap(m, r))
  {
    if |m| > 0 {
      var init := m[..|m| - 1];
      var e := m[|m| - 1];
      assert WellFormedMap(init);
      ChildMapWellFormed(init, r);
      ChildMapKeys(init, r);
      if Kept(e.segments, r) != [] {
        assert e.curve !in Keys(init);
        KeptDistinct(e.segments, r);
      }
    }
  }

  /** A child's segments for c are the parent's segments for c that are relevant to the child, in order. */
  lemma {:induction false} ChildMapGet(m: seq<Entry>, r: Rect, c: CurveId)
    requires DistinctKeys(m)
    ensures Get(ChildMap(m, r), c) == Kept(Get(m, c), r)
  {
    if |m| > 0 {
      var init := m[..|m| - 1];
      var e := m[|m| - 1];
      assert init + [e] == m;
      ChildMapGet(init, r, c);
      ChildMapKeys(init, r);
      GetConcat(ChildMap(init, r), Tail(e.curve, Kept(e.segments, r)), c);
      GetConcat(init, [e], c);
      if c !in Keys(init) && c != e.curve {
        assert c !in Keys(Tail(e.curve, Kept(e.segments, r)));
      }
    }
  }

  lemma {:induction false} ChildEndsOfKept(m: seq<Entry>, r: Rect)
    ensures ChildEnds(ChildMap(m, r), r) == ChildEnds(m, r)
  {
    if |m| > 0 {
      var init := m[..|m| - 1];
      var e := m[|m| - 1];
      ChildEndsOfKept(init, r);
      EndsOfKept(e.segments, r);
      var ks := Kept(e.segments, r);
      assert ChildEnds(m, r) == ChildEnds(init, r) + Ends(e.segments, r);
      if ks != [] {
        var cm := ChildMap(init, r) + [Entry(e.curve, ks)];
        assert ChildMap(m, r) == cm;
        assert cm[..|cm| - 1] == ChildMap(init, r);
        assert ChildEnds(cm, r) == ChildEnds(ChildMap(init, r), r) + Ends(ks, r);
      } else {
        assert ChildMap(m, r) == ChildMap(init, r) + [] == ChildMap(init, r);
        assert Ends(e.segments, r) == 0;
      }
    }
  }

  /**
   * The split, per child (code.ts:38-49): for each curve c the child holds exactly the parent's
   * segments of c that have an endpoint in the child or cross one of its diagonals, in the
   * parent's order; a curve appears iff it kept a segment; no entry is empty; the counter counts
   * the recorded segments with an endpoint inside; the child is well-formed, one level deeper, and
   * its bounding is the matching quarter of the parent's.
   */
  lemma DivideChild(q: Quadrant, k: nat)
    requires WellFormed(q) && k < 4
    ensures var kid := Divide(q)[k];
      && kid.bounding == DivideRect(q.bounding)[k]
      && kid.level == q.level + 1
      && WellFormed(kid)
      && (forall c :: Get(kid.curveToSegments, c) == Kept(Get(q.curveToSegments, c), kid.bounding))
      && (forall c :: c in Keys(kid.curveToSegments) <==> Kept(Get(q.curveToSegments, c), kid.bounding) != [])
      && (forall i :: 0 <= i < |kid.curveToSegments| ==> kid.curveToSegments[i].segments != [])
      && kid.numEndInSections == ChildEnds(kid.curveToSegments, kid.bounding)
  {
    var m := q.curveToSegments;
    var r := DivideRect(q.bounding)[k];
    ChildMapWellFormed(m, r);
    ChildMapKeys(m, r);
    ChildEndsOfKept(m, r);
    forall c ensures Get(ChildMap(m, r), c) == Kept(Get(m, c), r) {
      ChildMapGet(m, r, c);
    }
    forall c ensures c in Keys(ChildMap(m, r)) <==> Kept(Get(m, c), r) != [] {
      ChildMapGet(m, r, c);
      if c in Keys(ChildMap(m, r)) {
        var i :| 0 <= i < |ChildMap(m, r)| && ChildMap(m, r)[i].curve == c;
        GetAt(ChildMap(m, r), i);
      }
    }
  }

  /** A segment recorded under c in a child was recorded under c in the parent and is relevant to the child. */
  lemma DivideOnlyRelevant(q: Quadrant, k: nat, c: CurveId, s: Edge)
    requires WellFormed(q) && k < 4
    ensures s in Get(Divide(q)[k].curveToSegments, c)
      <==> s in Get(q.curveToSegments, c) && Relevant(s, DivideRect(q.bounding)[k])
  {
    DivideChild(q, k);
    KeptMembers(Get(q.curveToSegments, c), DivideRect(q.bounding)[k], s);
  }

  /** One step of the scan: what lines 43-46 do to a child, in terms of the specification. */
  lemma PartialStep(done: seq<Entry>, c: CurveId, ss: seq<Edge>, s: Edge, r: Rect, level: nat)
    requires c !in Keys(done) && s !in ss
    ensures var p := Partial(done, c, ss, r, level);
      Partial(done, c, ss + [s], r, level) ==
        if SegmentEndInRect(s.Geo(), r) then
          p.(numEndInSections := p.numEndInSections + 1, curveToSegments := Record(p.curveToSegments, c, s))
        else if SegmentCrossRect(s.Geo(), r) then p.(curveToSegments := Record(p.curveToSegments, c, s))
        else p
  {
    KeptSnoc(ss, s, r);
    var p := Partial(done, c, ss, r, level);
    if Relevant(s, r) {
      ChildMapKeys(done, r);
      KeptMembers(ss, r, s);
      RecordExtends(ChildMap(done, r), c, Kept(ss, r), s);
      assert Tail(c, Kept(ss + [s], r)) == [Entry(c, Kept(ss, r) + [s])];
      assert Record(p.curveToSegments, c, s) == Partial(done, c, ss + [s], r, level).curveToSegments;
    } else {
      assert Kept(ss + [s], r) == Kept(ss, r);
    }
  }

  lemma KeptSnoc(ss: seq<Edge>, s: Edge, r: Rect)
    ensures Kept(ss + [s], r) == Kept(ss, r) + (if Relevant(s, r) then [s] else [])
    ensures Ends(ss + [s], r) == Ends(ss, r) + (if SegmentEndInRect(s.Geo(), r) then 1 else 0)
  {
    assert (ss + [s])[..|ss|] == ss;
  }

  /**
   * The callback of lines 43-46 applied to one child q and one segment s of curve c: count s when it
   * has an endpoint inside, and record it when it has one or crosses a diagonal.
   */
  method Place(q: Quadrant, c: CurveId, s: Edge, ghost done: seq<Entry>, ghost pre: seq<Edge>) returns (r: Quadrant)
    requires c !in Keys(done) && s !in pre
    requires q == Partial(done, c, pre, q.bounding, q.level)
    ensures r == Partial(done, c, pre + [s], q.bounding, q.level)
  {
    PartialStep(done, c, pre, s, q.bounding, q.level);
    r := q;
    if SegmentEndInRect(s.Geo(), r.bounding) {
      r := r.(numEndInSections := r.numEndInSections + 1);
    } else if !SegmentCrossRect(s.Geo(), r.bounding) {
      return;
    }
    r := r.(curveToSegments := Record(r.curveToSegments, c, s));
  }

  /**
   * The split as the source performs it: one pass over the parent's entries, their segments and the
   * four children, updating each child's counter and map in place (code.ts:38-49, playground.ts:163).
   */
  method DivideQuadrant(quad: Quadrant) returns (newQuads: seq<Quadrant>)
    requires WellFormed(quad)
    ensures newQuads == Divide(quad)
  {
    var rects := DivideRect(quad.bounding);
    var m := quad.curveToSegments;
    var level := quad.level + 1;
    newQuads := [Quadrant(rects[0], [], 0, level), Quadrant(rects[1], [], 0, level),
                 Quadrant(rects[2], [], 0, level), Quadrant(rects[3], [], 0, level)];
    var i := 0;
    while i < |m|
      invariant 0 <= i <= |m| && |newQuads| == 4
      invariant forall k :: 0 <= k < 4 ==> newQuads[k] == ChildFrom(m[..i], rects[k], level)
    {
      assert m[..i + 1] == m[..i] + [m[i]];
      newQuads := AddCurve(newQuads, m[i].curve, m[i].segments, m[..i]);
      i := i + 1;
    }
    assert m[..|m|] == m;
  }

  /** One step of the `reduce` (lines 41-47): every segment of curve c offered to every child. */
  method AddCurve(newQuads: seq<Quadrant>, c: CurveId, segments: seq<Edge>, ghost done: seq<Entry>) returns (kids: seq<Quadrant>)
    requires |newQuads| == 4 && c !in Keys(done) && DistinctEdges(segments)
    requires forall k :: 0 <= k < 4 ==> newQuads[k] == ChildFrom(done, newQuads[k].bounding, newQuads[k].level)
    ensures |kids| == 4
    ensures forall k :: 0 <= k < 4 ==>
      kids[k] == ChildFrom(done + [Entry(c, segments)], newQuads[k].bounding, newQuads[k].level)
  {
    kids := newQuads;
    var j := 0;
    while j < |segments|
      invariant 0 <= j <= |segments| && |kids| == 4
      invariant forall k :: 0 <= k < 4 ==>
        kids[k] == Partial(done, c, segments[..j], newQuads[k].bounding, newQuads[k].level)
    {
      var s := segments[j];
      ghost var pre := segments[..j];
      assert s !in pre;
      assert segments[..j + 1] == pre + [s];
      var t := 0;
      while t < 4
        invariant 0 <= t <= 4 && |kids| == 4
        invariant forall k :: 0 <= k < t ==>
          kids[k] == Partial(done, c, pre + [s], newQuads[k].bounding, newQuads[k].level)
        invariant forall k :: t <= k < 4 ==>
          kids[k] == Partial(done, c, pre, newQuads[k].bounding, newQuads[k].level)
      {
        var q := Place(kids[t], c, s, done, pre);
        kids := kids[t := q];
        t := t + 1;
      }
      j := j + 1;
    }
    assert segments[..|segments|] == segments;
    forall k | 0 <= k < 4 {
      ChildFromSnoc(done, Entry(c, segments), newQuads[k].bounding, newQuads[k].level);
    }
  }

  lemma ChildFromSnoc(done: seq<Entry>, e: Entry, r: Rect, level: nat)
    ensures ChildFrom(done + [e], r, level) == Partial(done, e.curve, e.segments, r, level)
  {
    assert (done + [e])[..|done|] == done;
  }
}
