/**
 * The worklist (code.ts:79-86; the inspected-quadrant `count` of playground.ts:195-197).
 * The source loops until the queue is empty and has no depth cap; here `fuel` bounds the
 * number of quadrants inspected, and `Explore` is the run the loop performs within it.
 */
module Subdivision {
  import opened Geometry
  import opened Curves
  import opened Quadrants
  import opened Naive

  const NumSectionsToSolveNaively: int := 2

  /** Line 83: the children kept need one curve when self-intersecting, two otherwise. */
  function MinCurves(selfIntersect: bool): nat {
    if selfIntersect then 1 else 2
  }

  /** The filter on line 83, in order. */
  function KeepChildren(kids: seq<Quadrant>, selfIntersect: bool): seq<Quadrant> {
    if |kids| == 0 then []
    else
      var q := kids[|kids| - 1];
      KeepChildren(kids[..|kids| - 1], selfIntersect) + (if |q.curveToSegments| >= MinCurves(selfIntersect) then [q] else [])
  }

  lemma {:induction false} KeepChildrenMembers(kids: seq<Quadrant>, selfIntersect: bool, q: Quadrant)
    ensures q in KeepChildren(kids, selfIntersect) <==> q in kids && |q.curveToSegments| >= MinCurves(selfIntersect)
  {
    if |kids| > 0 {
      var init := kids[..|kids| - 1];
      assert kids == init + [kids[|kids| - 1]];
      KeepChildrenMembers(init, selfIntersect, q);
    }
  }

  /** What one iteration of the loop did with the quadrant it took off the queue. */
  datatype Visit = Solved(quad: Quadrant) | Split(quad: Quadrant, pushed: seq<Quadrant>)

  /** The quadrants inspected, in order, and what is left in the queue. */
  datatype Run = Run(visits: seq<Visit>, pending: seq<Quadrant>)

  /** Lines 82-83 for one quadrant. */
  function Step(q: Quadrant, selfIntersect: bool): Visit {
    if q.numEndInSections <= NumSectionsToSolveNaively then Solved(q)
    else Split(q, KeepChildren(Divide(q), selfIntersect))
  }

  function PushedBy(v: Visit): seq<Quadrant> {
    if v.Split? then v.pushed else []
  }

  /** One iteration of the loop of lines 81-84 as a function of the quadrant taken off the queue. */
  function Stepper(selfIntersect: bool): Quadrant -> Visit {
    q => Step(q, selfIntersect)
  }

  /** What a solved quadrant contributes to the results (line 82). */
  function Solver(selfIntersect: bool): Quadrant -> seq<Intersection> {
    q => QuadrantHits(q, selfIntersect)
  }

  /** `step` reports the quadrant it was applied to. */
  ghost predicate KeepsHead(step: Quadrant -> Visit) {
    forall q :: step(q).quad == q
  }

  lemma StepperKeepsHead(selfIntersect: bool)
    ensures KeepsHead(Stepper(selfIntersect))
  {
    forall q ensures Stepper(selfIntersect)(q).quad == q {
      assert Stepper(selfIntersect)(q) == Step(q, selfIntersect);
    }
  }

  /**
   * The loop run on `queue` for at most `fuel` iterations, each doing `step` to the head of the
   * queue and appending what it pushed; the engine's loop is `Explore(queue, Stepper(selfIntersect), fuel)`.
   */
  function Explore(queue: seq<Quadrant>, step: Quadrant -> Visit, fuel: nat): Run
    decreases fuel
  {
    if fuel == 0 || |queue| == 0 then Run([], queue)
    else
      var v := step(queue[0]);
      var rest := Explore(queue[1..] + PushedBy(v), step, fuel - 1);
      Run([v] + rest.visits, rest.pending)
  }

  /** The results of a run: the solved quadrants' results, one after the other in visiting order. */
  function Results(visits: seq<Visit>, solve: Quadrant -> seq<Intersection>): seq<Intersection> {
    if |visits| == 0 then []
    else (if visits[0].Solved? then solve(visits[0].quad) else []) + Results(visits[1..], solve)
  }

  function Pushed(visits: seq<Visit>): seq<Quadrant> {
    if |visits| == 0 then [] else PushedBy(visits[0]) + Pushed(visits[1..])
  }

  function Inspected(visits: seq<Visit>): seq<Quadrant> {
    if |visits| == 0 then [] else [visits[0].quad] + Inspected(visits[1..])
  }

  lemma {:induction false} ResultsAppend(a: seq<Visit>, b: seq<Visit>, solve: Quadrant -> seq<Intersection>)
    ensures Results(a + b, solve) == Results(a, solve) + Results(b, solve)
  {
    if |a| == 0 {
      assert a + b == b;
    } else {
      assert (a + b)[1..] == a[1..] + b;
      ResultsAppend(a[1..], b, solve);
    }
  }

  lemma ResultsCons(v: Visit, visits: seq<Visit>, solve: Quadrant -> seq<Intersection>)
    ensures Results([v] + visits, solve) == (if v.Solved? then solve(v.quad) else []) + Results(visits, solve)
  {
    assert ([v] + visits)[1..] == visits;
  }

  /**
   * The queue is first-in first-out (lines 81, 83): the quadrants inspected followed by those
   * still waiting are the initial queue followed by every child pushed, in order.
   */
  lemma {:induction false} ExploreFifo(queue: seq<Quadrant>, step: Quadrant -> Visit, fuel: nat)
    requires KeepsHead(step)
    decreases fuel
    ensures var run := Explore(queue, step, fuel);
      Inspected(run.visits) + run.pending == queue + Pushed(run.visits)
  {
    if fuel > 0 && |queue| > 0 {
      var v := step(queue[0]);
      var next := queue[1..] + PushedBy(v);
      ExploreFifo(next, step, fuel - 1);
      FifoStep(queue, v, Explore(next, step, fuel - 1));
    }
  }

  /** The bookkeeping of one iteration: the head is inspected and the children join the tail. */
  lemma FifoStep(queue: seq<Quadrant>, v: Visit, rest: Run)
    requires |queue| > 0 && v.quad == queue[0]
    requires Inspected(rest.visits) + rest.pending == queue[1..] + PushedBy(v) + Pushed(rest.visits)
    ensures Inspected([v] + rest.visits) + rest.pending == queue + Pushed([v] + rest.visits)
  {
    assert ([v] + rest.visits)[1..] == rest.visits;
    calc {
      Inspected([v] + rest.visits) + rest.pending;
      [queue[0]] + (Inspected(rest.visits) + rest.pending);
      [queue[0]] + (queue[1..] + PushedBy(v) + Pushed(rest.visits));
      { assert queue == [queue[0]] + queue[1..]; }
      queue + (PushedBy(v) + Pushed(rest.visits));
      queue + Pushed([v] + rest.visits);
    }
  }

  /** Every visit of a run is `step` applied to the quadrant visited. */
  lemma {:induction false} VisitIsStep(queue: seq<Quadrant>, step: Quadrant -> Visit, fuel: nat, k: nat)
    requires KeepsHead(step)
    requires k < |Explore(queue, step, fuel).visits|
    ensures var v := Explore(queue, step, fuel).visits[k]; v == step(v.quad)
    decreases fuel
  {
    var v := step(queue[0]);
    var rest := Explore(queue[1..] + PushedBy(v), step, fuel - 1);
    if k > 0 {
      assert ([v] + rest.visits)[k] == rest.visits[k - 1];
      VisitIsStep(queue[1..] + PushedBy(v), step, fuel - 1, k - 1);
    }
  }

  /**
   * What each iteration did (lines 82-83): a quadrant is solved iff its counter is at most 2, and
   * is never split then; a split pushes the children of `Divide` that hold enough curves, each
   * one level deeper and bounded by one of the quarters of the parent's bounding.
   */
  lemma ExploreVisits(queue: seq<Quadrant>, selfIntersect: bool, fuel: nat, k: nat)
    requires k < |Explore(queue, Stepper(selfIntersect), fuel).visits|
    ensures var v := Explore(queue, Stepper(selfIntersect), fuel).visits[k];
      && (v.Solved? <==> v.quad.numEndInSections <= NumSectionsToSolveNaively)
      && (v.Split? ==> forall p :: p in v.pushed <==> p in Divide(v.quad) && |p.curveToSegments| >= MinCurves(selfIntersect))
      && (v.Split? ==> forall p :: p in v.pushed ==> p.level == v.quad.level + 1)
      && (v.Split? ==> forall p :: p in v.pushed ==> p.bounding in DivideRect(v.quad.bounding))
  {
    StepperKeepsHead(selfIntersect);
    VisitIsStep(queue, Stepper(selfIntersect), fuel, k);
    var v := Explore(queue, Stepper(selfIntersect), fuel).visits[k];
    assert v == Step(v.quad, selfIntersect);
    if v.Split? {
      forall p ensures p in v.pushed <==> p in Divide(v.quad) && |p.curveToSegments| >= MinCurves(selfIntersect) {
        KeepChildrenMembers(Divide(v.quad), selfIntersect, p);
      }
    }
  }

  /** A run stops only when the queue is empty or the fuel is used up, one quadrant per unit. */
  lemma {:induction false} ExploreFuel(queue: seq<Quadrant>, step: Quadrant -> Visit, fuel: nat)
    ensures var run := Explore(queue, step, fuel);
      |run.visits| <= fuel && (run.pending == [] || |run.visits| == fuel)
    decreases fuel
  {
    if fuel > 0 && |queue| > 0 {
      var v := step(queue[0]);
      ExploreFuel(queue[1..] + PushedBy(v), step, fuel - 1);
    }
  }

  /** Once a run empties the queue, more fuel changes nothing: the bound only cuts runs short. */
  lemma {:induction false} ExploreStable(queue: seq<Quadrant>, step: Quadrant -> Visit, fuel: nat, more: nat)
    requires Explore(queue, step, fuel).pending == [] && fuel <= more
    ensures Explore(queue, step, more) == Explore(queue, step, fuel)
    decreases fuel
  {
    if fuel > 0 && |queue| > 0 {
      var v := step(queue[0]);
      ExploreStable(queue[1..] + PushedBy(v), step, fuel - 1, more - 1);
    }
  }

  /**
   * A property `inv` of quadrants that every step passes on to what it pushes, and that makes
   * every result of a solved quadrant satisfy `ok`, makes every result of a run from such
   * quadrants satisfy `ok`.
   */
  lemma {:induction false} ExploreKeeps(queue: seq<Quadrant>, step: Quadrant -> Visit, solve: Quadrant -> seq<Intersection>,
                                        fuel: nat, inv: Quadrant -> bool, ok: Intersection -> bool, r: Intersection)
    requires KeepsHead(step)
    requires forall q, p :: inv(q) && p in PushedBy(step(q)) ==> inv(p)
    requires forall q, x :: inv(q) && step(q).Solved? && x in solve(q) ==> ok(x)
    requires forall q :: q in queue ==> inv(q)
    requires r in Results(Explore(queue, step, fuel).visits, solve)
    ensures ok(r)
    decreases fuel
  {
    var v := step(queue[0]);
    var next := queue[1..] + PushedBy(v);
    var rest := Explore(next, step, fuel - 1);
    ResultsCons(v, rest.visits, solve);
    if v.Solved? && r in solve(queue[0]) {
      assert inv(queue[0]);
    } else {
      forall q | q in next ensures inv(q) {
        if q !in queue[1..] {
          assert inv(queue[0]);
        }
      }
      ExploreKeeps(next, step, solve, fuel - 1, inv, ok, r);
    }
  }

  // ---------------------------------------------------------------------------------------------
  // Soundness: every result comes from two segments of the starting map
  // ---------------------------------------------------------------------------------------------

  predicate AllWellFormed(quads: seq<Quadrant>) {
    forall i :: 0 <= i < |quads| ==> WellFormed(quads[i])
  }

  /** Every segment q records under a curve is one the starting map `base` holds under that curve. */
  predicate Sound(q: Quadrant, base: seq<Entry>) {
    forall i, s :: 0 <= i < |q.curveToSegments| && s in q.curveToSegments[i].segments ==>
      s in Get(base, q.curveToSegments[i].curve)
  }

  predicate AllSound(quads: seq<Quadrant>, base: seq<Entry>) {
    forall i :: 0 <= i < |quads| ==> Sound(quads[i], base)
  }

  /** r is a crossing of a segment of its c1 and one of its c2 in `base`, found as line 69 demands. */
  predicate Justified(base: seq<Entry>, r: Intersection, selfIntersect: bool) {
    (selfIntersect || r.c1 != r.c2) &&
    exists s1, s2 :: s1 in Get(base, r.c1) && s2 in Get(base, r.c2) && Hit(r, r.c1, s1, r.c2, s2, selfIntersect)
  }

  lemma GetIsAnEntry(m: seq<Entry>, c: CurveId) returns (j: nat)
    requires DistinctKeys(m) && Get(m, c) != []
    ensures j < |m| && m[j].curve == c && m[j].segments == Get(m, c)
  {
    j :| 0 <= j < |m| && m[j].curve == c;
    GetAt(m, j);
  }

  /** Splitting keeps children well-formed and sound. */
  lemma DivideKeeps(q: Quadrant, base: seq<Entry>, k: nat)
    requires WellFormed(q) && Sound(q, base) && k < 4
    ensures WellFormed(Divide(q)[k]) && Sound(Divide(q)[k], base)
  {
    DivideChild(q, k);
    var kid := Divide(q)[k];
    var km := kid.curveToSegments;
    forall i, s | 0 <= i < |km| && s in km[i].segments ensures s in Get(base, km[i].curve) {
      var c := km[i].curve;
      GetAt(km, i);
      KeptMembers(Get(q.curveToSegments, c), kid.bounding, s);
      var j := GetIsAnEntry(q.curveToSegments, c);
    }
  }

  lemma StepKeeps(q: Quadrant, selfIntersect: bool, base: seq<Entry>)
    requires WellFormed(q) && Sound(q, base)
    ensures AllWellFormed(PushedBy(Step(q, selfIntersect))) && AllSound(PushedBy(Step(q, selfIntersect)), base)
  {
    var pushed := PushedBy(Step(q, selfIntersect));
    forall i | 0 <= i < |pushed| ensures WellFormed(pushed[i]) && Sound(pushed[i], base) {
      KeepChildrenMembers(Divide(q), selfIntersect, pushed[i]);
      var k :| 0 <= k < 4 && Divide(q)[k] == pushed[i];
      DivideKeeps(q, base, k);
    }
  }

  lemma StepWellFormed(q: Quadrant, selfIntersect: bool)
    requires WellFormed(q)
    ensures AllWellFormed(PushedBy(Step(q, selfIntersect)))
    ensures Step(q, selfIntersect).Solved? <==> q.numEndInSections <= NumSectionsToSolveNaively
    ensures PushedBy(Step(q, selfIntersect))
      == if q.numEndInSections <= NumSectionsToSolveNaively then [] else KeepChildren(Divide(q), selfIntersect)
  {
    var pushed := PushedBy(Step(q, selfIntersect));
    forall i | 0 <= i < |pushed| ensures WellFormed(pushed[i]) {
      KeepChildrenMembers(Divide(q), selfIntersect, pushed[i]);
      var k :| 0 <= k < 4 && Divide(q)[k] == pushed[i];
      DivideChild(q, k);
    }
  }

  lemma AppendWellFormed(a: seq<Quadrant>, b: seq<Quadrant>)
    requires AllWellFormed(a) && AllWellFormed(b)
    ensures AllWellFormed(a + b)
  {
    forall i | 0 <= i < |a + b| ensures WellFormed((a + b)[i]) {
      if i >= |a| {
        assert (a + b)[i] == b[i - |a|];
      }
    }
  }

  /** A solved sound quadrant only reports justified results. */
  lemma SolvedJustified(q: Quadrant, selfIntersect: bool, base: seq<Entry>, r: Intersection)
    requires WellFormed(q) && Sound(q, base) && r in QuadrantHits(q, selfIntersect)
    ensures Justified(base, r, selfIntersect)
  {
    var m := q.curveToSegments;
    QuadrantHitsExactly(q, selfIntersect, r);
    var i, j, s1, s2 :| 0 <= i < |m| && 0 <= j < |m| && (selfIntersect || i < j)
      && s1 in m[i].segments && s2 in m[j].segments && Hit(r, m[i].curve, s1, m[j].curve, s2, selfIntersect);
    assert s1 in Get(base, r.c1) && s2 in Get(base, r.c2);
  }

  /** Every result of a run from sound, well-formed quadrants is justified by the starting map. */
  lemma ExploreSound(queue: seq<Quadrant>, selfIntersect: bool, fuel: nat, base: seq<Entry>, r: Intersection)
    requires AllWellFormed(queue) && AllSound(queue, base)
    requires r in Results(Explore(queue, Stepper(selfIntersect), fuel).visits, Solver(selfIntersect))
    ensures Justified(base, r, selfIntersect)
  {
    var inv := q => WellFormed(q) && Sound(q, base);
    var ok := x => Justified(base, x, selfIntersect);
    forall q, p | inv(q) && p in PushedBy(Stepper(selfIntersect)(q)) ensures inv(p) {
      StepKeeps(q, selfIntersect, base);
      var pushed := PushedBy(Step(q, selfIntersect));
      var i :| 0 <= i < |pushed| && pushed[i] == p;
    }
    forall q, x | inv(q) && Stepper(selfIntersect)(q).Solved? && x in Solver(selfIntersect)(q) ensures ok(x) {
      SolvedJustified(q, selfIntersect, base, x);
    }
    forall q | q in queue ensures inv(q) {
      var i :| 0 <= i < |queue| && queue[i] == q;
    }
    StepperKeepsHead(selfIntersect);
    ExploreKeeps(queue, Stepper(selfIntersect), Solver(selfIntersect), fuel, inv, ok, r);
  }

  // ---------------------------------------------------------------------------------------------
  // The loop as the source runs it
  // ---------------------------------------------------------------------------------------------

  /** The state of the loop of lines 79-86: the quadrants inspected so far and the queue. */
  datatype Loop = Loop(visits: seq<Visit>, queue: seq<Quadrant>)

  /** The loop state after n iterations from `quads`; once the queue is empty it stays so. */
  function Replay(quads: seq<Quadrant>, step: Quadrant -> Visit, n: nat): Loop {
    if n == 0 then Loop([], quads)
    else
      var s := Replay(quads, step, n - 1);
      if |s.queue| == 0 then s
      else
        var v := step(s.queue[0]);
        Loop(s.visits + [v], s.queue[1..] + PushedBy(v))
  }

  /** A run with `fuel` iterations is the first n of them followed by a run of the rest from there. */
  lemma {:induction false} ReplayExplore(quads: seq<Quadrant>, step: Quadrant -> Visit, fuel: nat, n: nat)
    requires n <= fuel
    ensures var s := Replay(quads, step, n);
      var rest := Explore(s.queue, step, fuel - n);
      Explore(quads, step, fuel) == Run(s.visits + rest.visits, rest.pending)
  {
    if n == 0 {
      assert [] + Explore(quads, step, fuel).visits == Explore(quads, step, fuel).visits;
    } else {
      ReplayExplore(quads, step, fuel, n - 1);
      var s := Replay(quads, step, n - 1);
      if |s.queue| > 0 {
        var v := step(s.queue[0]);
        var rest := Explore(s.queue[1..] + PushedBy(v), step, fuel - n);
        assert s.visits + ([v] + rest.visits) == (s.visits + [v]) + rest.visits;
      }
    }
  }

  /**
   * Lines 79-86: take the first quadrant off the queue, solve it naively when its counter is small,
   * otherwise split it and push the children that hold enough curves. Besides the results it returns
   * the number of quadrants inspected (playground.ts:195-197) and what is left in the queue, which is
   * empty unless the fuel ran out.
   */
  method DivideTillSolved(quads: seq<Quadrant>, selfIntersect: bool, fuel: nat)
    returns (res: seq<Intersection>, count: nat, unfinished: seq<Quadrant>)
    requires AllWellFormed(quads)
    ensures var run := Explore(quads, Stepper(selfIntersect), fuel);
      res == Results(run.visits, Solver(selfIntersect)) && count == |run.visits| && unfinished == run.pending
  {
    res := [];
    count := 0;
    var queue := quads;
    ghost var visits: seq<Visit> := [];
    while count < fuel && |queue| > 0
      invariant count == |visits| <= fuel
      invariant Replay(quads, Stepper(selfIntersect), count) == Loop(visits, queue)
      invariant AllWellFormed(queue)
      invariant res == Results(visits, Solver(selfIntersect))
      decreases fuel - count
    {
      res, queue, visits := Advance(quads, selfIntersect, count, visits, queue, res);
      count := count + 1;
    }
    ReplayExplore(quads, Stepper(selfIntersect), fuel, count);
    assert visits + [] == visits;
    unfinished := queue;
  }

  /** The body of the loop of lines 81-84: the head quadrant is solved or divided. */
  method Advance(quads: seq<Quadrant>, selfIntersect: bool, ghost n: nat, ghost visits: seq<Visit>, queue: seq<Quadrant>, res: seq<Intersection>)
    returns (res': seq<Intersection>, queue': seq<Quadrant>, ghost visits': seq<Visit>)
    requires |queue| > 0 && AllWellFormed(queue)
    requires res == Results(visits, Solver(selfIntersect))
    requires Replay(quads, Stepper(selfIntersect), n) == Loop(visits, queue)
    ensures |visits'| == |visits| + 1 && AllWellFormed(queue')
    ensures Replay(quads, Stepper(selfIntersect), n + 1) == Loop(visits', queue')
    ensures res' == Results(visits', Solver(selfIntersect))
  {
    var quad := queue[0];
    ghost var v := Step(quad, selfIntersect);
    Iterate(quads, selfIntersect, n, visits, queue, res);
    queue' := queue[1..];
    if quad.numEndInSections <= NumSectionsToSolveNaively {
      var quadRes := QuadrantIntersections(quad, selfIntersect);
      res' := res + quadRes;
    } else {
      var kids := DivideQuadrant(quad);
      var quadDivide := KeepChildren(kids, selfIntersect);
      queue' := queue' + quadDivide;
      res' := res;
    }
    visits' := visits + [v];
  }

  /** One iteration of the loop of lines 81-84, as the loop of `DivideTillSolved` performs it. */
  lemma Iterate(quads: seq<Quadrant>, selfIntersect: bool, n: nat, visits: seq<Visit>, queue: seq<Quadrant>, res: seq<Intersection>)
    requires |queue| > 0 && AllWellFormed(queue)
    requires res == Results(visits, Solver(selfIntersect))
    requires Replay(quads, Stepper(selfIntersect), n) == Loop(visits, queue)
    ensures WellFormed(queue[0])
    ensures var v := Step(queue[0], selfIntersect);
      Replay(quads, Stepper(selfIntersect), n + 1) == Loop(visits + [v], queue[1..] + PushedBy(v))
    ensures var v := Step(queue[0], selfIntersect);
      AllWellFormed(queue[1..] + PushedBy(v))
    ensures var v := Step(queue[0], selfIntersect);
      queue[0].numEndInSections <= NumSectionsToSolveNaively ==>
        queue[1..] + PushedBy(v) == queue[1..] && res + QuadrantHits(queue[0], selfIntersect) == Results(visits + [v], Solver(selfIntersect))
    ensures var v := Step(queue[0], selfIntersect);
      queue[0].numEndInSections > NumSectionsToSolveNaively ==>
        queue[1..] + PushedBy(v) == queue[1..] + KeepChildren(Divide(queue[0]), selfIntersect) && res == Results(visits + [v], Solver(selfIntersect))
  {
    var q := queue[0];
    var v := Step(q, selfIntersect);
    assert Stepper(selfIntersect)(q) == v;
    StepWellFormed(q, selfIntersect);
    forall i | 0 <= i < |queue| - 1 ensures WellFormed(queue[1..][i]) {
      assert queue[1..][i] == queue[i + 1];
    }
    AppendWellFormed(queue[1..], PushedBy(v));
    ResultsAppend(visits, [v], Solver(selfIntersect));
    ResultsCons(v, [], Solver(selfIntersect));
    assert Solver(selfIntersect)(q) == QuadrantHits(q, selfIntersect);
    if q.numEndInSections <= NumSectionsToSolveNaively {
      assert queue[1..] + [] == queue[1..];
    }
  }
}
