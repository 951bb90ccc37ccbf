/**
 * A worked run of the engine: the two diagonals of a 10 by 10 square, as two curves of one
 * segment each. The starting quadrant has two segment ends in its counter, so it is solved
 * at once, and the one result is the centre of the square.
 */
module Scenario {
  import opened Wrappers
  import opened Geometry
  import opened Curves
  import opened Quadrants
  import opened Naive
  import opened Bounds
  import opened Subdivision

  const Rising := Curve(1, [Vertex(1, Point(0.0, 0.0)), Vertex(2, Point(10.0, 10.0))])
  const Falling := Curve(2, [Vertex(3, Point(0.0, 10.0)), Vertex(4, Point(10.0, 0.0))])

  const RisingEdge := Edge(EdgeId(1, 0), Rising.points[0], Rising.points[1])
  const FallingEdge := Edge(EdgeId(2, 0), Falling.points[0], Falling.points[1])
  const DiagonalMap := [Entry(1, [RisingEdge]), Entry(2, [FallingEdge])]
  const Centre := Intersection(1, 2, Point(5.0, 5.0))

  /** The starting map holds one segment per curve, and the counter the two segment ends. */
  lemma DiagonalsStart()
    ensures InitialMap([Rising, Falling]) == DiagonalMap && EndTotal([Rising, Falling]) == 2
  {
    assert CurveSegments(Rising) == [RisingEdge];
    assert CurveSegments(Falling) == [FallingEdge];
    assert [Rising, Falling][..1] == [Rising];
    assert [Rising][..0] == [];
    assert InitialMap([Rising]) == [Entry(1, [RisingEdge])];
    assert Put([Entry(1, [RisingEdge])], 2, [FallingEdge]) == [Entry(1, [RisingEdge])] + Put([], 2, [FallingEdge]);
    assert EndTotal([Rising]) == 1;
  }

  /** The two segments pass the crossing test and meet at the centre. */
  lemma DiagonalsCross()
    ensures PairHits(1, RisingEdge, 2, FallingEdge, false) == [Centre]
  {
    var e1, e2 := RisingEdge, FallingEdge;
    assert Tested(e1, e2, false) by {
      assert ThreePointsCCW(e1.a.at, e2.a.at, e2.b.at) != ThreePointsCCW(e1.b.at, e2.a.at, e2.b.at);
      assert ThreePointsCCW(e1.a.at, e1.b.at, e2.a.at) != ThreePointsCCW(e1.a.at, e1.b.at, e2.b.at);
    }
    assert TwoLinesIntersectionCorrected(e1.Geo(), e2.Geo()) == Some(Point(5.0, 5.0));
  }

  /** The curves checked by round 0 and by round 1. */
  lemma DiagonalKeys()
    ensures DiagonalMap[..1] == [Entry(1, [RisingEdge])] && DiagonalMap[..2] == DiagonalMap
    ensures Keys(DiagonalMap[..1]) == {1} && Keys(DiagonalMap[..2]) == {1, 2}
  {
    var m, e1, e2 := DiagonalMap, RisingEdge, FallingEdge;
    assert m[..1] == [Entry(1, [e1])] && m[..2] == m;
    KeysSingle(Entry(1, [e1]));
    assert m[..2] == [Entry(1, [e1])] + [Entry(2, [e2])];
    KeysAppend([Entry(1, [e1])], [Entry(2, [e2])]);
    KeysSingle(Entry(2, [e2]));
  }

  /** Round 0 pairs Rising with Falling. */
  lemma DiagonalRoundZero()
    ensures Round(DiagonalMap, 0, false) == [Centre]
  {
    var m, e1, e2 := DiagonalMap, RisingEdge, FallingEdge;
    DiagonalsCross();
    DiagonalKeys();
    assert m[..1][..0] == [];
    assert Candidates(m[..1], {1}, false) == [];
    assert Candidates(m, {1}, false) == Candidates(m[..1], {1}, false) + [m[1]];
    assert [e1][..0] == [] && [e2][..0] == [] && [Entry(2, [e2])][..0] == [];
    assert SegmentHits(1, e1, 2, [e2], false) == [Centre];
    assert CandidateHits(1, e1, [Entry(2, [e2])], false) == [Centre];
    assert CurveHits(1, [e1], [Entry(2, [e2])], false) == [Centre];
  }

  /** Round 1 has no curve left to pair Falling with. */
  lemma DiagonalRoundOne()
    ensures Round(DiagonalMap, 1, false) == []
  {
    var m, e2 := DiagonalMap, FallingEdge;
    DiagonalKeys();
    assert m[..1][..0] == [];
    assert Candidates(m[..1], {1, 2}, false) == [];
    assert Candidates(m, {1, 2}, false) == [];
    assert [e2][..0] == [];
    assert CurveHits(2, [e2], [], false) == CurveHits(2, [], [], false) + CandidateHits(2, e2, [], false);
  }

  /** A quadrant whose counter is at most 2 is solved in the first iteration, which empties the queue. */
  lemma SolvedAtOnce(q: Quadrant, selfIntersect: bool)
    requires q.numEndInSections <= NumSectionsToSolveNaively
    ensures var run := Explore([q], Stepper(selfIntersect), 1);
      run.pending == [] && Results(run.visits, Solver(selfIntersect)) == QuadrantHits(q, selfIntersect)
  {
    assert Stepper(selfIntersect)(q) == Solved(q);
    assert Explore([q], Stepper(selfIntersect), 1) == Run([Solved(q)], []);
    ResultsCons(Solved(q), [], Solver(selfIntersect));
  }

  /** With two entries the results are round 0's followed by round 1's. */
  lemma TwoRounds(m: seq<Entry>, selfIntersect: bool)
    requires |m| == 2
    ensures Flatten(Rounds(m, selfIntersect)) == Round(m, 0, selfIntersect) + Round(m, 1, selfIntersect)
  {
    RoundsAt(m, 0, selfIntersect);
    RoundsAt(m, 1, selfIntersect);
    FlattenTwo(Rounds(m, selfIntersect));
  }

  lemma FlattenTwo(rs: seq<seq<Intersection>>)
    requires |rs| == 2
    ensures Flatten(rs) == rs[0] + rs[1]
  {
    FlattenStep(rs, 0);
    FlattenStep(rs, 1);
    assert rs[..0] == [] && rs[..2] == rs;
  }

  /** The diagonals cross at the centre and are reported once, as (Rising, Falling). */
  lemma DiagonalsMeetAtCentre()
    ensures var run := Explore(InitQuads([Rising, Falling]), Stepper(false), 1);
      run.pending == [] && Results(run.visits, Solver(false)) == [Centre]
  {
    DiagonalsStart();
    DiagonalRoundZero();
    DiagonalRoundOne();
    var q := InitQuads([Rising, Falling])[0];
    assert InitQuads([Rising, Falling]) == [q];
    assert q.curveToSegments == DiagonalMap && q.numEndInSections == 2;
    SolvedAtOnce(q, false);
    TwoRounds(DiagonalMap, false);
  }
}
