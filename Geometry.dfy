/**
 * Geometric primitives of the intersection engine (code.ts:19-37, 50-59).
 * Coordinates are exact reals, so every predicate is exact algebra.
 * In the source a rectangle and a segment are the same type (a pair of
 * points); here they are two datatypes and `Diagonal` converts one into the
 * other where the source passes a rectangle as a segment.
 */
module Geometry {
  import opened Wrappers

  datatype Point = Point(x: real, y: real)

  /** A straight segment from `a` to `b`, by value (no identity). */
  datatype Segment = Segment(a: Point, b: Point)

  /** An axis-aligned rectangle given by its min corner and its max corner. */
  datatype Rect = Rect(lo: Point, hi: Point)

  predicate WellFormedRect(r: Rect) {
    r.lo.x <= r.hi.x && r.lo.y <= r.hi.y
  }

  // ---------------------------------------------------------------------
  // Orientation and crossing

  /** p1 -> p2 -> p3 turns strictly counter-clockwise. */
  predicate ThreePointsCCW(p1: Point, p2: Point, p3: Point) {
    (p3.y - p1.y) * (p2.x - p1.x) > (p2.y - p1.y) * (p3.x - p1.x)
  }

  /**
   * The source's crossing test: for each segment, its two endpoints get different orientations
   * against the other. A collinear endpoint counts as not counter-clockwise, so a touching
   * endpoint may pass (see TJunctionPasses).
   */
  predicate TwoSegmentsIntersect(s1: Segment, s2: Segment) {
    ThreePointsCCW(s1.a, s2.a, s2.b) != ThreePointsCCW(s1.b, s2.a, s2.b) &&
    ThreePointsCCW(s1.a, s1.b, s2.a) != ThreePointsCCW(s1.a, s1.b, s2.b)
  }

  /** The point `a + t * (b - a)` on the line through a and b. */
  function Along(a: Point, b: Point, t: real): Point {
    Point(a.x + t * (b.x - a.x), a.y + t * (b.y - a.y))
  }

  lemma CcwCyclic(a: Point, b: Point, c: Point)
    ensures ThreePointsCCW(a, b, c) == ThreePointsCCW(b, c, a) == ThreePointsCCW(c, a, b)
  {
    assert (c.y - a.y) * (b.x - a.x) - (b.y - a.y) * (c.x - a.x)
        == (a.y - b.y) * (c.x - b.x) - (c.y - b.y) * (a.x - b.x)
        == (b.y - c.y) * (a.x - c.x) - (a.y - c.y) * (b.x - c.x);
  }

  /** The test is strict: swapping the last two points never keeps a turn. */
  lemma CcwAsymmetric(a: Point, b: Point, c: Point)
    ensures !(ThreePointsCCW(a, b, c) && ThreePointsCCW(a, c, b))
  {
  }

  /** A point on the line through a and b (or a repeated point) is never a turn, in any order. */
  lemma CcwCollinearFalse(a: Point, b: Point, t: real)
    ensures var c := Along(a, b, t);
      !ThreePointsCCW(a, b, c) && !ThreePointsCCW(a, c, b) && !ThreePointsCCW(b, a, c) &&
      !ThreePointsCCW(b, c, a) && !ThreePointsCCW(c, a, b) && !ThreePointsCCW(c, b, a)
  {
    var c := Along(a, b, t);
    assert (c.y - a.y) * (b.x - a.x) == t * (b.y - a.y) * (b.x - a.x);
    assert (b.y - a.y) * (c.x - a.x) == t * (b.y - a.y) * (b.x - a.x);
    CcwCyclic(a, b, c);
    CcwCyclic(a, c, b);
  }

  /** The crossing test does not depend on which segment comes first. */
  lemma IntersectSymmetric(s1: Segment, s2: Segment)
    ensures TwoSegmentsIntersect(s1, s2) == TwoSegmentsIntersect(s2, s1)
  {
    CcwCyclic(s1.a, s2.a, s2.b);
    CcwCyclic(s1.b, s2.a, s2.b);
    CcwCyclic(s1.a, s1.b, s2.a);
    CcwCyclic(s1.a, s1.b, s2.b);
  }

  /** A segment of zero length crosses nothing. */
  lemma IntersectNeedsLength(s1: Segment, s2: Segment)
    requires s1.a == s1.b || s2.a == s2.b
    ensures !TwoSegmentsIntersect(s1, s2)
  {
  }

  // ---------------------------------------------------------------------
  // Rectangles

  /** Inclusive on all four edges. */
  predicate PointInRect(p: Point, r: Rect) {
    p.x >= r.lo.x && p.x <= r.hi.x && p.y >= r.lo.y && p.y <= r.hi.y
  }

  predicate SegmentEndInRect(s: Segment, r: Rect) {
    PointInRect(s.a, r) || PointInRect(s.b, r)
  }

  /** Swaps the y coordinates of the two endpoints: a rectangle's diagonal becomes its anti-diagonal. */
  function FlippedSegment(s: Segment): Segment {
    Segment(Point(s.a.x, s.b.y), Point(s.b.x, s.a.y))
  }

  /** The rectangle read as a segment, as the source does: its min-to-max diagonal. */
  function Diagonal(r: Rect): Segment {
    Segment(r.lo, r.hi)
  }

  /** The diagonal-crossing heuristic for "segment passes through rectangle". */
  predicate SegmentCrossRect(s: Segment, r: Rect) {
    TwoSegmentsIntersect(s, Diagonal(r)) || TwoSegmentsIntersect(s, FlippedSegment(Diagonal(r)))
  }

  /** A T-junction passes the crossing test: the end of one segment touches the middle of the other. */
  lemma TJunctionPasses()
    ensures TwoSegmentsIntersect(Segment(Point(0.0, 0.0), Point(10.0, 0.0)), Segment(Point(5.0, 0.0), Point(5.0, 10.0)))
  {
  }

  /**
   * A segment that meets the quarter [0,5] x [5,10] only at its corner (5,5) is kept there when
   * it runs from (0,0) to (10,10), and not kept when it runs the other way.
   */
  lemma CornerTouchDependsOnDirection()
    ensures var s, r := Segment(Point(0.0, 0.0), Point(10.0, 10.0)), Rect(Point(0.0, 5.0), Point(5.0, 10.0));
      !SegmentEndInRect(s, r) && SegmentCrossRect(s, r) && !SegmentCrossRect(Segment(s.b, s.a), r)
  {
  }

  lemma FlippedInvolution(s: Segment)
    ensures FlippedSegment(FlippedSegment(s)) == s
  {
  }

  /** The anti-diagonal goes from the top-left corner to the bottom-right corner. */
  lemma AntiDiagonalCorners(r: Rect)
    ensures FlippedSegment(Diagonal(r)) == Segment(Point(r.lo.x, r.hi.y), Point(r.hi.x, r.lo.y))
  {
  }

  /** The four quarters of r, split at the midpoint of each axis, in the source's order. */
  function DivideRect(r: Rect): (kids: seq<Rect>)
    ensures |kids| == 4
    ensures WellFormedRect(r) ==> forall k :: 0 <= k < 4 ==> WellFormedRect(kids[k]) && RectInRect(kids[k], r)
  {
    var midX := (r.lo.x + r.hi.x) / 2.0;
    var midY := (r.lo.y + r.hi.y) / 2.0;
    [Rect(Point(r.lo.x, r.lo.y), Point(midX, midY)),
     Rect(Point(midX, r.lo.y), Point(r.hi.x, midY)),
     Rect(Point(r.lo.x, midY), Point(midX, r.hi.y)),
     Rect(Point(midX, midY), Point(r.hi.x, r.hi.y))]
  }

  predicate RectInRect(inner: Rect, outer: Rect) {
    outer.lo.x <= inner.lo.x && inner.hi.x <= outer.hi.x &&
    outer.lo.y <= inner.lo.y && inner.hi.y <= outer.hi.y
  }

  /** The quarters cover the parent exactly: a point is in r iff it is in one of its quarters. */
  lemma DivideRectCovers(r: Rect, p: Point)
    requires WellFormedRect(r)
    ensures PointInRect(p, r) <==> exists k :: 0 <= k < 4 && PointInRect(p, DivideRect(r)[k])
  {
    var kids := DivideRect(r);
    var midX := (r.lo.x + r.hi.x) / 2.0;
    var midY := (r.lo.y + r.hi.y) / 2.0;
    if PointInRect(p, r) {
      var k := (if p.x <= midX then 0 else 1) + (if p.y <= midY then 0 else 2);
      assert PointInRect(p, kids[k]);
    }
  }

  /** Two different quarters share only points on the midlines. */
  lemma DivideRectMeetsOnMidlines(r: Rect, p: Point, i: nat, j: nat)
    requires i < j < 4
    requires PointInRect(p, DivideRect(r)[i]) && PointInRect(p, DivideRect(r)[j])
    ensures p.x == (r.lo.x + r.hi.x) / 2.0 || p.y == (r.lo.y + r.hi.y) / 2.0
  {
  }


  // ---------------------------------------------------------------------
  // Line intersection

  function DeltaX(s: Segment): real { s.a.x - s.b.x }
  function DeltaY(s: Segment): real { s.a.y - s.b.y }

  predicate Vertical(s: Segment) { DeltaX(s) == 0.0 }
  predicate Horizontal(s: Segment) { DeltaY(s) == 0.0 }
  predicate ZeroLength(s: Segment) { Vertical(s) && Horizontal(s) }
  predicate Oblique(s: Segment) { !Vertical(s) && !Horizontal(s) }

  /** The two infinite lines (a zero-length segment has every direction) do not meet in one point. */
  predicate Parallel(s1: Segment, s2: Segment) {
    DeltaY(s1) * DeltaX(s2) == DeltaX(s1) * DeltaY(s2)
  }

  /** p lies on the infinite line through s. */
  predicate OnLine(p: Point, s: Segment) {
    (p.y - s.b.y) * DeltaX(s) == (p.x - s.b.x) * DeltaY(s)
  }

  function Slope(s: Segment): real
    requires !Vertical(s)
  {
    DeltaY(s) / DeltaX(s)
  }

  /**
   * What the source's twoLinesIntersection evaluates to: `undefined`, a
   * finite point, or a point with an infinite or NaN coordinate (a division
   * by zero that the guard lets through).
   */
  datatype Solution = Undefined | Found(p: Point) | NonFinite

  /** The source's guard (code.ts:52), in geometric words. */
  predicate Degenerate(s1: Segment, s2: Segment) {
    (Vertical(s1) && (ZeroLength(s1) || Vertical(s2))) ||
    (Horizontal(s2) && (ZeroLength(s2) || Horizontal(s1)))
  }

  /** The slope-form solution of the general branch (code.ts:57-58). */
  function GeneralPoint(s1: Segment, s2: Segment): Point
    requires Oblique(s1) && Oblique(s2) && Slope(s1) != Slope(s2)
  {
    var yx1, yx2 := Slope(s1), Slope(s2);
    SlopeInverseDistinct(yx1, yx2);
    var xy1, xy2 := 1.0 / yx1, 1.0 / yx2;
    Point(Quotient(yx1 * s1.b.x - yx2 * s2.b.x - s1.b.y + s2.b.y, yx1 - yx2),
          Quotient(xy1 * s1.b.y - xy2 * s2.b.y - s1.b.x + s2.b.x, xy1 - xy2))
  }

  /** Real division, named so that the slope form's two quotients stay whole in proofs. */
  function Quotient(n: real, d: real): real
    requires d != 0.0
  {
    n / d
  }

  /** twoLinesIntersection as written (code.ts:50-59). */
  function TwoLinesIntersection(s1: Segment, s2: Segment): (r: Solution)
    ensures r.Undefined? <==> Degenerate(s1, s2)
    ensures r.NonFinite? <==>
      !Degenerate(s1, s2) &&
      ((Vertical(s1) && Horizontal(s2)) || (Horizontal(s1) && Vertical(s2)) ||
       (Oblique(s1) && Oblique(s2) && Parallel(s1, s2)))
  {
    var aX, aY, bX, bY := s1.a.x, s1.a.y, s1.b.x, s1.b.y;
    var cX, cY, dX, dY := s2.a.x, s2.a.y, s2.b.x, s2.b.y;
    var deltaX1, deltaY1, deltaX2, deltaY2 := aX - bX, aY - bY, cX - dX, cY - dY;
    if (deltaX1 == 0.0 && (deltaY1 == 0.0 || deltaX2 == 0.0)) || (deltaY2 == 0.0 && (deltaX2 == 0.0 || deltaY1 == 0.0)) then
      Undefined
    else if deltaX1 == 0.0 then
      if deltaY2 == 0.0 then NonFinite else Found(Point((aY - dY) * deltaX2 / deltaY2 + dX, aY))
    else if deltaY1 == 0.0 then
      if deltaX2 == 0.0 then NonFinite else Found(Point(aX, (aX - dX) * deltaY2 / deltaX2 + dY))
    else if deltaX2 == 0.0 then
      Found(Point((cY - bY) * deltaX1 / deltaY1 + bX, cY))
    else if deltaY2 == 0.0 then
      Found(Point(cX, (cX - bX) * deltaY1 / deltaX1 + bY))
    else
      ParallelIffSameSlope(s1, s2);
      if Slope(s1) == Slope(s2) then NonFinite else Found(GeneralPoint(s1, s2))
  }

  lemma SlopeInverseDistinct(k1: real, k2: real)
    requires k1 != 0.0 && k2 != 0.0 && k1 != k2
    ensures 1.0 / k1 != 1.0 / k2
  {
  }

  lemma ParallelIffSameSlope(s1: Segment, s2: Segment)
    requires Oblique(s1) && Oblique(s2)
    ensures Parallel(s1, s2) <==> Slope(s1) == Slope(s2)
    ensures Slope(s1) != 0.0 && Slope(s2) != 0.0
  {
    DivMul(DeltaY(s1), DeltaX(s1));
    DivMul(DeltaY(s2), DeltaX(s2));
    if Slope(s1) == Slope(s2) {
      assert DeltaY(s1) * DeltaX(s2) == Slope(s1) * DeltaX(s1) * DeltaX(s2) == DeltaX(s1) * DeltaY(s2);
    }
    if Parallel(s1, s2) {
      assert Slope(s1) * (DeltaX(s1) * DeltaX(s2)) == Slope(s2) * (DeltaX(s1) * DeltaX(s2));
      MulCancel(Slope(s1), Slope(s2), DeltaX(s1) * DeltaX(s2));
    }
  }

  // The four axis branches of the function as written (code.ts:53-56): each
  // returns the point of the OTHER segment's line at the first endpoint's
  // fixed coordinate.

  lemma AxisBranchVerticalFirst(s1: Segment, s2: Segment)
    requires Vertical(s1) && !Degenerate(s1, s2) && !Horizontal(s2)
    ensures TwoLinesIntersection(s1, s2).Found?
    ensures var p := TwoLinesIntersection(s1, s2).p; p.y == s1.a.y && OnLine(p, s2)
  {
  }

  lemma AxisBranchHorizontalFirst(s1: Segment, s2: Segment)
    requires !Vertical(s1) && Horizontal(s1) && !Degenerate(s1, s2) && !Vertical(s2)
    ensures TwoLinesIntersection(s1, s2).Found?
    ensures var p := TwoLinesIntersection(s1, s2).p; p.x == s1.a.x && OnLine(p, s2)
  {
  }

  /** Line 55 never divides by zero: s1 is neither vertical nor horizontal there. */
  lemma AxisBranchVerticalSecond(s1: Segment, s2: Segment)
    requires Oblique(s1) && Vertical(s2) && !Degenerate(s1, s2)
    ensures TwoLinesIntersection(s1, s2).Found?
    ensures var p := TwoLinesIntersection(s1, s2).p; p.y == s2.a.y && OnLine(p, s1)
  {
  }

  /** Line 56 never divides by zero either. */
  lemma AxisBranchHorizontalSecond(s1: Segment, s2: Segment)
    requires Oblique(s1) && !Vertical(s2) && Horizontal(s2) && !Degenerate(s1, s2)
    ensures TwoLinesIntersection(s1, s2).Found?
    ensures var p := TwoLinesIntersection(s1, s2).p; p.x == s2.a.x && OnLine(p, s1)
  {
  }

  /** When all four deltas are non-zero and the slopes differ, the result lies on both lines. */
  lemma GeneralBranchOnBothLines(s1: Segment, s2: Segment)
    requires Oblique(s1) && Oblique(s2) && !Parallel(s1, s2)
    ensures TwoLinesIntersection(s1, s2).Found?
    ensures var p := TwoLinesIntersection(s1, s2).p; OnLine(p, s1) && OnLine(p, s2)
  {
    ParallelIffSameSlope(s1, s2);
    assert TwoLinesIntersection(s1, s2) == Found(GeneralPoint(s1, s2));
    GeneralPointOnBothLines(s1, s2);
  }

  lemma GeneralPointOnBothLines(s1: Segment, s2: Segment)
    requires Oblique(s1) && Oblique(s2) && Slope(s1) != Slope(s2)
    ensures OnLine(GeneralPoint(s1, s2), s1) && OnLine(GeneralPoint(s1, s2), s2)
  {
    var p, k1, k2 := GeneralPoint(s1, s2), Slope(s1), Slope(s2);
    var i1, i2 := 1.0 / k1, 1.0 / k2;
    GeneralPointEquations(s1, s2);
    SolveOnLines(k1, k2, i1, i2, s1, s2, p);
  }

  /** The general point's coordinates, with the divisions multiplied out. */
  lemma GeneralPointEquations(s1: Segment, s2: Segment)
    requires Oblique(s1) && Oblique(s2) && Slope(s1) != Slope(s2)
    ensures var k1, k2, i1, i2 := Slope(s1), Slope(s2), 1.0 / Slope(s1), 1.0 / Slope(s2);
      var p := GeneralPoint(s1, s2);
      i1 * k1 == 1.0 && i2 * k2 == 1.0 &&
      DeltaY(s1) == k1 * DeltaX(s1) && DeltaY(s2) == k2 * DeltaX(s2) &&
      p.x * (k1 - k2) == k1 * s1.b.x - k2 * s2.b.x - s1.b.y + s2.b.y &&
      p.y * (i1 - i2) == i1 * s1.b.y - i2 * s2.b.y - s1.b.x + s2.b.x
  {
    var k1, k2 := Slope(s1), Slope(s2);
    var i1, i2 := 1.0 / k1, 1.0 / k2;
    SlopeFacts(s1);
    SlopeFacts(s2);
    SlopeInverseDistinct(k1, k2);
    GeneralPointForm(s1, s2);
    QuotientTimes(k1 * s1.b.x - k2 * s2.b.x - s1.b.y + s2.b.y, k1 - k2);
    QuotientTimes(i1 * s1.b.y - i2 * s2.b.y - s1.b.x + s2.b.x, i1 - i2);
  }

  /** The general point's two quotients. */
  lemma GeneralPointForm(s1: Segment, s2: Segment)
    requires Oblique(s1) && Oblique(s2) && Slope(s1) != Slope(s2) && 1.0 / Slope(s1) != 1.0 / Slope(s2)
    ensures var k1, k2, i1, i2 := Slope(s1), Slope(s2), 1.0 / Slope(s1), 1.0 / Slope(s2);
      var p := GeneralPoint(s1, s2);
      p.x == Quotient(k1 * s1.b.x - k2 * s2.b.x - s1.b.y + s2.b.y, k1 - k2) &&
      p.y == Quotient(i1 * s1.b.y - i2 * s2.b.y - s1.b.x + s2.b.x, i1 - i2)
  {
  }

  lemma QuotientTimes(n: real, d: real)
    requires d != 0.0
    ensures Quotient(n, d) * d == n
  {
  }

  /** The slope of an oblique segment is non-zero, has an inverse, and scales its x delta to its y delta. */
  lemma SlopeFacts(s: Segment)
    requires Oblique(s)
    ensures Slope(s) != 0.0 && 1.0 / Slope(s) * Slope(s) == 1.0 && DeltaY(s) == Slope(s) * DeltaX(s)
  {
    DivMul(DeltaY(s), DeltaX(s));
    DivMul(1.0, Slope(s));
  }

  lemma SolveOnLines(k1: real, k2: real, i1: real, i2: real, s1: Segment, s2: Segment, p: Point)
    requires k1 != k2 && i1 * k1 == 1.0 && i2 * k2 == 1.0
    requires DeltaY(s1) == k1 * DeltaX(s1) && DeltaY(s2) == k2 * DeltaX(s2)
    requires p.x * (k1 - k2) == k1 * s1.b.x - k2 * s2.b.x - s1.b.y + s2.b.y
    requires p.y * (i1 - i2) == i1 * s1.b.y - i2 * s2.b.y - s1.b.x + s2.b.x
    ensures OnLine(p, s1) && OnLine(p, s2)
  {
    SlopeSolutionPoly(k1, k2, i1, i2, s1.b.x, s1.b.y, s2.b.x, s2.b.y, p.x, p.y);
    SlopeLine(p, s1, k1);
    SlopeLine(p, s2, k2);
  }

  lemma DivMul(a: real, b: real)
    requires b != 0.0
    ensures a / b * b == a
  {
  }

  lemma MulCancel(a: real, b: real, c: real)
    requires c != 0.0 && a * c == b * c
    ensures a == b
  {
    assert (a - b) * c == 0.0;
  }

  /** A point satisfying the slope-intercept equation through b lies on the line. */
  lemma SlopeLine(p: Point, s: Segment, k: real)
    requires DeltaY(s) == k * DeltaX(s)
    requires p.y - s.b.y == k * (p.x - s.b.x)
    ensures OnLine(p, s)
  {
    assert (p.y - s.b.y) * DeltaX(s) == k * (p.x - s.b.x) * DeltaX(s);
  }

  /** Solving y - by = k1 (x - bx), y - dy = k2 (x - dx) the way the source does, without division. */
  lemma SlopeSolutionPoly(k1: real, k2: real, i1: real, i2: real, bX: real, bY: real, dX: real, dY: real, x: real, y: real)
    requires k1 != k2 && i1 * k1 == 1.0 && i2 * k2 == 1.0
    requires x * (k1 - k2) == k1 * bX - k2 * dX - bY + dY
    requires y * (i1 - i2) == i1 * bY - i2 * dY - bX + dX
    ensures y - bY == k1 * (x - bX) && y - dY == k2 * (x - dX)
  {
    ScaledY(k1, k2, i1, i2, bX, bY, dX, dY, y);
    ScaledX(k1, k2, bX, bY, dX, dY, x);
    MulCancel(y - bY, k1 * (x - bX), k2 - k1);
    SecondLine(k1, k2, bX, bY, dX, dY, x, y);
  }

  lemma ScaledY(k1: real, k2: real, i1: real, i2: real, bX: real, bY: real, dX: real, dY: real, y: real)
    requires i1 * k1 == 1.0 && i2 * k2 == 1.0
    requires y * (i1 - i2) == i1 * bY - i2 * dY - bX + dX
    ensures (y - bY) * (k2 - k1) == k1 * (bY - dY) - k1 * k2 * (bX - dX)
  {
    var m := k1 * k2;
    InverseScale(i1, k1, k2);
    InverseScale(i2, k2, k1);
    assert k2 - k1 == (i1 - i2) * m;
    assert y * (k2 - k1) == (y * (i1 - i2)) * m;
    assert (i1 * bY - i2 * dY - bX + dX) * m == (i1 * m) * bY - (i2 * m) * dY - m * bX + m * dX;
  }

  lemma InverseScale(i: real, k: real, l: real)
    requires i * k == 1.0
    ensures i * (k * l) == l && i * (l * k) == l
  {
    assert i * (k * l) == (i * k) * l;
  }

  lemma ScaledX(k1: real, k2: real, bX: real, bY: real, dX: real, dY: real, x: real)
    requires x * (k1 - k2) == k1 * bX - k2 * dX - bY + dY
    ensures k1 * (x - bX) * (k2 - k1) == k1 * (bY - dY) - k1 * k2 * (bX - dX)
  {
    assert k1 * (x - bX) * (k2 - k1) == -k1 * (x * (k1 - k2) - bX * (k1 - k2));
  }

  lemma SecondLine(k1: real, k2: real, bX: real, bY: real, dX: real, dY: real, x: real, y: real)
    requires x * (k1 - k2) == k1 * bX - k2 * dX - bY + dY
    requires y - bY == k1 * (x - bX)
    ensures y - dY == k2 * (x - dX)
  {
    assert k1 * (x - bX) - k2 * (x - dX) == x * (k1 - k2) - k1 * bX + k2 * dX;
  }

  // ---------------------------------------------------------------------
  // The line intersection with each axis branch paired with the formula
  // that its guard protects (see the finding on code.ts:53-56).

  function TwoLinesIntersectionCorrected(s1: Segment, s2: Segment): (r: Option<Point>)
    ensures r.Some? <==> !Parallel(s1, s2)
  {
    var aX, aY, bX, bY := s1.a.x, s1.a.y, s1.b.x, s1.b.y;
    var cX, cY, dX, dY := s2.a.x, s2.a.y, s2.b.x, s2.b.y;
    var deltaX1, deltaY1, deltaX2, deltaY2 := aX - bX, aY - bY, cX - dX, cY - dY;
    if (deltaX1 == 0.0 && (deltaY1 == 0.0 || deltaX2 == 0.0)) || (deltaY2 == 0.0 && (deltaX2 == 0.0 || deltaY1 == 0.0)) then
      None
    else if deltaX1 == 0.0 then
      Some(Point(aX, (aX - dX) * deltaY2 / deltaX2 + dY))
    else if deltaY1 == 0.0 then
      Some(Point((aY - dY) * deltaX2 / deltaY2 + dX, aY))
    else if deltaX2 == 0.0 then
      Some(Point(cX, (cX - bX) * deltaY1 / deltaX1 + bY))
    else if deltaY2 == 0.0 then
      Some(Point((cY - bY) * deltaX1 / deltaY1 + bX, cY))
    else
      ParallelIffSameSlope(s1, s2);
      if Slope(s1) == Slope(s2) then None else Some(GeneralPoint(s1, s2))
  }

  /** The corrected point lies on both infinite lines, and on an axis it keeps that axis' coordinate. */
  lemma CorrectedOnBothLines(s1: Segment, s2: Segment)
    requires TwoLinesIntersectionCorrected(s1, s2).Some?
    ensures var p := TwoLinesIntersectionCorrected(s1, s2).value;
      OnLine(p, s1) && OnLine(p, s2) &&
      (Vertical(s1) ==> p.x == s1.a.x) && (Horizontal(s1) ==> p.y == s1.a.y) &&
      (Vertical(s2) ==> p.x == s2.a.x) && (Horizontal(s2) ==> p.y == s2.a.y)
  {
    if Vertical(s1) {
      CorrectedVerticalFirst(s1, s2);
    } else if Horizontal(s1) {
      CorrectedHorizontalFirst(s1, s2);
    } else if Vertical(s2) {
      CorrectedVerticalSecond(s1, s2);
    } else if Horizontal(s2) {
      CorrectedHorizontalSecond(s1, s2);
    } else {
      ParallelIffSameSlope(s1, s2);
      assert TwoLinesIntersectionCorrected(s1, s2).value == GeneralPoint(s1, s2);
      GeneralPointOnBothLines(s1, s2);
    }
  }

  lemma CorrectedVerticalFirst(s1: Segment, s2: Segment)
    requires TwoLinesIntersectionCorrected(s1, s2).Some? && Vertical(s1)
    ensures var p := TwoLinesIntersectionCorrected(s1, s2).value;
      OnLine(p, s1) && OnLine(p, s2) && p.x == s1.a.x && (Horizontal(s2) ==> p.y == s2.a.y)
  {
  }

  lemma CorrectedHorizontalFirst(s1: Segment, s2: Segment)
    requires TwoLinesIntersectionCorrected(s1, s2).Some? && !Vertical(s1) && Horizontal(s1)
    ensures var p := TwoLinesIntersectionCorrected(s1, s2).value;
      OnLine(p, s1) && OnLine(p, s2) && p.y == s1.a.y && (Vertical(s2) ==> p.x == s2.a.x)
  {
  }

  lemma CorrectedVerticalSecond(s1: Segment, s2: Segment)
    requires TwoLinesIntersectionCorrected(s1, s2).Some? && Oblique(s1) && Vertical(s2)
    ensures var p := TwoLinesIntersectionCorrected(s1, s2).value; OnLine(p, s1) && OnLine(p, s2) && p.x == s2.a.x
  {
  }

  lemma CorrectedHorizontalSecond(s1: Segment, s2: Segment)
    requires TwoLinesIntersectionCorrected(s1, s2).Some? && Oblique(s1) && !Vertical(s2) && Horizontal(s2)
    ensures var p := TwoLinesIntersectionCorrected(s1, s2).value; OnLine(p, s1) && OnLine(p, s2) && p.y == s2.a.y
  {
  }

  /** Two lines that are not parallel have at most one common point. */
  lemma LinesMeetOnce(s1: Segment, s2: Segment, p: Point, q: Point)
    requires !Parallel(s1, s2)
    requires OnLine(p, s1) && OnLine(p, s2) && OnLine(q, s1) && OnLine(q, s2)
    ensures p == q
  {
    var u, v := p.x - q.x, p.y - q.y;
    assert v * DeltaX(s1) == u * DeltaY(s1);
    assert v * DeltaX(s2) == u * DeltaY(s2);
    assert u * (DeltaY(s1) * DeltaX(s2) - DeltaX(s1) * DeltaY(s2)) == 0.0;
    assert v * (DeltaY(s1) * DeltaX(s2) - DeltaX(s1) * DeltaY(s2)) == 0.0;
  }

  /** Segments that cross are never parallel. */
  lemma CrossingNotParallel(s1: Segment, s2: Segment)
    requires TwoSegmentsIntersect(s1, s2)
    ensures !Parallel(s1, s2)
  {
    var c, d := s2.a, s2.b;
    var lhsA, rhsA := (d.y - s1.a.y) * (c.x - s1.a.x), (c.y - s1.a.y) * (d.x - s1.a.x);
    var lhsB, rhsB := (d.y - s1.b.y) * (c.x - s1.b.x), (c.y - s1.b.y) * (d.x - s1.b.x);
    assert (lhsA - rhsA) - (lhsB - rhsB) == DeltaX(s1) * DeltaY(s2) - DeltaY(s1) * DeltaX(s2);
  }

  /** For crossing segments the corrected function yields the unique common point of the two lines. */
  lemma CrossingHasIntersection(s1: Segment, s2: Segment)
    requires TwoSegmentsIntersect(s1, s2)
    ensures TwoLinesIntersectionCorrected(s1, s2).Some?
    ensures var p := TwoLinesIntersectionCorrected(s1, s2).value;
      OnLine(p, s1) && OnLine(p, s2) &&
      forall q :: OnLine(q, s1) && OnLine(q, s2) ==> q == p
  {
    CrossingNotParallel(s1, s2);
    CorrectedOnBothLines(s1, s2);
    var p := TwoLinesIntersectionCorrected(s1, s2).value;
    forall q | OnLine(q, s1) && OnLine(q, s2) ensures q == p {
      LinesMeetOnce(s1, s2, q, p);
    }
  }

  /** Away from the axis branches the function as written and the corrected one agree: both take the slope form. */
  lemma AsWrittenAgreesOffAxis(s1: Segment, s2: Segment)
    requires Oblique(s1) && Oblique(s2)
    ensures TwoLinesIntersection(s1, s2) ==
      match TwoLinesIntersectionCorrected(s1, s2)
      case Some(p) => Found(p)
      case None => NonFinite
  {
  }

  /** A vertical segment crossing a diagonal one: the source returns a point off the vertical line. */
  lemma AsWrittenMisplacesCrossing()
    ensures var s1 := Segment(Point(5.0, 0.0), Point(5.0, 10.0));
      var s2 := Segment(Point(0.0, 0.0), Point(10.0, 10.0));
      TwoSegmentsIntersect(s1, s2) &&
      TwoLinesIntersection(s1, s2) == Found(Point(0.0, 0.0)) && !OnLine(Point(0.0, 0.0), s1) &&
      TwoLinesIntersectionCorrected(s1, s2) == Some(Point(5.0, 5.0))
  {
  }

  /** A vertical segment crossing a horizontal one: the source divides by zero. */
  lemma AsWrittenPlusCrossingNonFinite()
    ensures var s1 := Segment(Point(5.0, 0.0), Point(5.0, 10.0));
      var s2 := Segment(Point(0.0, 5.0), Point(10.0, 5.0));
      TwoSegmentsIntersect(s1, s2) &&
      TwoLinesIntersection(s1, s2) == NonFinite &&
      TwoLinesIntersectionCorrected(s1, s2) == Some(Point(5.0, 5.0))
  {
  }
}
