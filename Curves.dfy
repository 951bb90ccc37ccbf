/**
 * Curves and the segment objects cut from them (code.ts:60-61, 95-96).
 * The source compares points, segments and curves by reference; here every
 * such object carries an id, and equal ids mean the same object.
 */
module Curves {
  import opened Geometry

  type CurveId = nat

  /** A point object of a curve: `id` is its identity, `at` its coordinates. */
  datatype Vertex = Vertex(id: nat, at: Point)

  /** A curve object: an ordered list of point objects. */
  datatype Curve = Curve(id: CurveId, points: seq<Vertex>)

  /** Identity of a segment object: the curve and position it was cut from. */
  datatype EdgeId = EdgeId(curve: CurveId, index: nat)

  /** A segment object, referring to two point objects of its curve. */
  datatype Edge = Edge(id: EdgeId, a: Vertex, b: Vertex) {
    /** The segment's geometry. */
    function Geo(): Segment {
      Segment(a.at, b.at)
    }
  }

  /** The two segments share an endpoint object (code.ts:60-61). */
  predicate TwoSegmentsConnected(s1: Edge, s2: Edge) {
    s1.a.id == s2.a.id || s1.a.id == s2.b.id || s1.b.id == s2.a.id || s1.b.id == s2.b.id
  }

  /** Every segment is connected to itself, so a self-intersection test never pairs a segment with itself. */
  lemma ConnectedToItself(s: Edge)
    ensures TwoSegmentsConnected(s, s)
  {
  }

  predicate DistinctEdges(segs: seq<Edge>) {
    forall i, j :: 0 <= i < j < |segs| ==> segs[i] != segs[j]
  }

  /**
   * The filter of code.ts:96 over the first n points: a point is kept when the curve has a
   * point after it.
   */
  function Followed(pts: seq<Vertex>, n: nat): seq<Vertex>
    requires n <= |pts|
  {
    if n == 0 then [] else Followed(pts, n - 1) + (if n < |pts| then [pts[n - 1]] else [])
  }

  /** The filter keeps every point but the last, so its indices are the curve's own. */
  lemma {:induction false} FollowedPrefix(pts: seq<Vertex>, n: nat)
    requires n <= |pts|
    ensures |Followed(pts, n)| == if n < |pts| then n else if n == 0 then 0 else n - 1
    ensures forall j :: 0 <= j < |Followed(pts, n)| ==> Followed(pts, n)[j] == pts[j]
  {
    if n > 0 {
      FollowedPrefix(pts, n - 1);
    }
  }

  /**
   * code.ts:95-96: the points that have a successor, each mapped, with its index in the
   * filtered list, to the segment from it to the point at that index plus one. The result
   * has one segment fewer than the points (none for an empty curve), segment i joins points
   * i and i + 1, and each is a new object.
   */
  function CurveSegments(c: Curve): (r: seq<Edge>)
    ensures |r| == if |c.points| == 0 then 0 else |c.points| - 1
    ensures forall i :: 0 <= i < |r| ==> r[i].a == c.points[i] && r[i].b == c.points[i + 1]
    ensures forall i :: 0 <= i < |r| ==> r[i].id == EdgeId(c.id, i)
  {
    var kept := Followed(c.points, |c.points|);
    FollowedPrefix(c.points, |c.points|);
    seq(|kept|, idx requires 0 <= idx < |kept| => Edge(EdgeId(c.id, idx), kept[idx], c.points[idx + 1]))
  }

  /** The segment objects of one curve are pairwise distinct, as the members of a Set are. */
  lemma CurveSegmentsDistinct(c: Curve)
    ensures DistinctEdges(CurveSegments(c))
  {
    var r := CurveSegments(c);
    forall i, j | 0 <= i < j < |r| ensures r[i] != r[j] {
      assert r[i].id.index == i && r[j].id.index == j;
    }
  }

  /** Consecutive segments of a curve share the point object between them. */
  lemma ConsecutiveSegmentsConnected(c: Curve, i: nat)
    requires i + 1 < |CurveSegments(c)|
    ensures TwoSegmentsConnected(CurveSegments(c)[i], CurveSegments(c)[i + 1])
    ensures CurveSegments(c)[i].b == CurveSegments(c)[i + 1].a == c.points[i + 1]
  {
  }
}
