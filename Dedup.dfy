/**
 * Removing duplicate results (code.ts:102-112, 117-118): the first-occurrence
 * filter and the two identifiers it is used with.
 */
module Dedup {
  import opened Wrappers
  import opened Geometry
  import opened Curves
  import opened Naive

  // ---------------------------------------------------------------------------------------------
  // distinctArray
  // ---------------------------------------------------------------------------------------------

  /** The ids of the elements of arr. */
  function IdSet<T, K>(arr: seq<T>, distinctId: T -> K): set<K> {
    if |arr| == 0 then {} else IdSet(arr[..|arr| - 1], distinctId) + {distinctId(arr[|arr| - 1])}
  }

  lemma {:induction false} IdSetMembers<T, K>(arr: seq<T>, distinctId: T -> K, k: K)
    ensures k in IdSet(arr, distinctId) <==> exists i :: 0 <= i < |arr| && distinctId(arr[i]) == k
  {
    if |arr| > 0 {
      var init := arr[..|arr| - 1];
      IdSetMembers(init, distinctId, k);
      if k in IdSet(init, distinctId) {
        var i :| 0 <= i < |init| && distinctId(init[i]) == k;
        assert arr[i] == init[i];
      }
      if exists i :: 0 <= i < |arr| && distinctId(arr[i]) == k {
        var i :| 0 <= i < |arr| && distinctId(arr[i]) == k;
        if i < |init| {
          assert arr[i] == init[i];
        }
      }
    }
  }

  /** Element i is the first with its id. */
  predicate IsFirst<T, K(==)>(arr: seq<T>, distinctId: T -> K, i: nat)
    requires i < |arr|
  {
    distinctId(arr[i]) !in IdSet(arr[..i], distinctId)
  }

  /** The filter on lines 104-109: an element passes iff no earlier element had its id. */
  function FirstOccurrences<T, K(==)>(arr: seq<T>, distinctId: T -> K): seq<T> {
    if |arr| == 0 then []
    else
      var init := arr[..|arr| - 1];
      FirstOccurrences(init, distinctId) + (if distinctId(arr[|arr| - 1]) in IdSet(init, distinctId) then [] else [arr[|arr| - 1]])
  }

  /** The positions the filter keeps. */
  function FirstIndices<T, K(==)>(arr: seq<T>, distinctId: T -> K): seq<nat> {
    if |arr| == 0 then []
    else
      var init := arr[..|arr| - 1];
      FirstIndices(init, distinctId) + (if distinctId(arr[|arr| - 1]) in IdSet(init, distinctId) then [] else [|arr| - 1])
  }

  predicate DistinctIdsOf<T, K(==)>(s: seq<T>, distinctId: T -> K) {
    forall i, j :: 0 <= i < j < |s| ==> distinctId(s[i]) != distinctId(s[j])
  }

  /**
   * The output is a subsequence of the input, picked at increasing positions, each the first
   * occurrence of its id; and every first occurrence is picked.
   */
  lemma {:induction false} FirstOccurrencesPositions<T, K>(arr: seq<T>, distinctId: T -> K)
    ensures var out, ix := FirstOccurrences(arr, distinctId), FirstIndices(arr, distinctId);
      && |ix| == |out|
      && (forall k :: 0 <= k < |ix| ==> ix[k] < |arr| && out[k] == arr[ix[k]] && IsFirst(arr, distinctId, ix[k]))
      && (forall k, l :: 0 <= k < l < |ix| ==> ix[k] < ix[l])
      && (forall i :: 0 <= i < |arr| && IsFirst(arr, distinctId, i) ==> i in ix)
  {
    if |arr| > 0 {
      var init := arr[..|arr| - 1];
      var n := |arr| - 1;
      FirstOccurrencesPositions(init, distinctId);
      var out, ix := FirstOccurrences(arr, distinctId), FirstIndices(arr, distinctId);
      var out0, ix0 := FirstOccurrences(init, distinctId), FirstIndices(init, distinctId);
      assert arr[..n] == init;
      forall k | 0 <= k < |ix| ensures ix[k] < |arr| && out[k] == arr[ix[k]] && IsFirst(arr, distinctId, ix[k]) {
        if k < |ix0| {
          assert ix[k] == ix0[k] && out[k] == out0[k];
          assert init[..ix0[k]] == arr[..ix[k]];
        }
      }
      forall i | 0 <= i < |arr| && IsFirst(arr, distinctId, i) ensures i in ix {
        if i < n {
          assert init[..i] == arr[..i];
          assert i in ix0;
        }
      }
    }
  }

  /** The output has pairwise-distinct ids, and the same ids as the input. */
  lemma {:induction false} FirstOccurrencesDistinct<T, K>(arr: seq<T>, distinctId: T -> K)
    ensures DistinctIdsOf(FirstOccurrences(arr, distinctId), distinctId)
    ensures IdSet(FirstOccurrences(arr, distinctId), distinctId) == IdSet(arr, distinctId)
  {
    if |arr| > 0 {
      var init := arr[..|arr| - 1];
      var v := arr[|arr| - 1];
      FirstOccurrencesDistinct(init, distinctId);
      var out0 := FirstOccurrences(init, distinctId);
      var out := FirstOccurrences(arr, distinctId);
      if distinctId(v) !in IdSet(init, distinctId) {
        assert out == out0 + [v];
        assert out[..|out| - 1] == out0;
        forall i | 0 <= i < |out0| ensures distinctId(out0[i]) != distinctId(v) {
          IdSetMembers(out0, distinctId, distinctId(out0[i]));
        }
      } else {
        assert out == out0;
      }
    }
  }

  /** A sequence whose ids are already distinct passes the filter unchanged. */
  lemma {:induction false} FirstOccurrencesOfDistinct<T, K>(s: seq<T>, distinctId: T -> K)
    requires DistinctIdsOf(s, distinctId)
    ensures FirstOccurrences(s, distinctId) == s
  {
    if |s| > 0 {
      var init := s[..|s| - 1];
      FirstOccurrencesOfDistinct(init, distinctId);
      IdSetMembers(init, distinctId, distinctId(s[|s| - 1]));
      assert init + [s[|s| - 1]] == s;
    }
  }

  /** Filtering twice is filtering once. */
  lemma FirstOccurrencesIdempotent<T, K>(arr: seq<T>, distinctId: T -> K)
    ensures FirstOccurrences(FirstOccurrences(arr, distinctId), distinctId) == FirstOccurrences(arr, distinctId)
  {
    FirstOccurrencesDistinct(arr, distinctId);
    FirstOccurrencesOfDistinct(FirstOccurrences(arr, distinctId), distinctId);
  }

  /** Every element of the output is an element of the input. */
  lemma FirstOccurrencesSubset<T, K>(arr: seq<T>, distinctId: T -> K, v: T)
    requires v in FirstOccurrences(arr, distinctId)
    ensures v in arr
  {
    FirstOccurrencesPositions(arr, distinctId);
    var k :| 0 <= k < |FirstOccurrences(arr, distinctId)| && FirstOccurrences(arr, distinctId)[k] == v;
  }

  /** Lines 102-110: `filter` with a set of ids seen so far. */
  method DistinctArray<T, K(==)>(arr: seq<T>, distinctId: T -> K) returns (out: seq<T>)
    ensures out == FirstOccurrences(arr, distinctId)
  {
    var countedVal: set<K> := {};
    out := [];
    for i := 0 to |arr|
      invariant countedVal == IdSet(arr[..i], distinctId)
      invariant out == FirstOccurrences(arr[..i], distinctId)
    {
      var v := arr[i];
      var id := distinctId(v);
      assert arr[..i + 1][..i] == arr[..i];
      if id !in countedVal {
        countedVal := countedVal + {id};
        out := out + [v];
      }
    }
    assert arr[..|arr|] == arr;
  }

  // ---------------------------------------------------------------------------------------------
  // pointIdentifier: `toFixed(4)` of each coordinate
  // ---------------------------------------------------------------------------------------------

  const DecimalsToKeepForPointId: nat := 4

  function Pow10(n: nat): (r: nat)
    ensures r >= 1
  {
    if n == 0 then 1 else 10 * Pow10(n - 1)
  }

  /** 10^4 as a real: the grid of a point key is 1 / Scale wide. */
  const Scale: real := Pow10(DecimalsToKeepForPointId) as real

  lemma ScaleValue()
    ensures Scale == 10000.0
  {
    assert Pow10(4) == 10000 by {
      assert Pow10(2) == 100;
    }
  }

  /**
   * The text `toFixed(4)` produces, as the sign it prints and the digits it prints read as one
   * integer: "-" exactly when the value is negative, then the nearest multiple of 10^-4, the larger
   * one on a tie. A negative value that rounds to zero prints "-0.0000".
   */
  datatype Fixed = Fixed(negative: bool, units: nat)

  function RoundHalfUp(v: real): (n: nat)
    requires v >= 0.0
    ensures n as real <= v + 0.5 < n as real + 1.0
  {
    (v + 0.5).Floor
  }

  function ToFixed(v: real): Fixed {
    if v < 0.0 then Fixed(true, RoundHalfUp(-v * Scale)) else Fixed(false, RoundHalfUp(v * Scale))
  }

  /** Two strings joined by "," are equal iff both parts are, so the key is the pair. */
  datatype PointKey = PointKey(x: Fixed, y: Fixed)

  function PointIdentifier(p: Point): PointKey {
    PointKey(ToFixed(p.x), ToFixed(p.y))
  }

  lemma CloseScaled(a: real, b: real, n: nat)
    requires a >= 0.0 && b >= 0.0
    requires n as real <= a * Scale + 0.5 < n as real + 1.0 && n as real <= b * Scale + 0.5 < n as real + 1.0
    ensures -1.0 / Scale < a - b < 1.0 / Scale
  {
    ScaleValue();
    assert -1.0 < a * Scale - b * Scale < 1.0;
    assert (a - b) * Scale == a * Scale - b * Scale;
  }

  /** Values with the same `toFixed(4)` text differ by less than 10^-4. */
  lemma ToFixedClose(u: real, v: real)
    requires ToFixed(u) == ToFixed(v)
    ensures -1.0 / Scale < u - v < 1.0 / Scale
  {
    if u < 0.0 {
      CloseScaled(-u, -v, ToFixed(u).units);
    } else {
      CloseScaled(u, v, ToFixed(u).units);
    }
  }

  /** Non-negative values in the same cell [(n - 1/2) / 10^4, (n + 1/2) / 10^4) get the same text. */
  lemma ToFixedSameCell(u: real, v: real, n: nat)
    requires 0.0 <= u && 0.0 <= v
    requires n as real - 0.5 <= u * Scale < n as real + 0.5 && n as real - 0.5 <= v * Scale < n as real + 0.5
    ensures ToFixed(u) == ToFixed(v) == Fixed(false, n)
  {
  }

  /** A multiple of 10^-4 prints exactly. */
  lemma ToFixedGrid(n: int)
    ensures ToFixed(n as real / Scale) == Fixed(n < 0, if n < 0 then -n else n)
  {
    ScaleValue();
    var v := n as real / Scale;
    assert v * Scale == n as real;
  }

  /** A tiny negative value and zero print differently ("-0.0000" against "0.0000"). */
  lemma NegativeZeroKey()
    ensures ToFixed(-0.00001) == Fixed(true, 0) && ToFixed(0.0) == Fixed(false, 0)
  {
    ScaleValue();
  }

  /** Points with the same key agree to within 10^-4 in each coordinate. */
  lemma PointIdentifierClose(p: Point, q: Point)
    requires PointIdentifier(p) == PointIdentifier(q)
    ensures -1.0 / Scale < p.x - q.x < 1.0 / Scale && -1.0 / Scale < p.y - q.y < 1.0 / Scale
  {
    ToFixedClose(p.x, q.x);
    ToFixedClose(p.y, q.y);
  }

  // ---------------------------------------------------------------------------------------------
  // resultIdentifierFactory
  // ---------------------------------------------------------------------------------------------

  /**
   * The label map of code.ts:120, which names each curve by its position, read at key c: the
   * label is the position of the last curve with that id; a curve not in the list has none.
   */
  function CurveLabel(curves: seq<Curve>, c: CurveId): Option<nat> {
    if |curves| == 0 then None
    else if curves[|curves| - 1].id == c then Some(|curves| - 1)
    else CurveLabel(curves[..|curves| - 1], c)
  }

  lemma {:induction false} CurveLabelFinds(curves: seq<Curve>, i: nat)
    requires i < |curves| && forall j :: 0 <= j < |curves| && j != i ==> curves[j].id != curves[i].id
    ensures CurveLabel(curves, curves[i].id) == Some(i)
  {
    var n := |curves| - 1;
    if i < n {
      var init := curves[..n];
      forall j | 0 <= j < |init| && j != i ensures init[j].id != init[i].id {
        assert init[j] == curves[j];
      }
      CurveLabelFinds(init, i);
    }
  }

  lemma {:induction false} CurveLabelMissing(curves: seq<Curve>, c: CurveId)
    ensures CurveLabel(curves, c) == None <==> forall j :: 0 <= j < |curves| ==> curves[j].id != c
  {
    if |curves| > 0 {
      var init := curves[..|curves| - 1];
      CurveLabelMissing(init, c);
      if CurveLabel(curves, c) == None {
        forall j | 0 <= j < |curves| ensures curves[j].id != c {
          if j < |init| {
            assert init[j] == curves[j];
          }
        }
      }
    }
  }

  /** `sort()` on two labels: ascending, a missing label (`undefined`) last. */
  function Before(a: Option<nat>, b: Option<nat>): bool {
    match (a, b)
    case (Some(x), Some(y)) => x <= y
    case (Some(_), None) => true
    case (None, _) => b == None
  }

  datatype ResultKey = ResultKey(point: PointKey, first: Option<nat>, second: Option<nat>)

  /** The key of a result (code.ts:117-118): its point key joined by commas to its two curve labels, sorted. */
  function ResultIdentifier(curves: seq<Curve>, r: Intersection): (k: ResultKey)
    ensures Before(k.first, k.second)
  {
    var l1, l2 := CurveLabel(curves, r.c1), CurveLabel(curves, r.c2);
    if Before(l1, l2) then ResultKey(PointIdentifier(r.point), l1, l2)
    else ResultKey(PointIdentifier(r.point), l2, l1)
  }

  /** The key does not depend on which curve is first. */
  lemma ResultIdentifierSymmetric(curves: seq<Curve>, r: Intersection)
    ensures ResultIdentifier(curves, Intersection(r.c2, r.c1, r.point)) == ResultIdentifier(curves, r)
  {
  }

  /** Two results share a key iff their points share a key and they name the same two labels. */
  lemma ResultIdentifierEqual(curves: seq<Curve>, r: Intersection, s: Intersection)
    ensures ResultIdentifier(curves, r) == ResultIdentifier(curves, s) <==>
      && PointIdentifier(r.point) == PointIdentifier(s.point)
      && multiset{CurveLabel(curves, r.c1), CurveLabel(curves, r.c2)} == multiset{CurveLabel(curves, s.c1), CurveLabel(curves, s.c2)}
  {
    SortedLabelsEqual(CurveLabel(curves, r.c1), CurveLabel(curves, r.c2), CurveLabel(curves, s.c1), CurveLabel(curves, s.c2));
  }

  /** Two pairs of labels sort to the same pair iff they hold the same labels. */
  lemma SortedLabelsEqual(a1: Option<nat>, a2: Option<nat>, b1: Option<nat>, b2: Option<nat>)
    ensures (if Before(a1, a2) then (a1, a2) else (a2, a1)) == (if Before(b1, b2) then (b1, b2) else (b2, b1)) <==>
      multiset{a1, a2} == multiset{b1, b2}
  {
    if multiset{a1, a2} == multiset{b1, b2} {
      assert a1 in multiset{b1, b2};
      assert (a1 == b1 && a2 == b2) || (a1 == b2 && a2 == b1) by {
        assert multiset{a2} == multiset{a1, a2} - multiset{a1};
      }
    }
  }
}
