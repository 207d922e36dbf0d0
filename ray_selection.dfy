/** Selection of ray trace results (src/data/rays.ts): by wavelength, by field,
    by surface, and at the last surface. Every selection is `Array.filter`. */
module RaySelection {
  import opened Types

  // ---------------------------------------------------------------------------
  // `Array.prototype.filter` and what it promises.

  /** The elements of `s` that `keep` accepts, in their order in `s`. */
  function Filter<T(!new)>(s: seq<T>, keep: T -> bool): (r: seq<T>)
    ensures |r| <= |s|
    ensures forall x :: x in r <==> x in s && keep(x)
  {
    if |s| == 0 then []
    else
      assert s == [s[0]] + s[1..];
      (if keep(s[0]) then [s[0]] else []) + Filter(s[1..], keep)
  }

  /** `r` is `s` with some elements left out, the rest in their order. */
  predicate IsSubsequence<T(==)>(r: seq<T>, s: seq<T>)
    decreases |s|
  {
    if |r| == 0 then true
    else if |s| == 0 then false
    else (r[0] == s[0] && IsSubsequence(r[1..], s[1..])) || IsSubsequence(r, s[1..])
  }

  /** Filtering keeps the survivors in their original order. */
  lemma {:induction false} FilterIsSubsequence<T(!new)>(s: seq<T>, keep: T -> bool)
    ensures IsSubsequence(Filter(s, keep), s)
  {
    if |s| > 0 {
      FilterIsSubsequence(s[1..], keep);
      var rest := Filter(s[1..], keep);
      if keep(s[0]) {
        assert Filter(s, keep) == [s[0]] + rest;
        assert Filter(s, keep)[1..] == rest;
      } else {
        assert Filter(s, keep) == rest;
        SubsequenceOfLonger(rest, s);
      }
    }
  }

  /** A subsequence of the tail is a subsequence of the whole. */
  lemma SubsequenceOfLonger<T>(r: seq<T>, s: seq<T>)
    requires |s| > 0 && IsSubsequence(r, s[1..])
    ensures IsSubsequence(r, s)
  {
  }

  /** Filtering keeps every accepted element as often as it occurs, and drops
      every other: together with the order, this fixes the result. */
  lemma {:induction false} FilterCounts<T(!new)>(s: seq<T>, keep: T -> bool, x: T)
    ensures multiset(Filter(s, keep))[x] == if keep(x) then multiset(s)[x] else 0
  {
    if |s| > 0 {
      FilterCounts(s[1..], keep, x);
      assert s == [s[0]] + s[1..];
    }
  }

  /** Filtering a concatenation filters each part. */
  lemma {:induction false} FilterConcat<T(!new)>(a: seq<T>, b: seq<T>, keep: T -> bool)
    ensures Filter(a + b, keep) == Filter(a, keep) + Filter(b, keep)
  {
    if |a| > 0 {
      FilterConcat(a[1..], b, keep);
      assert (a + b)[0] == a[0];
      assert (a + b)[1..] == a[1..] + b;
    } else {
      assert a + b == b;
    }
  }

  /** Filtering twice by the same test is filtering once. */
  lemma {:induction false} FilterIdempotent<T(!new)>(s: seq<T>, keep: T -> bool)
    ensures Filter(Filter(s, keep), keep) == Filter(s, keep)
  {
    if |s| > 0 {
      var head := if keep(s[0]) then [s[0]] else [];
      FilterIdempotent(s[1..], keep);
      FilterConcat(head, Filter(s[1..], keep), keep);
      assert Filter(head, keep) == head by {
        if keep(s[0]) {
          assert head[1..] == [];
        }
      }
    }
  }

  /** Two filters may be applied in either order. */
  lemma {:induction false} FilterCommutes<T(!new)>(s: seq<T>, f: T -> bool, g: T -> bool)
    ensures Filter(Filter(s, f), g) == Filter(Filter(s, g), f)
  {
    if |s| > 0 {
      FilterCommutes(s[1..], f, g);
      var hf := if f(s[0]) then [s[0]] else [];
      var hg := if g(s[0]) then [s[0]] else [];
      FilterConcat(hf, Filter(s[1..], f), g);
      FilterConcat(hg, Filter(s[1..], g), f);
      if f(s[0]) {
        assert hf[1..] == [];
      }
      if g(s[0]) {
        assert hg[1..] == [];
      }
    }
  }

  // ---------------------------------------------------------------------------
  // The selections.

  /** `getRayTraceResultByWavelength`: the results for one wavelength. */
  function ByWavelength(results: seq<RayTraceResult>, wavelengthId: int): (r: seq<RayTraceResult>)
    ensures forall x :: x in r <==> x in results && x.wavelengthId == wavelengthId
  {
    Filter(results, (x: RayTraceResult) => x.wavelengthId == wavelengthId)
  }

  /** `getRayTraceResultByField`: the results for one field. */
  function ByField(results: seq<RayTraceResult>, fieldId: int): (r: seq<RayTraceResult>)
    ensures forall x :: x in r <==> x in results && x.fieldId == fieldId
  {
    Filter(results, (x: RayTraceResult) => x.fieldId == fieldId)
  }

  /** `getRayTraceResultBySurface`: the results at one surface; `===` never holds
      between a missing `surfaceId` and a number, so those results are dropped. */
  function BySurface(results: seq<RayTraceResult>, surfaceId: int): (r: seq<RayTraceResult>)
    ensures forall x :: x in r <==> x in results && x.surfaceId.Some? && x.surfaceId.value == surfaceId
  {
    Filter(results, (x: RayTraceResult) => x.surfaceId == Some(surfaceId))
  }

  /** `result.surfaceId || 0`: the surface id, or 0 when there is none. */
  function SurfaceKey(result: RayTraceResult): (k: int)
    ensures result.surfaceId.Some? ==> k == result.surfaceId.value
    ensures result.surfaceId.None? ==> k == 0
  {
    match result.surfaceId
    case Some(id) => id
    case None => 0
  }

  /** `Math.max(...rayTraceResults.map((result) => result.surfaceId || 0))` of a
      non-empty list: the largest key. */
  function LastSurfaceId(results: seq<RayTraceResult>): (m: int)
    requires |results| > 0
    ensures exists k :: 0 <= k < |results| && m == SurfaceKey(results[k])
    ensures forall k :: 0 <= k < |results| ==> SurfaceKey(results[k]) <= m
  {
    if |results| == 1 then SurfaceKey(results[0])
    else
      var rest := LastSurfaceId(results[1..]);
      assert forall k :: 1 <= k < |results| ==> results[k] == results[1..][k - 1];
      if SurfaceKey(results[0]) >= rest then SurfaceKey(results[0]) else rest
  }

  /** `getRayTraceResultsAtLastSurface`: the results at the largest surface id.
      An empty list gives an empty list (in JavaScript the maximum is then
      `-Infinity`, which no result matches). */
  function AtLastSurface(results: seq<RayTraceResult>): (r: seq<RayTraceResult>)
    ensures |results| == 0 ==> r == []
    ensures |results| > 0 ==> r == BySurface(results, LastSurfaceId(results))
  {
    if |results| == 0 then [] else BySurface(results, LastSurfaceId(results))
  }

  // ---------------------------------------------------------------------------
  // Properties of the selections.

  /** Each selection keeps its results in their original order, and selecting
      again changes nothing. */
  lemma SelectionsAreStable(results: seq<RayTraceResult>, wavelengthId: int, fieldId: int, surfaceId: int)
    ensures IsSubsequence(ByWavelength(results, wavelengthId), results)
    ensures IsSubsequence(ByField(results, fieldId), results)
    ensures IsSubsequence(BySurface(results, surfaceId), results)
    ensures ByWavelength(ByWavelength(results, wavelengthId), wavelengthId) == ByWavelength(results, wavelengthId)
    ensures ByField(ByField(results, fieldId), fieldId) == ByField(results, fieldId)
    ensures BySurface(BySurface(results, surfaceId), surfaceId) == BySurface(results, surfaceId)
  {
    FilterIsSubsequence(results, (x: RayTraceResult) => x.wavelengthId == wavelengthId);
    FilterIsSubsequence(results, (x: RayTraceResult) => x.fieldId == fieldId);
    FilterIsSubsequence(results, (x: RayTraceResult) => x.surfaceId == Some(surfaceId));
    FilterIdempotent(results, (x: RayTraceResult) => x.wavelengthId == wavelengthId);
    FilterIdempotent(results, (x: RayTraceResult) => x.fieldId == fieldId);
    FilterIdempotent(results, (x: RayTraceResult) => x.surfaceId == Some(surfaceId));
  }

  /** Each selection keeps every copy of a matching result and no other result. */
  lemma SelectionCounts(results: seq<RayTraceResult>, wavelengthId: int, fieldId: int, surfaceId: int,
                        x: RayTraceResult)
    ensures multiset(ByWavelength(results, wavelengthId))[x] ==
            if x.wavelengthId == wavelengthId then multiset(results)[x] else 0
    ensures multiset(ByField(results, fieldId))[x] ==
            if x.fieldId == fieldId then multiset(results)[x] else 0
    ensures multiset(BySurface(results, surfaceId))[x] ==
            if x.surfaceId == Some(surfaceId) then multiset(results)[x] else 0
  {
    FilterCounts(results, (x: RayTraceResult) => x.wavelengthId == wavelengthId, x);
    FilterCounts(results, (x: RayTraceResult) => x.fieldId == fieldId, x);
    FilterCounts(results, (x: RayTraceResult) => x.surfaceId == Some(surfaceId), x);
  }

  /** Selecting a field and then a wavelength, as the grid does for each cell,
      gives the same results as selecting the wavelength first. */
  lemma FieldThenWavelength(results: seq<RayTraceResult>, fieldId: int, wavelengthId: int)
    ensures ByWavelength(ByField(results, fieldId), wavelengthId) ==
            ByField(ByWavelength(results, wavelengthId), fieldId)
  {
    FilterCommutes(results, (x: RayTraceResult) => x.fieldId == fieldId,
                   (x: RayTraceResult) => x.wavelengthId == wavelengthId);
  }

  /** The results at the last surface are those whose surface id is present and
      no smaller than any result's key. */
  lemma AtLastSurfaceMembers(results: seq<RayTraceResult>, x: RayTraceResult)
    requires |results| > 0
    ensures x in AtLastSurface(results) <==>
            x in results && x.surfaceId.Some? &&
            forall k :: 0 <= k < |results| ==> SurfaceKey(results[k]) <= x.surfaceId.value
  {
    var m := LastSurfaceId(results);
    if x in results && x.surfaceId.Some? &&
       forall k :: 0 <= k < |results| ==> SurfaceKey(results[k]) <= x.surfaceId.value {
      var k :| 0 <= k < |results| && results[k] == x;
      assert SurfaceKey(x) <= m;
    }
  }

  /** When every result names its surface, some result is at the last surface. */
  lemma AtLastSurfaceNonEmpty(results: seq<RayTraceResult>)
    requires |results| > 0
    requires forall k :: 0 <= k < |results| ==> results[k].surfaceId.Some?
    ensures |AtLastSurface(results)| > 0
  {
    var m := LastSurfaceId(results);
    var k :| 0 <= k < |results| && m == SurfaceKey(results[k]);
    assert results[k] in AtLastSurface(results);
  }

  /** A missing surface id counts as 0 for the maximum but matches no id: when
      no result names a surface, nothing is selected. */
  lemma AtLastSurfaceWithoutIds(results: seq<RayTraceResult>)
    requires forall k :: 0 <= k < |results| ==> results[k].surfaceId.None?
    ensures AtLastSurface(results) == []
  {
    var r := AtLastSurface(results);
    assert forall x :: x in results ==> x.surfaceId.None?;
    assert |r| > 0 ==> r[0] in r;
  }

  /** When the maximum is 0, only results that name surface 0 are kept; results
      without a surface id are not. */
  lemma AtLastSurfaceZero(results: seq<RayTraceResult>, x: RayTraceResult)
    requires |results| > 0 && LastSurfaceId(results) == 0
    ensures x in AtLastSurface(results) <==> x in results && x.surfaceId == Some(0)
  {
  }
}
