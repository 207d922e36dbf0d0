/** Ordering of system specs by value (src/data/specs.ts): the indexes that
    list the specs from the smallest value to the largest, equal values in
    their original order. */
module SpecOrdering {
  import opened Types

  /** The record `{ item, index }` that pairs a spec with its position. */
  datatype IndexedSpec = IndexedSpec(item: SystemSpec, index: int)

  /** `specs.map((item, index) => ({ item, index }))`. */
  function Indexed(specs: seq<SystemSpec>): (xs: seq<IndexedSpec>)
    ensures |xs| == |specs|
    ensures forall k :: 0 <= k < |xs| ==> xs[k] == IndexedSpec(specs[k], k)
  {
    seq(|specs|, k requires 0 <= k < |specs| => IndexedSpec(specs[k], k))
  }

  /** `indexedArr.map((obj) => obj.index)`. */
  function Indexes(xs: seq<IndexedSpec>): (r: seq<int>)
    ensures |r| == |xs|
    ensures forall k :: 0 <= k < |xs| ==> r[k] == xs[k].index
  {
    seq(|xs|, k requires 0 <= k < |xs| => xs[k].index)
  }

  /** Where a stable sort by value puts `x` ahead of `y`: a smaller value, or an
      equal value and an earlier original position. */
  predicate Before(x: IndexedSpec, y: IndexedSpec) {
    x.item.value < y.item.value || (x.item.value == y.item.value && x.index < y.index)
  }

  /** Each element goes ahead of every later one. */
  predicate StrictlySorted(xs: seq<IndexedSpec>) {
    forall k, l :: 0 <= k < l < |xs| ==> Before(xs[k], xs[l])
  }

  /** The original positions increase along the sequence, as they do in `Indexed(specs)`. */
  predicate IndexesIncrease(xs: seq<IndexedSpec>) {
    forall k, l :: 0 <= k < l < |xs| ==> xs[k].index < xs[l].index
  }

  // ---------------------------------------------------------------------------
  // The reference definition: insertion sort on sequences.

  /** `x` placed after every element whose value is not larger than its own. */
  function Insert(sorted: seq<IndexedSpec>, x: IndexedSpec): (r: seq<IndexedSpec>)
    ensures multiset(r) == multiset(sorted) + multiset{x}
  {
    if |sorted| == 0 then [x]
    else if x.item.value < sorted[0].item.value then [x] + sorted
    else
      assert sorted == [sorted[0]] + sorted[1..];
      [sorted[0]] + Insert(sorted[1..], x)
  }

  /** The stable sort of `xs` by value, one insertion per element. */
  function StableSort(xs: seq<IndexedSpec>): (r: seq<IndexedSpec>)
    ensures multiset(r) == multiset(xs)
  {
    if |xs| == 0 then []
    else
      assert xs == xs[..|xs| - 1] + [xs[|xs| - 1]];
      Insert(StableSort(xs[..|xs| - 1]), xs[|xs| - 1])
  }

  /** Inserting an element that came after everything already sorted keeps the
      sequence strictly sorted. */
  lemma {:induction false} InsertSorted(sorted: seq<IndexedSpec>, x: IndexedSpec)
    requires StrictlySorted(sorted)
    requires forall y :: y in sorted ==> y.index < x.index
    ensures StrictlySorted(Insert(sorted, x))
  {
    if |sorted| == 0 {
    } else if x.item.value < sorted[0].item.value {
      var r := [x] + sorted;
      forall k, l | 0 <= k < l < |r|
        ensures Before(r[k], r[l])
      {
        if k == 0 {
          assert r[l] == sorted[l - 1];
          if l > 1 {
            assert Before(sorted[0], sorted[l - 1]);
          }
        } else {
          assert Before(sorted[k - 1], sorted[l - 1]);
        }
      }
    } else {
      var tail := Insert(sorted[1..], x);
      forall y | y in sorted[1..]
        ensures y.index < x.index
      {
        assert y in sorted;
      }
      InsertSorted(sorted[1..], x);
      var r := [sorted[0]] + tail;
      forall l | 0 < l < |r|
        ensures Before(r[0], r[l])
      {
        assert r[l] in multiset(tail);
        assert r[l] in multiset(sorted[1..]) + multiset{x};
        if r[l] in sorted[1..] {
          var m :| 0 <= m < |sorted[1..]| && sorted[1..][m] == r[l];
          assert Before(sorted[0], sorted[m + 1]);
        } else {
          assert r[l] == x;
          assert sorted[0] in sorted;
        }
      }
      assert StrictlySorted(r);
    }
  }

  /** Sorting a sequence whose original positions increase gives a strictly
      sorted sequence: equal values keep their order. */
  lemma {:induction false} StableSortSorted(xs: seq<IndexedSpec>)
    requires IndexesIncrease(xs)
    ensures StrictlySorted(StableSort(xs))
  {
    if |xs| > 0 {
      var init := xs[..|xs| - 1];
      var last := xs[|xs| - 1];
      StableSortSorted(init);
      forall y | y in StableSort(init)
        ensures y.index < last.index
      {
        assert y in multiset(StableSort(init));
        assert y in init;
      }
      InsertSorted(StableSort(init), last);
    }
  }

  /** Two strictly sorted sequences with the same elements are equal. */
  lemma {:induction false} SortedUnique(s: seq<IndexedSpec>, t: seq<IndexedSpec>)
    requires StrictlySorted(s) && StrictlySorted(t)
    requires forall x :: x in s <==> x in t
    ensures s == t
  {
    if |t| > 0 {
      assert t[0] in s;
    }
    if |s| == 0 {
    } else {
      assert s[0] in t;
      assert t[0] in s;
      var k :| 0 <= k < |t| && t[k] == s[0];
      var m :| 0 <= m < |s| && s[m] == t[0];
      if k > 0 && m > 0 {
        assert false;
      }
      assert s[0] == t[0];
      forall x
        ensures x in s[1..] <==> x in t[1..]
      {
        FirstNotInTail(s, x);
        FirstNotInTail(t, x);
      }
      SortedUnique(s[1..], t[1..]);
      assert s == [s[0]] + s[1..];
      assert t == [t[0]] + t[1..];
    }
  }

  /** In a strictly sorted sequence the tail holds every element but the first. */
  lemma FirstNotInTail(s: seq<IndexedSpec>, x: IndexedSpec)
    requires StrictlySorted(s) && |s| > 0
    ensures x in s[1..] <==> x in s && x != s[0]
  {
    if x in s[1..] {
      var m :| 0 <= m < |s[1..]| && s[1..][m] == x;
      assert Before(s[0], s[m + 1]);
    }
    if x in s && x != s[0] {
      var m :| 0 <= m < |s| && s[m] == x;
      assert s[1..][m - 1] == x;
    }
  }

  // ---------------------------------------------------------------------------
  // The order as indexes, and what it promises.

  /** The indexes that `sortSystemSpecsIndexes` returns, by the reference sort. */
  function StableOrder(specs: seq<SystemSpec>): (order: seq<int>)
    ensures |order| == |specs|
  {
    var ys := StableSort(Indexed(specs));
    assert |ys| == |multiset(ys)| == |multiset(Indexed(specs))| == |specs|;
    Indexes(ys)
  }

  /** `order` lists each position of `specs` once, by increasing value, ties in
      their original order. */
  predicate SortsStably(specs: seq<SystemSpec>, order: seq<int>) {
    (forall k :: 0 <= k < |order| ==> 0 <= order[k] < |specs|) &&
    (forall i :: 0 <= i < |specs| ==> i in order) &&
    (forall k, l :: 0 <= k < l < |order| ==>
       specs[order[k]].value < specs[order[l]].value ||
       (specs[order[k]].value == specs[order[l]].value && order[k] < order[l]))
  }

  /** Every element of the sorted records is the record of its own index. */
  lemma SortedRecords(specs: seq<SystemSpec>, y: IndexedSpec)
    requires y in StableSort(Indexed(specs))
    ensures 0 <= y.index < |specs| && y == IndexedSpec(specs[y.index], y.index)
  {
    assert y in multiset(StableSort(Indexed(specs)));
    assert y in Indexed(specs);
  }

  /** The reference order is a stable sort of the positions, of the same length. */
  lemma StableOrderSortsStably(specs: seq<SystemSpec>)
    ensures |StableOrder(specs)| == |specs|
    ensures SortsStably(specs, StableOrder(specs))
  {
    var xs := Indexed(specs);
    var ys := StableSort(xs);
    var order := StableOrder(specs);
    assert |ys| == |multiset(ys)| == |multiset(xs)| == |xs|;
    StableSortSorted(xs);
    forall k | 0 <= k < |order|
      ensures 0 <= order[k] < |specs| && specs[order[k]] == ys[k].item
    {
      SortedRecords(specs, ys[k]);
    }
    forall i | 0 <= i < |specs|
      ensures i in order
    {
      assert xs[i] in multiset(xs);
      assert xs[i] in ys;
      var k :| 0 <= k < |ys| && ys[k] == xs[i];
      assert order[k] == i;
    }
    forall k, l | 0 <= k < l < |order|
      ensures specs[order[k]].value < specs[order[l]].value ||
              (specs[order[k]].value == specs[order[l]].value && order[k] < order[l])
    {
      assert Before(ys[k], ys[l]);
    }
  }

  /** The records `{ item, index }` of the positions listed in `order`. */
  function Records(specs: seq<SystemSpec>, order: seq<int>): (ys: seq<IndexedSpec>)
    requires forall k :: 0 <= k < |order| ==> 0 <= order[k] < |specs|
    ensures |ys| == |order|
    ensures forall k :: 0 <= k < |order| ==> ys[k] == IndexedSpec(specs[order[k]], order[k])
  {
    seq(|order|, k requires 0 <= k < |order| => IndexedSpec(specs[order[k]], order[k]))
  }

  /** The records of a stable order are strictly sorted. */
  lemma RecordsSorted(specs: seq<SystemSpec>, order: seq<int>)
    requires SortsStably(specs, order)
    ensures StrictlySorted(Records(specs, order))
  {
    var ys := Records(specs, order);
    forall k, l | 0 <= k < l < |ys|
      ensures Before(ys[k], ys[l])
    {
    }
  }

  /** The records of a stable order are the records of all positions. */
  lemma RecordsMembers(specs: seq<SystemSpec>, order: seq<int>, x: IndexedSpec)
    requires SortsStably(specs, order)
    ensures x in Records(specs, order) <==> x in Indexed(specs)
  {
    var xs := Indexed(specs);
    var ys := Records(specs, order);
    if x in ys {
      var k :| 0 <= k < |ys| && ys[k] == x;
      assert xs[order[k]] == x;
    }
    if x in xs {
      var i :| 0 <= i < |xs| && xs[i] == x;
      assert i in order;
      var k :| 0 <= k < |order| && order[k] == i;
      assert ys[k] == x;
    }
  }

  /** Conversely, a stable sort of the positions is the reference order: the
      result is determined by the values alone. */
  lemma StableOrderUnique(specs: seq<SystemSpec>, order: seq<int>)
    requires SortsStably(specs, order)
    ensures order == StableOrder(specs)
  {
    var xs := Indexed(specs);
    var ys := Records(specs, order);
    RecordsSorted(specs, order);
    StableSortSorted(xs);
    forall x
      ensures x in ys <==> x in StableSort(xs)
    {
      assert x in StableSort(xs) <==> x in multiset(xs);
      RecordsMembers(specs, order, x);
    }
    SortedUnique(ys, StableSort(xs));
    assert order == Indexes(ys);
  }

  /** The order depends only on the values: units and kinds play no part. */
  lemma StableOrderOnlyReadsValues(specs: seq<SystemSpec>, others: seq<SystemSpec>)
    requires |specs| == |others|
    requires forall i :: 0 <= i < |specs| ==> specs[i].value == others[i].value
    ensures StableOrder(specs) == StableOrder(others)
  {
    StableOrderSortsStably(specs);
    StableOrderUnique(others, StableOrder(specs));
  }

  // ---------------------------------------------------------------------------
  // The implementation: an in-place stable sort of the records.

  /** `sortSystemSpecsIndexes`: pairs every spec with its index, sorts the pairs
      by value with a stable sort, and returns their indexes. */
  method SortSystemSpecsIndexes(specs: seq<SystemSpec>) returns (indexes: seq<int>)
    ensures indexes == StableOrder(specs)
  {
    var indexedArr := new IndexedSpec[|specs|](k requires 0 <= k < |specs| => IndexedSpec(specs[k], k));
    assert indexedArr[..] == Indexed(specs);
    SortByValue(indexedArr);
    StableSortSorted(Indexed(specs));
    forall x
      ensures x in indexedArr[..] <==> x in StableSort(Indexed(specs))
    {
      assert x in indexedArr[..] <==> x in multiset(indexedArr[..]);
    }
    SortedUnique(indexedArr[..], StableSort(Indexed(specs)));
    indexes := Indexes(indexedArr[..]);
  }

  /** `indexedArr.sort((a, b) => a.item.value - b.item.value)`, a stable sort
      that compares values only; on records listed by increasing index the
      result is strictly sorted. */
  method SortByValue(a: array<IndexedSpec>)
    requires IndexesIncrease(a[..])
    modifies a
    ensures multiset(a[..]) == multiset(old(a[..]))
    ensures StrictlySorted(a[..])
  {
    if a.Length == 0 {
      return;
    }
    ghost var original := a[..];
    for i := 1 to a.Length
      invariant multiset(a[..]) == multiset(original)
      invariant StrictlySorted(a[..i])
      invariant forall k :: i <= k < a.Length ==> a[k] == original[k]
      invariant forall k :: 0 <= k < i && i < a.Length ==> a[k].index < a[i].index
    {
      ghost var before := a[..];
      var j := SinkLast(a, i);
      SortStep(original, before, a[..], i, j);
    }
    assert a[..a.Length] == a[..];
  }

  /** Moves `a[i]` down past the larger values before it, to position `j`. */
  method SinkLast(a: array<IndexedSpec>, i: int) returns (j: int)
    requires 0 < i < a.Length
    modifies a
    ensures 0 <= j <= i
    ensures a[..i + 1] == InsertedAt(old(a[..i]), old(a[i]), j)
    ensures a[i + 1..] == old(a[i + 1..])
    ensures j > 0 ==> old(a[j - 1]).item.value <= old(a[i]).item.value
    ensures forall l :: j <= l < i ==> old(a[i]).item.value < old(a[l]).item.value
  {
    ghost var s := a[..i];
    var x := a[i];
    j := i;
    while j > 0 && a[j - 1].item.value > x.item.value
      invariant 0 <= j <= i
      invariant forall k :: 0 <= k < j ==> a[k] == s[k]
      invariant a[j] == x
      invariant forall k :: j < k <= i ==> a[k] == s[k - 1]
      invariant forall k :: i < k < a.Length ==> a[k] == old(a[k])
      invariant forall l :: j <= l < i ==> x.item.value < s[l].item.value
    {
      a[j - 1], a[j] := a[j], a[j - 1];
      j := j - 1;
    }
    assert a[..i + 1] == InsertedAt(s, x, j);
    assert a[i + 1..] == old(a[i + 1..]);
  }

  /** The outer loop's invariants hold again after the `i`-th record has been sunk. */
  lemma SortStep(original: seq<IndexedSpec>, before: seq<IndexedSpec>, after: seq<IndexedSpec>, i: int, j: int)
    requires IndexesIncrease(original)
    requires 0 <= j <= i < |original| == |before| == |after|
    requires multiset(before) == multiset(original)
    requires StrictlySorted(before[..i])
    requires forall k :: i <= k < |before| ==> before[k] == original[k]
    requires forall k :: 0 <= k < i ==> before[k].index < before[i].index
    requires after[..i + 1] == InsertedAt(before[..i], before[i], j)
    requires after[i + 1..] == before[i + 1..]
    requires j > 0 ==> before[j - 1].item.value <= before[i].item.value
    requires forall l :: j <= l < i ==> before[i].item.value < before[l].item.value
    ensures multiset(after) == multiset(original)
    ensures StrictlySorted(after[..i + 1])
    ensures forall k :: i + 1 <= k < |after| ==> after[k] == original[k]
    ensures forall k :: 0 <= k < i + 1 && i + 1 < |after| ==> after[k].index < after[i + 1].index
  {
    SinkStep(before, after, i, j);
    forall k | i + 1 <= k < |after|
      ensures after[k] == original[k]
    {
      assert after[k] == after[i + 1..][k - i - 1];
    }
  }

  /** One pass of the outer loop: after sinking the `i`-th record to position `j`,
      the first `i + 1` records are strictly sorted and none has an index above
      the sunk record's, and the whole array holds the same records. */
  lemma SinkStep(before: seq<IndexedSpec>, after: seq<IndexedSpec>, i: int, j: int)
    requires 0 <= j <= i < |before| == |after|
    requires StrictlySorted(before[..i])
    requires forall k :: 0 <= k < i ==> before[k].index < before[i].index
    requires after[..i + 1] == InsertedAt(before[..i], before[i], j)
    requires after[i + 1..] == before[i + 1..]
    requires j > 0 ==> before[j - 1].item.value <= before[i].item.value
    requires forall l :: j <= l < i ==> before[i].item.value < before[l].item.value
    ensures StrictlySorted(after[..i + 1])
    ensures forall k :: 0 <= k <= i ==> after[k].index <= before[i].index
    ensures multiset(after) == multiset(before)
    ensures i + 1 < |before| && before[i].index < before[i + 1].index ==>
      forall k :: 0 <= k <= i ==> after[k].index < after[i + 1].index
  {
    InsertAt(before[..i], before[i], j);
    assert after == after[..i + 1] + after[i + 1..];
    assert before == (before[..i] + [before[i]]) + before[i + 1..];
  }

  /** `s` with `x` placed at position `j`. */
  function InsertedAt(s: seq<IndexedSpec>, x: IndexedSpec, j: int): (r: seq<IndexedSpec>)
    requires 0 <= j <= |s|
    ensures |r| == |s| + 1
    ensures forall k :: 0 <= k < j ==> r[k] == s[k]
    ensures r[j] == x
    ensures forall k :: j < k < |r| ==> r[k] == s[k - 1]
    ensures multiset(r) == multiset(s + [x])
  {
    assert s == s[..j] + s[j..];
    s[..j] + [x] + s[j..]
  }

  /** Placing `x` after the values not larger than its own and before the larger
      ones keeps a strictly sorted sequence strictly sorted, when `x` came last. */
  lemma InsertAt(s: seq<IndexedSpec>, x: IndexedSpec, j: int)
    requires 0 <= j <= |s|
    requires StrictlySorted(s)
    requires forall k :: 0 <= k < |s| ==> s[k].index < x.index
    requires j > 0 ==> s[j - 1].item.value <= x.item.value
    requires forall l :: j <= l < |s| ==> x.item.value < s[l].item.value
    ensures StrictlySorted(InsertedAt(s, x, j))
    ensures forall k :: 0 <= k < |s| + 1 ==> InsertedAt(s, x, j)[k].index <= x.index
  {
    var r := InsertedAt(s, x, j);
    forall k, l | 0 <= k < l < |r|
      ensures Before(r[k], r[l])
    {
      if l < j {
        assert Before(s[k], s[l]);
      } else if l == j {
        if k < j - 1 {
          assert Before(s[k], s[j - 1]);
        }
      } else if k == j {
      } else if k < j {
        assert Before(s[k], s[l - 1]);
      } else {
        assert Before(s[k - 1], s[l - 1]);
      }
    }
  }
}
