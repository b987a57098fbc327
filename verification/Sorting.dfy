/** Sorting and searching arrays of records by an integer key, as the decoder and the
    lookups do.  The kernel's `sort()` is library code: any sorted permutation serves,
    so an insertion sort stands in for it. */
module Sorting {
  import opened Types

  ghost predicate SortedBy<T>(xs: seq<T>, key: T -> int)
  {
    forall i, j :: 0 <= i < j < |xs| ==> key(xs[i]) <= key(xs[j])
  }

  ghost predicate StrictBy<T>(xs: seq<T>, key: T -> int)
  {
    forall i, j :: 0 <= i < j < |xs| ==> key(xs[i]) < key(xs[j])
  }

  ghost predicate DistinctBy<T>(xs: seq<T>, key: T -> int)
  {
    forall i, j :: 0 <= i < j < |xs| ==> key(xs[i]) != key(xs[j])
  }

  ghost predicate Permutes<T>(ys: seq<T>, xs: seq<T>) { multiset(ys) == multiset(xs) }

  ghost predicate SortedForm<T>(ys: seq<T>, xs: seq<T>, key: T -> int) { Permutes(ys, xs) && SortedBy(ys, key) }

  /** Insert `x` before the entries with a larger key. */
  method InsertBy<T>(ys: seq<T>, key: T -> int, x: T) returns (zs: seq<T>)
    requires SortedBy(ys, key)
    ensures SortedBy(zs, key) && Permutes(zs, ys + [x])
  {
    var k := |ys|;
    while k > 0 && key(ys[k - 1]) > key(x)
      invariant 0 <= k <= |ys|
      invariant forall i :: k <= i < |ys| ==> key(ys[i]) > key(x)
    {
      k := k - 1;
    }
    InsertPermutes(ys, k, ys, x);
    InsertSorts(ys, key, k, x);
    zs := ys[..k] + [x] + ys[k..];
  }

  lemma InsertSorts<T>(ys: seq<T>, key: T -> int, k: nat, x: T)
    requires k <= |ys| && SortedBy(ys, key)
    requires forall i :: k <= i < |ys| ==> key(x) < key(ys[i])
    requires k > 0 ==> key(ys[k - 1]) <= key(x)
    ensures SortedBy(ys[..k] + [x] + ys[k..], key)
  {
    assert forall i :: 0 <= i < k ==> key(ys[i]) <= key(x);
  }

  method SortBy<T>(xs: seq<T>, key: T -> int) returns (ys: seq<T>)
    ensures SortedForm(ys, xs, key)
  {
    ys := [];
    for n := 0 to |xs|
      invariant Permutes(ys, xs[..n]) && SortedBy(ys, key)
    {
      ys := InsertBy(ys, key, xs[n]);
      assert xs[..n + 1] == xs[..n] + [xs[n]];
    }
    assert xs[..|xs|] == xs;
  }

  lemma InsertPermutes<T>(ys: seq<T>, k: nat, xs: seq<T>, x: T)
    requires k <= |ys| && Permutes(ys, xs)
    ensures Permutes(ys[..k] + [x] + ys[k..], xs + [x])
  {
    assert ys == ys[..k] + ys[k..];
  }

  lemma PermutesMembers<T>(ys: seq<T>, xs: seq<T>)
    requires Permutes(ys, xs)
    ensures |ys| == |xs|
    ensures forall x :: x in ys <==> x in xs
  {
    assert |multiset(ys)| == |multiset(xs)|;
    forall x ensures x in ys <==> x in xs {
      assert x in ys <==> x in multiset(ys);
      assert x in xs <==> x in multiset(xs);
    }
  }

  ghost function Keys<T>(xs: seq<T>, key: T -> int): set<int> { set x | x in xs :: key(x) }

  lemma {:induction false} SubsetSize<T>(a: set<T>, b: set<T>)
    requires a <= b
    ensures |a| <= |b|
  {
    if a != {} {
      var x :| x in a;
      SubsetSize(a - {x}, b - {x});
    }
  }

  /** Keys are distinct exactly when there are as many of them as entries. */
  lemma {:induction false} DistinctCounts<T>(xs: seq<T>, key: T -> int)
    ensures |Keys(xs, key)| <= |xs|
    ensures DistinctBy(xs, key) <==> |Keys(xs, key)| == |xs|
  {
    if xs != [] {
      var n := |xs| - 1;
      var ys := xs[..n];
      DistinctCounts(ys, key);
      assert xs == ys + [xs[n]];
      assert Keys(xs, key) == Keys(ys, key) + {key(xs[n])};
      if DistinctBy(ys, key) && key(xs[n]) !in Keys(ys, key) {
        assert forall i :: 0 <= i < n ==> ys[i] in ys && key(ys[i]) in Keys(ys, key);
      }
      if DistinctBy(xs, key) {
        assert key(xs[n]) !in Keys(ys, key);
      }
    }
  }

  lemma DistinctPermutes<T>(ys: seq<T>, xs: seq<T>, key: T -> int)
    requires Permutes(ys, xs)
    ensures DistinctBy(ys, key) <==> DistinctBy(xs, key)
  {
    PermutesMembers(ys, xs);
    DistinctCounts(ys, key);
    DistinctCounts(xs, key);
    assert Keys(ys, key) == Keys(xs, key);
  }

  /** The adjacent-duplicate scans after each sort. */
  method NoAdjacentDuplicate<T>(ys: seq<T>, key: T -> int) returns (ok: bool)
    requires SortedBy(ys, key)
    ensures ok <==> DistinctBy(ys, key)
    ensures ok <==> StrictBy(ys, key)
  {
    var i := 1;
    while i < |ys|
      invariant 1 <= i
      invariant forall a, b :: 0 <= a < b < |ys| && b < i ==> key(ys[a]) < key(ys[b])
    {
      if key(ys[i - 1]) == key(ys[i]) { return false; }
      i := i + 1;
    }
    return true;
  }

  /** The binary search shared by every UID lookup. */
  method Find<T>(xs: seq<T>, key: T -> int, k: int) returns (at: Option<nat>)
    requires StrictBy(xs, key)
    ensures at.Some? ==> at.value < |xs| && key(xs[at.value]) == k
    ensures at.None? ==> forall i :: 0 <= i < |xs| ==> key(xs[i]) != k
  {
    var lo, hi := 0, |xs| - 1;
    while lo <= hi
      invariant 0 <= lo <= hi + 1 <= |xs|
      invariant forall i :: 0 <= i < lo ==> key(xs[i]) < k
      invariant forall i :: hi < i < |xs| ==> k < key(xs[i])
    {
      var mid := lo + (hi - lo) / 2;
      if key(xs[mid]) == k { return Some(mid); }
      if key(xs[mid]) < k { lo := mid + 1; } else { hi := mid - 1; }
    }
    return None;
  }
}
