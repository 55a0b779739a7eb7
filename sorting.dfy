/**
 * The contract of the C library's `qsort` as the engine uses it: sort the
 * first `n` elements of a buffer in place with a three-way comparator.
 * The algorithm here is an insertion sort by adjacent swaps; only its
 * contract (sorted under the comparator, a permutation, nothing else
 * touched) stands for `qsort`.
 */
module Sorting {

  /**
   * What the sort asks of a comparator: it never reports both `x > y` and
   * `y > x`. Every three-way comparison derived from a total order has this.
   */
  ghost predicate Consistent<T(!new)>(cmp: (T, T) -> int)
  {
    forall x, y :: cmp(x, y) > 0 ==> cmp(y, x) <= 0
  }

  /** The element at `k` is not below its predecessor under `cmp`. */
  predicate InOrder<T>(s: seq<T>, k: int, cmp: (T, T) -> int)
    requires 0 < k < |s|
  {
    cmp(s[k - 1], s[k]) <= 0
  }

  /** Every element is at most its successor under `cmp`. */
  predicate SortedBy<T>(s: seq<T>, cmp: (T, T) -> int)
  {
    forall k :: 0 < k < |s| ==> InOrder(s, k, cmp)
  }

  /** Sorts `a[..n]` in place; `a[n..]` is left alone. */
  method QSort<T(!new)>(a: array<T>, n: nat, cmp: (T, T) -> int)
    requires n <= a.Length
    requires Consistent(cmp)
    modifies a
    ensures SortedBy(a[..n], cmp)
    ensures multiset(a[..n]) == multiset(old(a[..n]))
    ensures a[n..] == old(a[n..])
  {
    for i := 0 to n
      invariant SortedBy(a[..i], cmp)
      invariant multiset(a[..n]) == multiset(old(a[..n]))
      invariant a[n..] == old(a[n..])
    {
      Insert(a, i, n, cmp);
    }
  }

  /** `s[lo..hi]` is sorted under `cmp`. */
  ghost predicate SortedSpan<T>(s: seq<T>, lo: nat, hi: nat, cmp: (T, T) -> int)
    requires lo <= hi <= |s|
  {
    forall k :: lo < k < hi ==> InOrder(s, k, cmp)
  }

  /** `s` with the elements at `j - 1` and `j` exchanged. */
  function Swap<T>(s: seq<T>, j: nat): (t: seq<T>)
    requires 0 < j < |s|
    ensures |t| == |s|
  {
    s[j - 1 := s[j]][j := s[j - 1]]
  }

  /**
   * Moves `a[i]` down into the sorted prefix `a[..i]` by adjacent swaps, so
   * that `a[..i+1]` is sorted.
   */
  method Insert<T(!new)>(a: array<T>, i: nat, n: nat, cmp: (T, T) -> int)
    requires i < n <= a.Length
    requires Consistent(cmp)
    requires SortedBy(a[..i], cmp)
    modifies a
    ensures SortedBy(a[..i + 1], cmp)
    ensures multiset(a[..n]) == multiset(old(a[..n]))
    ensures a[n..] == old(a[n..])
  {
    assert SortedSpan(a[..], 0, i, cmp) by {
      ghost var t, p := a[..], a[..i];
      forall k | 0 < k < i ensures InOrder(t, k, cmp) {
        assert InOrder(p, k, cmp);
      }
    }
    var j := i;
    while j > 0 && cmp(a[j - 1], a[j]) > 0
      invariant 0 <= j <= i
      invariant SortedSpan(a[..], 0, j, cmp) && SortedSpan(a[..], j, i + 1, cmp)
      invariant 0 < j < i ==> cmp(a[j - 1], a[j + 1]) <= 0
      invariant multiset(a[..n]) == multiset(old(a[..n]))
      invariant a[n..] == old(a[n..])
    {
      ghost var s := a[..];
      a[j - 1], a[j] := a[j], a[j - 1];
      assert a[..] == Swap(s, j);
      SwapStep(s, j, i, n, cmp);
      j := j - 1;
    }
    ghost var t := a[..];
    JoinSpans(t, j, i + 1, cmp);
    ghost var p := a[..i + 1];
    forall k | 0 < k < i + 1 ensures InOrder(p, k, cmp) {
      assert InOrder(t, k, cmp);
    }
  }

  /** Two adjacent sorted spans whose seam is in order form one sorted span. */
  lemma JoinSpans<T>(s: seq<T>, j: nat, hi: nat, cmp: (T, T) -> int)
    requires j < hi <= |s|
    requires SortedSpan(s, 0, j, cmp) && SortedSpan(s, j, hi, cmp)
    requires j > 0 ==> cmp(s[j - 1], s[j]) <= 0
    ensures SortedSpan(s, 0, hi, cmp)
  {
    if j > 0 { assert InOrder(s, j, cmp); }
  }

  /**
   * One step of `Insert`: exchanging `s[j-1]` and `s[j]`, which are out of
   * order, moves the inserted element one place down and keeps everything
   * the loop relies on.
   */
  lemma SwapStep<T(!new)>(s: seq<T>, j: nat, i: nat, n: nat, cmp: (T, T) -> int)
    requires 0 < j <= i < n <= |s|
    requires Consistent(cmp)
    requires SortedSpan(s, 0, j, cmp) && SortedSpan(s, j, i + 1, cmp)
    requires j < i ==> cmp(s[j - 1], s[j + 1]) <= 0
    requires cmp(s[j - 1], s[j]) > 0
    ensures SortedSpan(Swap(s, j), 0, j - 1, cmp) && SortedSpan(Swap(s, j), j - 1, i + 1, cmp)
    ensures 0 < j - 1 ==> cmp(Swap(s, j)[j - 2], Swap(s, j)[j]) <= 0
    ensures multiset(Swap(s, j)[..n]) == multiset(s[..n])
    ensures Swap(s, j)[n..] == s[n..]
  {
    var t := Swap(s, j);
    forall k | 0 < k < j - 1 ensures InOrder(t, k, cmp) {
      assert InOrder(s, k, cmp);
    }
    forall k | j - 1 < k < i + 1 ensures InOrder(t, k, cmp) {
      if k > j + 1 { assert InOrder(s, k, cmp); }
    }
    if 0 < j - 1 { assert InOrder(s, j - 1, cmp); }
    assert t[..n] == s[..n][j - 1 := s[j]][j := s[j - 1]];
  }
}
