/**
 * Emitted key/value pairs and the grouping order `compare`
 * (mapreduce.c:69-76): by key, then by value, both with `strcmp`.
 */
module Pairs {
  import opened CString
  import opened Sorting

  /** An emitted pair; the engine keeps its own copies of both strings. */
  datatype Pair = Pair(key: Str, value: Str)

  /** `compare`: the keys' `strcmp` result, or the values' when the keys are equal. */
  function Compare(p1: Pair, p2: Pair): int
  {
    if StrCmp(p1.key, p2.key) == 0 then StrCmp(p1.value, p2.value)
    else StrCmp(p1.key, p2.key)
  }

  /** A partition after the grouping sort: non-decreasing under `Compare`. */
  predicate Sorted(s: seq<Pair>)
  {
    SortedBy(s, Compare)
  }

  /** `Compare` returns 0 exactly for equal pairs. */
  lemma CompareZero(p: Pair, q: Pair)
    ensures Compare(p, q) == 0 <==> p == q
  {
    StrCmpZero(p.key, q.key);
    StrCmpZero(p.value, q.value);
  }

  /** Swapping the arguments negates the result. */
  lemma CompareSwap(p: Pair, q: Pair)
    ensures Compare(q, p) == -Compare(p, q)
  {
    StrCmpSwap(p.key, q.key);
    StrCmpSwap(p.value, q.value);
  }

  /** The order is transitive. */
  lemma CompareTrans(p: Pair, q: Pair, r: Pair)
    requires Compare(p, q) <= 0 && Compare(q, r) <= 0
    ensures Compare(p, r) <= 0
  {
    StrCmpZero(p.key, q.key);
    StrCmpZero(q.key, r.key);
    StrCmpZero(p.key, r.key);
    StrCmpTrans(p.key, q.key, r.key);
    StrCmpSwap(p.key, q.key);
    if p.key == q.key == r.key {
      StrCmpTrans(p.value, q.value, r.value);
    }
  }

  /** A pair is never after another unless its key is. */
  lemma CompareKeys(p: Pair, q: Pair)
    requires Compare(p, q) <= 0
    ensures StrCmp(p.key, q.key) <= 0
  {
    StrCmpZero(p.key, q.key);
  }

  /**
   * `Compare` is the lexicographic order on (key, value) built from the
   * byte-wise lexicographic order on strings.
   */
  lemma CompareIsLexicographic(p: Pair, q: Pair)
    ensures Compare(p, q) < 0 <==>
      LexLess(p.key, q.key) || (p.key == q.key && LexLess(p.value, q.value))
  {
    StrCmpZero(p.key, q.key);
    StrCmpIsLexicographic(p.key, q.key);
    StrCmpIsLexicographic(p.value, q.value);
  }

  /**
   * `Compare` is a total preorder: it never reports both `p > q` and
   * `q > p` (what the sort asks of a comparator), it orders every two
   * pairs one way or the other, and "no greater" is transitive.
   */
  lemma CompareConsistent()
    ensures Consistent(Compare)
    ensures forall p, q :: Compare(p, q) <= 0 || Compare(q, p) <= 0
    ensures forall p, q, r :: Compare(p, q) <= 0 && Compare(q, r) <= 0 ==> Compare(p, r) <= 0
  {
    forall p, q ensures Compare(q, p) <= 0 || Compare(p, q) <= 0 {
      CompareSwap(p, q);
    }
    forall p, q, r | Compare(p, q) <= 0 && Compare(q, r) <= 0 ensures Compare(p, r) <= 0 {
      CompareTrans(p, q, r);
    }
  }

  /** In a sorted partition every pair is at most every later pair. */
  lemma {:induction false} SortedPairwise(s: seq<Pair>, i: nat, j: nat)
    requires Sorted(s) && i <= j < |s|
    ensures Compare(s[i], s[j]) <= 0
    decreases j - i
  {
    if i == j {
      CompareZero(s[i], s[j]);
    } else {
      SortedPairwise(s, i, j - 1);
      assert InOrder(s, j, Compare);
      CompareTrans(s[i], s[j - 1], s[j]);
    }
  }

  /** In a sorted partition the keys never decrease. */
  lemma SortedKeysAscending(s: seq<Pair>, i: nat, j: nat)
    requires Sorted(s) && i <= j < |s|
    ensures StrCmp(s[i].key, s[j].key) <= 0
  {
    SortedPairwise(s, i, j);
    CompareKeys(s[i], s[j]);
  }

  /** Group contiguity: in a sorted partition, equal keys occupy one index range. */
  lemma SortedKeysContiguous(s: seq<Pair>, i: nat, j: nat, k: nat)
    requires Sorted(s) && i <= j <= k < |s|
    requires s[i].key == s[k].key
    ensures s[j].key == s[i].key
  {
    SortedKeysAscending(s, i, j);
    SortedKeysAscending(s, j, k);
    StrCmpSwap(s[i].key, s[j].key);
    StrCmpZero(s[i].key, s[j].key);
  }

  /** The first pair of a sorted partition is at most every pair in it. */
  lemma SortedFirstIsLeast(s: seq<Pair>, x: Pair)
    requires Sorted(s) && x in s
    ensures Compare(s[0], x) <= 0
  {
    var j :| 0 <= j < |s| && s[j] == x;
    SortedPairwise(s, 0, j);
  }

  /** Any suffix of a sorted partition is sorted. */
  lemma SortedTail(s: seq<Pair>, k: nat)
    requires Sorted(s) && k <= |s|
    ensures Sorted(s[k..])
  {
    forall j | 0 < j < |s| - k ensures InOrder(s[k..], j, Compare) {
      assert InOrder(s, k + j, Compare);
      assert s[k..][j - 1] == s[k + j - 1] && s[k..][j] == s[k + j];
    }
  }

  /**
   * The grouping sort has exactly one possible outcome: two sorted
   * arrangements of the same pairs are equal.
   */
  lemma {:induction false} SortedUnique(s: seq<Pair>, t: seq<Pair>)
    requires Sorted(s) && Sorted(t)
    requires multiset(s) == multiset(t)
    ensures s == t
    decreases |s|
  {
    assert |s| == |multiset(s)| == |t|;
    if s != [] {
      assert s[0] in multiset(t) && t[0] in multiset(s);
      SortedFirstIsLeast(s, t[0]);
      SortedFirstIsLeast(t, s[0]);
      CompareSwap(s[0], t[0]);
      CompareZero(s[0], t[0]);
      assert s[0] == t[0];
      assert s == [s[0]] + s[1..] && t == [t[0]] + t[1..];
      assert multiset(s[1..]) == multiset(s) - multiset{s[0]};
      assert multiset(t[1..]) == multiset(t) - multiset{t[0]};
      SortedTail(s, 1);
      SortedTail(t, 1);
      SortedUnique(s[1..], t[1..]);
    }
  }
}
