/**
 * Where emitted pairs go (mapreduce.c:93, 31-42): each pair a mapper emits is
 * appended to the partition the partitioner picks for its key. These are
 * the value-level descriptions the engine's methods are proved against.
 */
module Routing {
  import opened CString
  import opened Pairs
  import opened Hash
  import opened Scheduler
  import opened CInt

  /** A partitioner maps a key and the partition count to a partition index. */
  type Partitioner = (Str, int) -> nat

  /** A mapper, by what it does to the engine: the pairs it emits for a file name, in order. */
  type Mapper = Str -> seq<Pair>

  /** The partitioner accepts `key` and sends it to one of the `n` partitions. */
  predicate InRange(part: Partitioner, key: Str, n: nat)
  {
    part(key, n) < n
  }

  /** The partitioner sends every key to one of the `n` partitions. */
  ghost predicate RoutesInRange(part: Partitioner, n: nat)
  {
    forall key :: InRange(part, key, n)
  }

  /**
   * The default partitioner, as a value the engine can be given. For a count
   * of 0, where the C code divides by zero, it yields 0, which is out of
   * range, so the engine never emits through it then.
   */
  function DefaultPartitioner(): Partitioner
  {
    (key, n) => if -IntBound <= n < IntBound && n != 0 then DefaultPartition(key, n) else 0
  }

  /** With a positive partition count, the default partitioner is in range for every key. */
  lemma DefaultRoutesInRange(n: nat)
    requires 0 < n < IntBound
    ensures RoutesInRange(DefaultPartitioner(), n)
  {
    forall key ensures InRange(DefaultPartitioner(), key, n) {
      assert DefaultPartition(key, n) < n;
    }
  }

  /** The pairs of `ps` that go to partition `i`, in emission order. */
  ghost function Routed(ps: seq<Pair>, part: Partitioner, n: nat, i: nat): seq<Pair>
    decreases |ps|
  {
    if ps == [] then []
    else
      var init, last := ps[..|ps| - 1], ps[|ps| - 1];
      assert ps == init + [last];
      Routed(init, part, n, i) + (if part(last.key, n) == i then [last] else [])
  }

  /** Every pair routed to partition `i` belongs there, and none is invented. */
  lemma {:induction false} RoutedBelongs(ps: seq<Pair>, part: Partitioner, n: nat, i: nat)
    ensures forall x :: 0 <= x < |Routed(ps, part, n, i)| ==> part(Routed(ps, part, n, i)[x].key, n) == i
    ensures multiset(Routed(ps, part, n, i)) <= multiset(ps)
    decreases |ps|
  {
    if ps != [] {
      var init, last := ps[..|ps| - 1], ps[|ps| - 1];
      assert ps == init + [last];
      RoutedBelongs(init, part, n, i);
    }
  }

  /** Routing a concatenation routes each part in turn. */
  lemma {:induction false} RoutedAppend(ps: seq<Pair>, qs: seq<Pair>, part: Partitioner, n: nat, i: nat)
    ensures Routed(ps + qs, part, n, i) == Routed(ps, part, n, i) + Routed(qs, part, n, i)
    decreases |qs|
  {
    if qs != [] {
      var init, last := qs[..|qs| - 1], qs[|qs| - 1];
      assert (ps + qs)[..|ps + qs| - 1] == ps + init;
      assert (ps + qs)[|ps + qs| - 1] == last;
      RoutedAppend(ps, init, part, n, i);
    } else {
      assert ps + qs == ps;
    }
  }

  /** One more emitted pair joins the end of its own partition and no other. */
  lemma RoutedSnoc(ps: seq<Pair>, p: Pair, part: Partitioner, n: nat, i: nat)
    ensures Routed(ps + [p], part, n, i) ==
      Routed(ps, part, n, i) + (if part(p.key, n) == i then [p] else [])
  {
    assert (ps + [p])[..|ps + [p]| - 1] == ps;
  }

  /**
   * Routing neither loses nor duplicates a pair: partition `i` holds each
   * pair routed to it exactly as often as it was emitted, and no other pair.
   */
  lemma {:induction false} RoutingComplete(ps: seq<Pair>, part: Partitioner, n: nat, i: nat, x: Pair)
    ensures multiset(Routed(ps, part, n, i))[x] == if part(x.key, n) == i then multiset(ps)[x] else 0
    decreases |ps|
  {
    if ps != [] {
      var init, last := ps[..|ps| - 1], ps[|ps| - 1];
      assert ps == init + [last];
      RoutingComplete(init, part, n, i, x);
      RoutedSnoc(init, last, part, n, i);
    }
  }

  /**
   * Each of the `n` partitions in `after` is its counterpart in `before`
   * followed by the pairs of `ps` routed to it, in emission order.
   */
  ghost predicate RoutedOnto(before: seq<seq<Pair>>, ps: seq<Pair>, part: Partitioner, n: nat, after: seq<seq<Pair>>)
  {
    |before| == n && |after| == n &&
    forall i :: 0 <= i < n ==> after[i] == before[i] + Routed(ps, part, n, i)
  }

  /** Routing nothing leaves every partition as it was. */
  lemma RoutedOntoNil(before: seq<seq<Pair>>, part: Partitioner, n: nat)
    requires |before| == n
    ensures RoutedOnto(before, [], part, n, before)
  {
    forall i | 0 <= i < n ensures before[i] == before[i] + Routed([], part, n, i) {
      assert before[i] + [] == before[i];
    }
  }

  /** Routing one more pair appends it to its own partition and changes no other. */
  lemma RoutedOntoSnoc(before: seq<seq<Pair>>, ps: seq<Pair>, p: Pair, part: Partitioner, n: nat, mid: seq<seq<Pair>>)
    requires RoutedOnto(before, ps, part, n, mid) && InRange(part, p.key, n)
    ensures RoutedOnto(before, ps + [p], part, n, mid[part(p.key, n) := mid[part(p.key, n)] + [p]])
  {
    var h := part(p.key, n);
    var after := mid[h := mid[h] + [p]];
    forall i | 0 <= i < n ensures after[i] == before[i] + Routed(ps + [p], part, n, i) {
      RoutedSnoc(ps, p, part, n, i);
      if i == h {
        calc {
          after[i];
          mid[i] + [p];
          (before[i] + Routed(ps, part, n, i)) + [p];
          before[i] + (Routed(ps, part, n, i) + [p]);
        }
      }
    }
  }

  /** Routing `ps` and then `qs` is routing `ps + qs`. */
  lemma RoutedOntoAppend(before: seq<seq<Pair>>, ps: seq<Pair>, mid: seq<seq<Pair>>, qs: seq<Pair>,
                         part: Partitioner, n: nat, after: seq<seq<Pair>>)
    requires RoutedOnto(before, ps, part, n, mid) && RoutedOnto(mid, qs, part, n, after)
    ensures RoutedOnto(before, ps + qs, part, n, after)
  {
    forall i | 0 <= i < n ensures after[i] == before[i] + Routed(ps + qs, part, n, i) {
      RoutedAppend(ps, qs, part, n, i);
    }
  }

  /** `n` partitions holding no pairs. */
  function NoPairs(n: nat): (r: seq<seq<Pair>>)
    ensures |r| == n && forall i :: 0 <= i < n ==> r[i] == []
  {
    seq(n, _ => [])
  }

  /** Routing onto empty partitions leaves in each exactly the pairs routed to it. */
  lemma RoutedOntoEmpty(ps: seq<Pair>, part: Partitioner, n: nat, after: seq<seq<Pair>>)
    requires RoutedOnto(NoPairs(n), ps, part, n, after)
    ensures forall i :: 0 <= i < n ==> after[i] == Routed(ps, part, n, i)
  {
    forall i | 0 <= i < n ensures after[i] == Routed(ps, part, n, i) {
      assert after[i] == [] + Routed(ps, part, n, i);
    }
  }

  /** Everything the mapper emits for the given files, file after file. */
  function Emitted(files: seq<InputFile>, mapper: Mapper): seq<Pair>
    decreases |files|
  {
    if files == [] then []
    else Emitted(files[..|files| - 1], mapper) + mapper(files[|files| - 1].name)
  }

  /** Claiming one more file adds that file's emissions at the end. */
  lemma EmittedStep(files: seq<InputFile>, k: nat, mapper: Mapper)
    requires k < |files|
    ensures Emitted(files[..k + 1], mapper) == Emitted(files[..k], mapper) + mapper(files[k].name)
  {
    assert files[..k + 1][..k] == files[..k];
  }
}
