/**
 * What the reduce phase delivers (mapreduce.c:46-66). A reducer pulls values
 * with `get_next` while the pair at the read cursor has its key; the scan in
 * `reducerHelper` calls the reducer at every index the cursor points to.
 * Here are the reducers the model runs and, as functions of a partition's
 * pairs, the reduce invocations the scan makes.
 */
module Grouping {
  import opened CString
  import opened Pairs

  /**
   * A user-supplied reducer, by how it pulls: `Drain` calls `get_next` until
   * it returns NULL; `PullUpTo(limit)` stops after `limit` values or at NULL.
   */
  datatype Reducer = Drain | PullUpTo(limit: nat)

  /** One reduce invocation: the key it was called with and the values it pulled. */
  datatype Call = Call(key: Str, values: seq<Str>)

  /** Every invocation pulls at least the value at the cursor. */
  predicate Productive(r: Reducer)
  {
    r.Drain? || r.limit > 0
  }

  /** The number of consecutive pairs from index `c` on whose key is `key`. */
  function RunLength(s: seq<Pair>, c: nat, key: Str): (m: nat)
    requires c <= |s|
    ensures c + m <= |s|
    decreases |s| - c
  {
    if c < |s| && s[c].key == key then 1 + RunLength(s, c + 1, key) else 0
  }

  /** The run at `c` is maximal: all its pairs have `key`, and the next one does not. */
  lemma RunLengthEnd(s: seq<Pair>, c: nat, key: Str)
    requires c <= |s|
    ensures forall j :: c <= j < c + RunLength(s, c, key) ==> s[j].key == key
    ensures c + RunLength(s, c, key) < |s| ==> s[c + RunLength(s, c, key)].key != key
    decreases |s| - c
  {
    if c < |s| && s[c].key == key { RunLengthEnd(s, c + 1, key); }
  }

  /** Pulling `k` values of a run leaves a run `k` shorter. */
  lemma {:induction false} RunLengthShift(s: seq<Pair>, c: nat, key: Str, k: nat)
    requires c <= |s| && k <= RunLength(s, c, key)
    ensures c + k <= |s| && RunLength(s, c, key) == k + RunLength(s, c + k, key)
    decreases k
  {
    if k > 0 { RunLengthShift(s, c + 1, key, k - 1); }
  }

  /** How many values reducer `r`, called with `key` at cursor `c`, pulls. */
  function Pulled(s: seq<Pair>, c: nat, key: Str, r: Reducer): nat
    requires c <= |s|
  {
    var m := RunLength(s, c, key);
    if r.Drain? || m <= r.limit then m else r.limit
  }

  /** The values of a run of pairs, in order. */
  function Values(s: seq<Pair>, lo: nat, hi: nat): (vs: seq<Str>)
    requires lo <= hi <= |s|
    ensures |vs| == hi - lo
    ensures forall j :: 0 <= j < hi - lo ==> vs[j] == s[lo + j].value
  {
    seq(hi - lo, j requires 0 <= j < hi - lo => s[lo + j].value)
  }

  /**
   * The invocations a productive reducer receives from cursor `c` on: one at
   * the cursor, then one wherever the cursor stopped.
   */
  function Deliveries(s: seq<Pair>, c: nat, r: Reducer): seq<Call>
    requires c <= |s| && Productive(r)
    decreases |s| - c
  {
    if c == |s| then []
    else
      var key := s[c].key;
      var m := Pulled(s, c, key, r);
      [Call(key, Values(s, c, c + m))] + Deliveries(s, c + m, r)
  }

  /**
   * The invocations the scan makes with cursor `c`. A reducer that pulls
   * nothing leaves the cursor behind the scan index, so only the pair at
   * the cursor is ever offered.
   */
  function ScanCalls(s: seq<Pair>, c: nat, r: Reducer): seq<Call>
    requires c <= |s|
  {
    if Productive(r) then Deliveries(s, c, r)
    else if c < |s| then [Call(s[c].key, [])]
    else []
  }

  /** Where the scan leaves the cursor. */
  function ScanCursor(s: seq<Pair>, c: nat, r: Reducer): nat
    requires c <= |s|
  {
    if Productive(r) then |s| else c
  }

  /**
   * The scan of `reducerHelper` as written, from index `i` with the cursor
   * at `c`: at each index the cursor points to, one invocation with the key
   * of the pair there, after which the cursor has moved past what it pulled.
   */
  function ScanFrom(s: seq<Pair>, i: nat, c: nat, r: Reducer): seq<Call>
    requires i <= |s| && c <= |s|
    decreases |s| - i
  {
    if i == |s| then []
    else if i == c then
      var m := Pulled(s, c, s[c].key, r);
      [Call(s[c].key, Values(s, c, c + m))] + ScanFrom(s, i + 1, c + m, r)
    else ScanFrom(s, i + 1, c, r)
  }

  /** Where the scan of `reducerHelper` from index `i` and cursor `c` leaves the cursor. */
  function ScanEnd(s: seq<Pair>, i: nat, c: nat, r: Reducer): nat
    requires i <= |s| && c <= |s|
    decreases |s| - i
  {
    if i == |s| then c
    else if i == c then ScanEnd(s, i + 1, c + Pulled(s, c, s[c].key, r), r)
    else ScanEnd(s, i + 1, c, r)
  }

  /** Once the scan index has passed the cursor, no invocation is made again. */
  lemma {:induction false} ScanPast(s: seq<Pair>, i: nat, c: nat, r: Reducer)
    requires c < i <= |s|
    ensures ScanFrom(s, i, c, r) == [] && ScanEnd(s, i, c, r) == c
    decreases |s| - i
  {
    if i < |s| { ScanPast(s, i + 1, c, r); }
  }

  /**
   * The scan as written makes exactly the invocations `ScanCalls` describes
   * whenever it starts at or before the cursor.
   */
  lemma {:induction false} ScanMeaning(s: seq<Pair>, i: nat, c: nat, r: Reducer)
    requires i <= c <= |s|
    ensures ScanFrom(s, i, c, r) == ScanCalls(s, c, r)
    decreases |s| - i
  {
    if i == |s| {
    } else if i < c {
      ScanMeaning(s, i + 1, c, r);
    } else if Productive(r) {
      DeliveriesStep(s, c, r);
      ScanMeaning(s, i + 1, c + Pulled(s, c, s[c].key, r), r);
    } else {
      ScanPast(s, i + 1, c, r);
      assert Values(s, c, c) == [];
    }
  }

  /**
   * The scan as written leaves the cursor where `ScanCursor` says whenever
   * it starts at or before the cursor.
   */
  lemma {:induction false} ScanEndMeaning(s: seq<Pair>, i: nat, c: nat, r: Reducer)
    requires i <= c <= |s|
    ensures ScanEnd(s, i, c, r) == ScanCursor(s, c, r)
    decreases |s| - i
  {
    if i == |s| {
    } else if i < c {
      ScanEndMeaning(s, i + 1, c, r);
    } else if Productive(r) {
      DeliveriesStep(s, c, r);
      ScanEndMeaning(s, i + 1, c + Pulled(s, c, s[c].key, r), r);
    } else {
      ScanPast(s, i + 1, c, r);
    }
  }

  /** The pairs an invocation received: its key with each value it pulled. */
  function Received(call: Call): seq<Pair>
  {
    seq(|call.values|, j requires 0 <= j < |call.values| => Pair(call.key, call.values[j]))
  }

  /** All pairs handed out by a sequence of invocations, in order. */
  function Delivered(calls: seq<Call>): seq<Pair>
  {
    if calls == [] then [] else Received(calls[0]) + Delivered(calls[1..])
  }

  /**
   * Completeness: when every invocation pulls at least one value, every pair
   * from the cursor on is delivered exactly once, in partition order.
   */
  lemma {:induction false} DeliveriesComplete(s: seq<Pair>, c: nat, r: Reducer)
    requires c <= |s| && Productive(r)
    ensures Delivered(Deliveries(s, c, r)) == s[c..]
    decreases |s| - c
  {
    if c < |s| {
      DeliveriesStep(s, c, r);
      DeliveriesComplete(s, c + Pulled(s, c, s[c].key, r), r);
      DeliveredFrom(s, c, r);
    } else {
      assert s[c..] == [];
    }
  }

  /** Cutting the suffix from `c` at `d` and joining the pieces gives it back. */
  lemma SliceSplit<T>(s: seq<T>, c: nat, d: nat)
    requires c <= d <= |s|
    ensures s[c..d] + s[d..] == s[c..]
  {
  }

  /** If everything after the first invocation from `c` is handed out, so is everything from `c`. */
  lemma DeliveredFrom(s: seq<Pair>, c: nat, r: Reducer)
    requires c < |s| && Productive(r)
    requires c + Pulled(s, c, s[c].key, r) <= |s|
    requires Delivered(Deliveries(s, c + Pulled(s, c, s[c].key, r), r)) == s[c + Pulled(s, c, s[c].key, r)..]
    ensures Delivered(Deliveries(s, c, r)) == s[c..]
  {
    DeliveredStep(s, c, r);
    SliceSplit(s, c, c + Pulled(s, c, s[c].key, r));
  }

  /** The first invocation from `c` hands out the run it pulled, the rest follow. */
  lemma DeliveredStep(s: seq<Pair>, c: nat, r: Reducer)
    requires c < |s| && Productive(r)
    ensures 0 < Pulled(s, c, s[c].key, r) && c + Pulled(s, c, s[c].key, r) <= |s|
    ensures Delivered(Deliveries(s, c, r)) ==
      s[c..c + Pulled(s, c, s[c].key, r)] + Delivered(Deliveries(s, c + Pulled(s, c, s[c].key, r), r))
  {
    DeliveriesStep(s, c, r);
    DeliveredCons(Call(s[c].key, Values(s, c, c + Pulled(s, c, s[c].key, r))),
                  Deliveries(s, c + Pulled(s, c, s[c].key, r), r));
    PulledIsRun(s, c, r);
    ReceivedRun(s, c, c + Pulled(s, c, s[c].key, r), s[c].key);
  }

  /** The values pulled at `c` come from pairs that all have the key at `c`. */
  lemma PulledIsRun(s: seq<Pair>, c: nat, r: Reducer)
    requires c < |s|
    ensures c + Pulled(s, c, s[c].key, r) <= |s|
    ensures forall j :: c <= j < c + Pulled(s, c, s[c].key, r) ==> s[j].key == s[c].key
  {
    RunLengthEnd(s, c, s[c].key);
  }

  /** An invocation made with the common key of a run receives exactly that run. */
  lemma ReceivedRun(s: seq<Pair>, lo: nat, hi: nat, key: Str)
    requires lo <= hi <= |s|
    requires forall j :: lo <= j < hi ==> s[j].key == key
    ensures Received(Call(key, Values(s, lo, hi))) == s[lo..hi]
  {
  }

  /** What a first invocation and the ones after it hand out. */
  lemma DeliveredCons(call: Call, rest: seq<Call>)
    ensures Delivered([call] + rest) == Received(call) + Delivered(rest)
  {
    assert ([call] + rest)[1..] == rest;
  }

  /** The first invocation from cursor `c`, and the rest from where it stopped. */
  lemma DeliveriesStep(s: seq<Pair>, c: nat, r: Reducer)
    requires c < |s| && Productive(r)
    ensures 0 < Pulled(s, c, s[c].key, r)
    ensures Deliveries(s, c, r) ==
      [Call(s[c].key, Values(s, c, c + Pulled(s, c, s[c].key, r)))] + Deliveries(s, c + Pulled(s, c, s[c].key, r), r)
  {
  }

  /** Each invocation got at least one value, and neighbouring invocations have different keys. */
  predicate OnePerRun(calls: seq<Call>)
  {
    (forall x :: 0 <= x < |calls| ==> |calls[x].values| > 0) &&
    (forall x :: 0 < x < |calls| ==> calls[x - 1].key != calls[x].key)
  }

  /** A draining reducer is called once per maximal run of equal keys. */
  lemma {:induction false} DrainCallsAreRuns(s: seq<Pair>, c: nat)
    requires c <= |s|
    ensures OnePerRun(Deliveries(s, c, Drain))
    decreases |s| - c
  {
    if c < |s| {
      var m := RunLength(s, c, s[c].key);
      DeliveriesStep(s, c, Drain);
      DrainCallsAreRuns(s, c + m);
      var calls := Deliveries(s, c, Drain);
      var rest := Deliveries(s, c + m, Drain);
      assert calls == [Call(s[c].key, Values(s, c, c + m))] + rest;
      if rest != [] {
        DeliveriesStep(s, c + m, Drain);
        RunLengthEnd(s, c, s[c].key);
        assert calls[1] == rest[0];
      }
      forall x | 0 < x < |calls| ensures calls[x - 1].key != calls[x].key {
        if x > 1 { assert calls[x - 1] == rest[x - 2] && calls[x] == rest[x - 1]; }
      }
    }
  }

  /** The keys of a sequence of invocations. */
  function CallKeys(calls: seq<Call>): set<Str>
  {
    set x | 0 <= x < |calls| :: calls[x].key
  }

  /** The keys of the pairs from index `c` on. */
  function KeysFrom(s: seq<Pair>, c: nat): set<Str>
  {
    set j | c <= j < |s| :: s[j].key
  }

  /** The keys of a first invocation followed by others. */
  lemma CallKeysCons(call: Call, rest: seq<Call>)
    ensures CallKeys([call] + rest) == {call.key} + CallKeys(rest)
  {
    var calls := [call] + rest;
    forall k | k in CallKeys(calls) ensures k in {call.key} + CallKeys(rest) {
      var x :| 0 <= x < |calls| && calls[x].key == k;
      if x > 0 { assert calls[x] == rest[x - 1]; }
    }
    forall k | k in CallKeys(rest) ensures k in CallKeys(calls) {
      var x :| 0 <= x < |rest| && rest[x].key == k;
      assert calls[x + 1] == rest[x];
    }
    assert calls[0].key == call.key;
  }

  /** The keys from `c` on are the key at `c` and the keys after a stretch sharing it. */
  lemma KeysFromRun(s: seq<Pair>, c: nat, m: nat)
    requires 0 < m && c + m <= |s|
    requires forall j :: c <= j < c + m ==> s[j].key == s[c].key
    ensures KeysFrom(s, c) == {s[c].key} + KeysFrom(s, c + m)
  {
    forall k | k in KeysFrom(s, c) ensures k in {s[c].key} + KeysFrom(s, c + m) {
      var j :| c <= j < |s| && s[j].key == k;
      if j >= c + m { assert k in KeysFrom(s, c + m); }
    }
  }

  /** Every key present from the cursor on is the key of some invocation, and no other is. */
  lemma {:induction false} DeliveriesCoverKeys(s: seq<Pair>, c: nat, r: Reducer)
    requires c <= |s| && Productive(r)
    ensures CallKeys(Deliveries(s, c, r)) == KeysFrom(s, c)
    decreases |s| - c
  {
    if c < |s| {
      var m := Pulled(s, c, s[c].key, r);
      DeliveriesStep(s, c, r);
      PulledIsRun(s, c, r);
      DeliveriesCoverKeys(s, c + m, r);
      CallKeysCons(Call(s[c].key, Values(s, c, c + m)), Deliveries(s, c + m, r));
      KeysFromRun(s, c, m);
    } else {
      assert KeysFrom(s, c) == {};
    }
  }

  /** In a sorted partition, every key after the run at `c` is above that run's key. */
  lemma AfterRunIsAbove(s: seq<Pair>, c: nat, j: nat)
    requires Sorted(s) && c < |s|
    requires c + RunLength(s, c, s[c].key) <= j < |s|
    ensures StrCmp(s[c].key, s[j].key) < 0
  {
    var m := RunLength(s, c, s[c].key);
    RunLengthEnd(s, c, s[c].key);
    SortedKeysAscending(s, c, j);
    StrCmpZero(s[c].key, s[j].key);
    if s[j].key == s[c].key {
      SortedKeysContiguous(s, c, c + m, j);
    }
  }

  /** The invocations' keys are strictly ascending under `strcmp`. */
  predicate KeysAscending(calls: seq<Call>)
  {
    forall x, y :: 0 <= x < y < |calls| ==> StrCmp(calls[x].key, calls[y].key) < 0
  }

  /**
   * On a sorted partition a draining reducer is called once per distinct
   * key, in ascending key order.
   */
  lemma {:induction false} DrainKeysAscending(s: seq<Pair>, c: nat)
    requires c <= |s| && Sorted(s)
    ensures KeysAscending(Deliveries(s, c, Drain))
    decreases |s| - c
  {
    if c < |s| {
      var key := s[c].key;
      var m := RunLength(s, c, key);
      var calls := Deliveries(s, c, Drain);
      var rest := Deliveries(s, c + m, Drain);
      DeliveriesStep(s, c, Drain);
      DrainKeysAscending(s, c + m);
      DeliveriesCoverKeys(s, c + m, Drain);
      forall y | 0 <= y < |rest| ensures StrCmp(key, rest[y].key) < 0 {
        assert rest[y].key in CallKeys(rest);
        var j :| c + m <= j < |s| && s[j].key == rest[y].key;
        AfterRunIsAbove(s, c, j);
      }
      assert calls == [calls[0]] + rest;
      forall x, y | 0 <= x < y < |calls| ensures StrCmp(calls[x].key, calls[y].key) < 0 {
        assert calls[y] == rest[y - 1];
        if x > 0 { assert calls[x] == rest[x - 1]; }
      }
    }
  }

  /**
   * The scan with a draining reducer over a sorted partition, from cursor 0:
   * one invocation per distinct key, in ascending key order, every pair
   * handed out once and in partition order, and the cursor left at the end.
   */
  lemma DrainScan(s: seq<Pair>)
    requires Sorted(s)
    ensures OnePerRun(ScanCalls(s, 0, Drain)) && KeysAscending(ScanCalls(s, 0, Drain))
    ensures CallKeys(ScanCalls(s, 0, Drain)) == KeysFrom(s, 0)
    ensures Delivered(ScanCalls(s, 0, Drain)) == s
    ensures ScanCursor(s, 0, Drain) == |s|
  {
    DrainCallsAreRuns(s, 0);
    DrainKeysAscending(s, 0);
    DeliveriesCoverKeys(s, 0, Drain);
    DeliveriesComplete(s, 0, Drain);
    assert s[0..] == s;
  }

  /**
   * A reducer that stops pulling before the end of its key's run does not
   * skip the rest of the run: the scan calls the reducer again at the next
   * index, with the same key.
   */
  lemma UndrainedRunSplits(s: seq<Pair>, c: nat, k: nat)
    requires c < |s| && 0 < k < RunLength(s, c, s[c].key)
    ensures |Deliveries(s, c, PullUpTo(k))| >= 2
    ensures Deliveries(s, c, PullUpTo(k))[0] == Call(s[c].key, Values(s, c, c + k))
    ensures Deliveries(s, c, PullUpTo(k))[1] ==
      Call(s[c].key, Values(s, c + k, c + k + Pulled(s, c + k, s[c].key, PullUpTo(k))))
  {
    RunLengthEnd(s, c, s[c].key);
    DeliveriesStep(s, c, PullUpTo(k));
    assert s[c + k].key == s[c].key;
    DeliveriesStep(s, c + k, PullUpTo(k));
  }

  /**
   * A reducer that pulls one value and returns does not lose pairs: the scan
   * calls it again at the next index, so it is invoked once per pair, and a
   * key with several values is reduced several times.
   */
  lemma {:induction false} PullOnceCallsPerPair(s: seq<Pair>, c: nat)
    requires c <= |s|
    ensures |Deliveries(s, c, PullUpTo(1))| == |s| - c
    ensures forall x :: 0 <= x < |s| - c ==> Deliveries(s, c, PullUpTo(1))[x] == Call(s[c + x].key, [s[c + x].value])
    decreases |s| - c
  {
    if c < |s| {
      PullOnceCallsPerPair(s, c + 1);
      var calls := Deliveries(s, c, PullUpTo(1));
      var rest := Deliveries(s, c + 1, PullUpTo(1));
      DeliveriesStep(s, c, PullUpTo(1));
      assert Pulled(s, c, s[c].key, PullUpTo(1)) == 1;
      assert Values(s, c, c + 1) == [s[c].value];
      assert calls == [Call(s[c].key, [s[c].value])] + rest;
    }
  }
}
