/**
 * The engine's shared state and the operations on it (mapreduce.c:17-28,
 * 31-66, 90-201): per-partition growable arrays of pairs with their counts,
 * capacities and read cursors, and the file claim counter. The mutexes
 * around `MR_Emit` and the claim only make each of these operations atomic;
 * here every operation runs on its own, one after another.
 */
module Engine {
  import opened Wrappers
  import opened CString
  import opened Sorting
  import opened Pairs
  import opened Scheduler
  import opened Routing
  import opened Grouping

  /** Every partition starts with room for this many pairs. */
  const InitialCapacity: nat := 1024

  /** `min(argc - 1, num_mappers)`: never more mapper threads than files. */
  function ClampMappers(fileCount: int, numMappers: int): (r: int)
    ensures r <= fileCount && r <= numMappers
    ensures r == fileCount || r == numMappers
  {
    if fileCount < numMappers then fileCount else numMappers
  }

  class MapReduce {
    /** `numberPartitions`, `p`, and the size-sorted `fileNames` with `totalFiles`. */
    const numberPartitions: nat
    const partitioner: Partitioner
    const fileNames: seq<InputFile>
    const totalFiles: nat

    /** `partitions[i]` holds `pairCount[i]` pairs in room for `pairInPartition[i]`. */
    var partitions: seq<array<Pair>>
    var pairCount: seq<nat>
    var pairInPartition: seq<nat>
    /** `numberOfAccess[i]`: the read cursor of partition `i`. */
    var numberOfAccess: seq<nat>
    /** `filesProc`: how many files have been claimed. */
    var filesProc: nat

    /** The pairs each partition holds, in array order. */
    ghost var Contents: seq<seq<Pair>>
    ghost var Repr: set<array<Pair>>

    /**
     * Partition `i` is in order: its count fits its capacity, the capacity is
     * at least the initial one and, once grown, less than twice the count,
     * and `Contents[i]` is what the array holds.
     */
    ghost predicate PartitionValid(i: nat)
      requires i < |partitions| && i < |pairCount| && i < |pairInPartition| && i < |Contents|
      reads this`partitions, this`pairCount, this`pairInPartition, this`Contents, partitions[i]
    {
      pairCount[i] <= pairInPartition[i] == partitions[i].Length &&
      InitialCapacity <= pairInPartition[i] &&
      (pairInPartition[i] == InitialCapacity || pairInPartition[i] < 2 * pairCount[i]) &&
      Contents[i] == partitions[i][..pairCount[i]]
    }

    /** The pair store: one valid partition per index, each with an array of its own. */
    ghost predicate StoreValid()
      reads this`partitions, this`pairCount, this`pairInPartition, this`Contents, this`Repr, Repr
    {
      |partitions| == numberPartitions && |pairCount| == numberPartitions &&
      |pairInPartition| == numberPartitions && |Contents| == numberPartitions &&
      (forall i :: 0 <= i < numberPartitions ==> partitions[i] in Repr) &&
      (forall i, j :: 0 <= i < j < numberPartitions ==> partitions[i] != partitions[j]) &&
      (forall i :: 0 <= i < numberPartitions ==> PartitionValid(i))
    }

    /** Every read cursor is within the pairs of its partition. */
    ghost predicate CursorsValid()
      reads this`numberOfAccess, this`Contents
    {
      |numberOfAccess| == numberPartitions && |Contents| == numberPartitions &&
      forall i :: 0 <= i < numberPartitions ==> numberOfAccess[i] <= |Contents[i]|
    }

    ghost predicate Valid()
      reads this, Repr
    {
      StoreValid() && CursorsValid() && filesProc <= totalFiles == |fileNames|
    }

    /** The partition `MR_Emit` sends `key` to. */
    function PartitionOf(key: Str): nat
    {
      partitioner(key, numberPartitions)
    }

    /** The pair at the cursor of partition `n` has key `key`. */
    ghost predicate HasNext(key: Str, n: nat)
      requires CursorsValid() && n < numberPartitions
      reads this`numberOfAccess, this`Contents
    {
      numberOfAccess[n] < |Contents[n]| && Contents[n][numberOfAccess[n]].key == key
    }

    /**
     * `MR_Run` up to the mapper threads (lines 118-147): every partition
     * empty with capacity 1024 and cursor 0, no file claimed, and the files
     * in increasing order of size.
     */
    constructor (files: seq<InputFile>, numPartitions: nat, partitioner: Partitioner)
      ensures Valid() && fresh(Repr)
      ensures numberPartitions == numPartitions && this.partitioner == partitioner
      ensures multiset(fileNames) == multiset(files) && SizesAscending(fileNames)
      ensures totalFiles == |files| && filesProc == 0
      ensures forall i :: 0 <= i < numPartitions ==>
        Contents[i] == [] && pairInPartition[i] == InitialCapacity && numberOfAccess[i] == 0
    {
      numberPartitions := numPartitions;
      this.partitioner := partitioner;
      var order := ScheduleBySize(files);
      fileNames := order;
      totalFiles := |files|;
      new;
      assert |fileNames| == |files| by {
        assert |multiset(fileNames)| == |multiset(files)|;
      }
      var parts: seq<array<Pair>> := [];
      ghost var arrays: set<array<Pair>> := {};
      for i := 0 to numPartitions
        invariant |parts| == i
        invariant forall j :: 0 <= j < i ==> parts[j] in arrays && parts[j].Length == InitialCapacity
        invariant forall j, k :: 0 <= j < k < i ==> parts[j] != parts[k]
        invariant fresh(arrays)
      {
        var a := new Pair[InitialCapacity](_ => Pair([], []));
        parts := parts + [a];
        arrays := arrays + {a};
      }
      partitions, Repr := parts, arrays;
      pairCount := seq(numPartitions, _ => 0);
      pairInPartition := seq(numPartitions, _ => InitialCapacity);
      numberOfAccess := seq(numPartitions, _ => 0);
      Contents := seq(numPartitions, _ => []);
      filesProc := 0;
      forall i | 0 <= i < numPartitions ensures PartitionValid(i) {
        assert partitions[i][..pairCount[i]] == [];
      }
    }

    /**
     * `MR_Emit` (lines 93-103): append a copy of the pair to the partition
     * the partitioner picks, doubling that partition's capacity first when
     * the new count exceeds it. Nothing else changes.
     */
    method Emit(key: Str, value: Str)
      requires Valid() && InRange(partitioner, key, numberPartitions)
      modifies this, Repr
      ensures Valid() && fresh(Repr - old(Repr))
      ensures Contents == old(Contents)[PartitionOf(key) := old(Contents[PartitionOf(key)]) + [Pair(key, value)]]
      ensures pairCount == old(pairCount)[PartitionOf(key) := old(pairCount[PartitionOf(key)]) + 1]
      ensures pairInPartition == old(pairInPartition)[PartitionOf(key) :=
        if old(pairCount[PartitionOf(key)]) + 1 > old(pairInPartition[PartitionOf(key)])
        then 2 * old(pairInPartition[PartitionOf(key)])
        else old(pairInPartition[PartitionOf(key)])]
      ensures numberOfAccess == old(numberOfAccess) && filesProc == old(filesProc)
    {
      var h := partitioner(key, numberPartitions);
      assert PartitionValid(h);
      var count, capacity := pairCount[h] + 1, pairInPartition[h];
      var stored := Store(partitions[h], pairCount[h], Pair(key, value));
      if count > capacity { capacity := 2 * capacity; }
      partitions, pairCount, pairInPartition, Contents, Repr :=
        partitions[h := stored], pairCount[h := count], pairInPartition[h := capacity],
        Contents[h := Contents[h] + [Pair(key, value)]], Repr + {stored};
      assert PartitionValid(h);
      forall i | 0 <= i < numberPartitions && i != h ensures PartitionValid(i) {
        assert old(PartitionValid(i));
      }
    }

    /**
     * Lines 96-103 on the array of one partition holding `count` pairs:
     * store a copy of `p` at index `count`, first moving the pairs to a
     * fresh array of twice the size (`realloc`) when the array is full.
     */
    static method Store(a: array<Pair>, count: nat, p: Pair) returns (b: array<Pair>)
      requires count <= a.Length && 0 < a.Length
      modifies a
      ensures count < b.Length
      ensures b[..count + 1] == old(a[..count]) + [p]
      ensures count + 1 > a.Length ==> fresh(b) && b.Length == 2 * a.Length && unchanged(a)
      ensures count + 1 <= a.Length ==> b == a
    {
      b := a;
      if count + 1 > a.Length {
        b := new Pair[2 * a.Length](_ => Pair([], []));
        forall j | 0 <= j < a.Length {
          b[j] := a[j];
        }
      }
      b[count] := p;
      assert b[..count + 1] == old(a[..count]) + [p] by {
        forall j | 0 <= j < count ensures b[j] == old(a[j]) { }
      }
    }

    /**
     * `get_next` (lines 46-55): when the pair at the cursor of partition `n`
     * has key `key`, return its value and advance the cursor by one;
     * otherwise return NULL and leave the cursor alone.
     */
    method GetNext(key: Str, n: nat) returns (value: Option<Str>)
      requires Valid() && n < numberPartitions
      modifies this`numberOfAccess
      ensures Valid()
      ensures old(HasNext(key, n)) ==>
        value == Some(Contents[n][old(numberOfAccess[n])].value) &&
        numberOfAccess == old(numberOfAccess)[n := old(numberOfAccess[n]) + 1]
      ensures !old(HasNext(key, n)) ==> value == None && numberOfAccess == old(numberOfAccess)
    {
      assert PartitionValid(n);
      var num := numberOfAccess[n];
      if num < pairCount[n] && StrCmp(key, partitions[n][num].key) == 0 {
        StrCmpZero(key, partitions[n][num].key);
        value := Some(partitions[n][num].value);
        numberOfAccess := numberOfAccess[n := num + 1];
        assert PartitionValid(n);
        forall i | 0 <= i < numberPartitions && i != n ensures PartitionValid(i) {
          assert old(PartitionValid(i));
        }
      } else {
        if num < pairCount[n] { StrCmpZero(key, partitions[n][num].key); }
        value := None;
      }
    }

    /**
     * One call of the user's reducer on partition `n` with `key`: it pulls
     * values with `GetNext` until NULL (`Drain`) or until it has `limit`
     * of them. It receives the run of `key` at the cursor, cut to what it
     * asks for, and the cursor moves past what it received.
     */
    method InvokeReducer(reducer: Reducer, key: Str, n: nat) returns (call: Call)
      requires Valid() && n < numberPartitions
      modifies this`numberOfAccess
      ensures Valid()
      ensures old(numberOfAccess[n]) + Pulled(Contents[n], old(numberOfAccess[n]), key, reducer) <= |Contents[n]|
      ensures call == Call(key, Values(Contents[n], old(numberOfAccess[n]),
        old(numberOfAccess[n]) + Pulled(Contents[n], old(numberOfAccess[n]), key, reducer)))
      ensures numberOfAccess ==
        old(numberOfAccess)[n := old(numberOfAccess[n]) + Pulled(Contents[n], old(numberOfAccess[n]), key, reducer)]
    {
      assert PartitionValid(n);
      ghost var s, c := Contents[n], numberOfAccess[n];
      var values: seq<Str> := [];
      var done := false;
      while !done && (reducer.Drain? || |values| < reducer.limit)
        invariant Valid() && Contents[n] == s
        invariant c + |values| <= |s|
        invariant numberOfAccess == old(numberOfAccess)[n := c + |values|]
        invariant RunLength(s, c, key) == |values| + RunLength(s, c + |values|, key)
        invariant forall j :: 0 <= j < |values| ==> values[j] == s[c + j].value
        invariant done ==> RunLength(s, c + |values|, key) == 0
        invariant reducer.PullUpTo? ==> |values| <= reducer.limit
        decreases |s| - |values|, !done
      {
        var next := GetNext(key, n);
        match next {
          case Some(v) =>
            RunLengthShift(s, c, key, |values| + 1);
            values := values + [v];
          case None =>
            done := true;
        }
      }
      assert values == Values(s, c, c + |values|);
      call := Call(key, values);
    }

    /**
     * `reducerHelper` (lines 58-66): scan partition `n` and call the reducer
     * at every index the cursor points to, with that pair's key.
     */
    method ReducerHelper(n: nat, reducer: Reducer) returns (calls: seq<Call>)
      requires Valid() && n < numberPartitions
      modifies this`numberOfAccess
      ensures Valid()
      ensures calls == ScanCalls(Contents[n], old(numberOfAccess[n]), reducer)
      ensures numberOfAccess == old(numberOfAccess)[n := ScanCursor(Contents[n], old(numberOfAccess[n]), reducer)]
    {
      assert PartitionValid(n);
      ghost var s, c0 := Contents[n], numberOfAccess[n];
      calls := [];
      for i := 0 to pairCount[n]
        invariant Valid() && Contents[n] == s && |s| == pairCount[n]
        invariant numberOfAccess == old(numberOfAccess)[n := numberOfAccess[n]]
        invariant calls + ScanFrom(s, i, numberOfAccess[n], reducer) == ScanFrom(s, 0, c0, reducer)
        invariant ScanEnd(s, i, numberOfAccess[n], reducer) == ScanEnd(s, 0, c0, reducer)
      {
        if i == numberOfAccess[n] {
          assert PartitionValid(n);
          var key := partitions[n][i].key;
          assert key == s[i].key;
          var call := InvokeReducer(reducer, key, n);
          assert (calls + [call]) + ScanFrom(s, i + 1, numberOfAccess[n], reducer) ==
            calls + ([call] + ScanFrom(s, i + 1, numberOfAccess[n], reducer));
          calls := calls + [call];
        }
      }
      ScanMeaning(s, 0, c0, reducer);
      ScanEndMeaning(s, 0, c0, reducer);
    }

    /**
     * The claim in `mapperHelper` (lines 33-39): hand out the next unclaimed
     * file, or NULL once all are claimed.
     */
    method ClaimNext() returns (name: Option<Str>)
      requires Valid()
      modifies this`filesProc
      ensures Valid()
      ensures old(filesProc) < totalFiles ==>
        name == Some(fileNames[old(filesProc)].name) && filesProc == old(filesProc) + 1
      ensures old(filesProc) >= totalFiles ==> name == None && filesProc == old(filesProc)
    {
      name := None;
      if filesProc < totalFiles {
        name := Some(fileNames[filesProc].name);
        filesProc := filesProc + 1;
      }
    }

    /** `m(filename)`: run the user's map on one file; each pair it emits goes through `Emit`. */
    method MapFile(name: Str, mapper: Mapper)
      requires Valid() && RoutesInRange(partitioner, numberPartitions)
      modifies this, Repr
      ensures Valid() && fresh(Repr - old(Repr))
      ensures RoutedOnto(old(Contents), mapper(name), partitioner, numberPartitions, Contents)
      ensures numberOfAccess == old(numberOfAccess) && filesProc == old(filesProc)
    {
      var emissions := mapper(name);
      RoutedOntoNil(Contents, partitioner, numberPartitions);
      assert emissions[..0] == [];
      for j := 0 to |emissions|
        invariant Valid() && fresh(Repr - old(Repr))
        invariant RoutedOnto(old(Contents), emissions[..j], partitioner, numberPartitions, Contents)
        invariant numberOfAccess == old(numberOfAccess) && filesProc == old(filesProc)
      {
        var p := emissions[j];
        assert InRange(partitioner, p.key, numberPartitions);
        RoutedOntoSnoc(old(Contents), emissions[..j], p, partitioner, numberPartitions, Contents);
        Emit(p.key, p.value);
        assert emissions[..j + 1] == emissions[..j] + [p];
      }
      assert emissions[..|emissions|] == emissions;
    }

    /**
     * `mapperHelper` (lines 31-44): claim files one at a time and map each,
     * until none is left. Every unclaimed file is claimed once, in order,
     * and its emissions are routed to the partitions in that order.
     */
    method MapperHelper(mapper: Mapper) returns (claimed: seq<Str>)
      requires Valid() && RoutesInRange(partitioner, numberPartitions)
      modifies this, Repr
      ensures Valid() && fresh(Repr - old(Repr))
      ensures filesProc == totalFiles
      ensures |claimed| == totalFiles - old(filesProc)
      ensures forall k :: 0 <= k < |claimed| ==> claimed[k] == fileNames[old(filesProc) + k].name
      ensures RoutedOnto(old(Contents), Emitted(fileNames[old(filesProc)..], mapper), partitioner, numberPartitions, Contents)
      ensures numberOfAccess == old(numberOfAccess)
    {
      ghost var f0 := filesProc;
      ghost var unclaimed := fileNames[f0..];
      claimed := [];
      RoutedOntoNil(Contents, partitioner, numberPartitions);
      assert unclaimed[..0] == [];
      while filesProc < totalFiles
        invariant Valid() && fresh(Repr - old(Repr))
        invariant f0 <= filesProc <= totalFiles
        invariant |claimed| == filesProc - f0
        invariant forall k :: 0 <= k < |claimed| ==> claimed[k] == fileNames[f0 + k].name
        invariant RoutedOnto(old(Contents), Emitted(unclaimed[..filesProc - f0], mapper), partitioner, numberPartitions, Contents)
        invariant numberOfAccess == old(numberOfAccess)
        decreases totalFiles - filesProc
      {
        ghost var k := filesProc - f0;
        ghost var mid := Contents;
        var name := ClaimNext();
        if name.Some? {
          MapFile(name.value, mapper);
          claimed := claimed + [name.value];
          EmittedStep(unclaimed, k, mapper);
          RoutedOntoAppend(old(Contents), Emitted(unclaimed[..k], mapper), mid, mapper(unclaimed[k].name),
                           partitioner, numberPartitions, Contents);
        }
      }
      assert unclaimed[..filesProc - f0] == unclaimed;
    }

    /**
     * The partition sort (lines 160-162): sort each partition's pairs in place
     * with `compare`. Each partition ends sorted and holds the same pairs.
     */
    method SortPartitions()
      requires Valid()
      modifies this`Contents, Repr
      ensures Valid()
      ensures |Contents| == numberPartitions
      ensures forall i :: 0 <= i < numberPartitions ==>
        Sorted(Contents[i]) && multiset(Contents[i]) == multiset(old(Contents[i]))
    {
      CompareConsistent();
      for i := 0 to numberPartitions
        invariant Valid()
        invariant forall j :: 0 <= j < i ==>
          Sorted(Contents[j]) && multiset(Contents[j]) == multiset(old(Contents[j]))
        invariant forall j :: i <= j < numberPartitions ==> Contents[j] == old(Contents[j])
      {
        assert PartitionValid(i);
        label Before:
        QSort(partitions[i], pairCount[i], Compare);
        Contents := Contents[i := partitions[i][..pairCount[i]]];
        assert PartitionValid(i);
        forall j | 0 <= j < numberPartitions && j != i ensures PartitionValid(j) {
          assert old@Before(PartitionValid(j));
        }
      }
    }

    /**
     * The reducer threads (lines 164-173): run `reducerHelper` on every
     * partition. Partitions have their own cursors, so the order is immaterial.
     */
    method ReducePhase(reducer: Reducer) returns (traces: seq<seq<Call>>)
      requires Valid()
      modifies this`numberOfAccess
      ensures Valid()
      ensures |traces| == numberPartitions
      ensures forall i :: 0 <= i < numberPartitions ==>
        traces[i] == ScanCalls(Contents[i], old(numberOfAccess[i]), reducer) &&
        numberOfAccess[i] == ScanCursor(Contents[i], old(numberOfAccess[i]), reducer)
    {
      traces := [];
      for i := 0 to numberPartitions
        invariant Valid()
        invariant |traces| == i
        invariant forall j :: 0 <= j < i ==>
          traces[j] == ScanCalls(Contents[j], old(numberOfAccess[j]), reducer) &&
          numberOfAccess[j] == ScanCursor(Contents[j], old(numberOfAccess[j]), reducer)
        invariant forall j :: i <= j < numberPartitions ==> numberOfAccess[j] == old(numberOfAccess[j])
      {
        var calls := ReducerHelper(i, reducer);
        traces := traces + [calls];
      }
    }
  }

  /**
   * `MR_Run` (lines 107-201) with the threads run one after another: set up
   * the store, run the clamped number of mappers, sort every partition and
   * run the reducers. Each partition ends as the sorted arrangement of the
   * pairs routed to it, and the reducer is called on it as the scan
   * prescribes from cursor 0.
   */
  method Run(files: seq<InputFile>, mapper: Mapper, numMappers: nat, reducer: Reducer,
             numReducers: nat, partitioner: Partitioner)
    returns (engine: MapReduce, traces: seq<seq<Call>>)
    requires RoutesInRange(partitioner, numReducers)
    ensures fresh(engine) && engine.Valid() && engine.numberPartitions == numReducers
    ensures multiset(engine.fileNames) == multiset(files) && SizesAscending(engine.fileNames)
    ensures |traces| == numReducers
    ensures forall i :: 0 <= i < numReducers ==>
      Sorted(engine.Contents[i]) &&
      multiset(engine.Contents[i]) ==
        multiset(Routed(if ClampMappers(|files|, numMappers) > 0 then Emitted(engine.fileNames, mapper) else [],
                        partitioner, numReducers, i)) &&
      traces[i] == ScanCalls(engine.Contents[i], 0, reducer)
  {
    engine := new MapReduce(files, numReducers, partitioner);
    var mappers := ClampMappers(|files|, numMappers);
    ghost var emitted := Emitted(engine.fileNames, mapper);
    ghost var empty := NoPairs(numReducers);
    assert engine.Contents == empty;
    RoutedOntoNil(empty, partitioner, numReducers);
    for w := 0 to mappers
      invariant engine.Valid() && fresh(engine.Repr)
      invariant engine.numberPartitions == numReducers && engine.partitioner == partitioner
      invariant forall i :: 0 <= i < numReducers ==> engine.numberOfAccess[i] == 0
      invariant w == 0 ==> engine.filesProc == 0
      invariant w > 0 ==> engine.filesProc == engine.totalFiles
      invariant RoutedOnto(empty, if w > 0 then emitted else [], partitioner, numReducers, engine.Contents)
    {
      ghost var f0, mid := engine.filesProc, engine.Contents;
      ghost var before: seq<Pair> := if w > 0 then emitted else [];
      var _ := engine.MapperHelper(mapper);
      RoutedOntoAppend(empty, before, mid, Emitted(engine.fileNames[f0..], mapper), partitioner, numReducers, engine.Contents);
      if w > 0 {
        assert engine.fileNames[f0..] == [];
        assert before + [] == before;
      } else {
        assert engine.fileNames[f0..] == engine.fileNames;
      }
    }
    ghost var routed: seq<Pair> := if mappers > 0 then emitted else [];
    RoutedOntoEmpty(routed, partitioner, numReducers, engine.Contents);
    engine.SortPartitions();
    traces := engine.ReducePhase(reducer);
  }
}
