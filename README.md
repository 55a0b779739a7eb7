# A verified model of a single-machine MapReduce engine

The model covers `mapreduce.c`, a small MapReduce library. `MR_Run` takes a list of input files, a user map function, a user reduce function, a partitioner and two worker counts. It then does the following:

- it sorts the file names by increasing size;
- it starts mapper threads, which claim files one at a time under a lock and call the map on each;
- each pair that map emits through `MR_Emit` is copied into a growable per-partition array, in the partition chosen by the partitioner;
- once all mappers have joined, it sorts every partition by key and then value with `qsort` and `compare`;
- it starts one reducer thread per partition. Each thread scans its partition and calls the reduce function at every index its read cursor points to. The reducer pulls values with `get_next`, which advances the cursor while the key matches.

The Dafny project is split into modules that follow these pieces:

| module | file | what it models |
|---|---|---|
| `Wrappers` | wrappers.dfy | `Option`, standing for a pointer that may be NULL |
| `CInt` | cint.dfy | conversion of a wide integer into a 32-bit `int` |
| `CString` | cstring.dfy | NUL-free byte strings and `strcmp` |
| `Sorting` | sorting.dfy | `qsort`'s contract on an array prefix |
| `Pairs` | pairs.dfy | key/value pairs, `compare`, and what a sorted partition looks like |
| `Hash` | hash.dfy | `MR_DefaultHashPartition` (djb2, wrapping modulo 2^64) |
| `Scheduler` | scheduler.dfy | `compareFiles` and the size-ordered file list |
| `Routing` | routing.dfy | which pairs end up in which partition |
| `Grouping` | grouping.dfy | the reducer scan and the pull protocol, as functions of the sorted partition |
| `Engine` | engine.dfy | the engine's state as a class, and `MR_Emit`, `get_next`, `reducerHelper`, `mapperHelper` and `MR_Run` as methods on it |

The engine's global state becomes the fields of `Engine.MapReduce`:

- `partitions` is a sequence of arrays;
- `pairCount`, `pairInPartition` and `numberOfAccess` are per-partition counts;
- `filesProc` counts claimed files;
- a ghost `Contents` holds the used prefix of each partition array.

The methods are proved against value-level functions:

- `Routing.Routed` gives the pairs a list of emissions sends to one partition;
- `Grouping.ScanCalls` and `Grouping.ScanCursor` give the reduce calls a scan makes, and where the cursor ends.

Lemmas then prove what those functions mean: routing loses and duplicates nothing; a draining reducer is called once per distinct key, in ascending order, and receives every value.

### What the scan does with a reducer that stops early

It is tempting to read the scan as skipping the rest of a run that a reducer returned without draining. It does not. In `reducerHelper` (lines 60-63) the cursor is left at the first undelivered pair. Once the scan index reaches it, reduce is called again with the same key on the rest of the run:

- `Grouping.UndrainedRunSplits` shows that a run is then split across several calls;
- `Grouping.PullOnceCallsPerPair` shows that a reducer pulling one value per call is called once per pair.

Pairs are left undelivered only by a reducer that pulls nothing. The cursor then stays behind the scan index, and no later index matches it. `Grouping.ScanCalls` models exactly this, and `Engine.MapReduce.ReducerHelper` is proved against it.

## Model

| member | source | states |
|---|---|---|
| CInt.ToInt | mapreduce.c:87 | the result is a 32-bit `int` and congruent to its argument modulo 2^32 |
| CString.StrCmp | mapreduce.c:48 | definition: `strcmp` as the difference of the first differing bytes, or 0 for equal strings; characterised by `CString.StrCmpZero`, `CString.StrCmpSwap` and `CString.StrCmpIsLexicographic` |
| CString.StrCmpSwap | mapreduce.c:72-75 | swapping the arguments of `strcmp` negates its result |
| CString.StrCmpZero | mapreduce.c:48 | `strcmp` is zero exactly when the strings are equal |
| CString.StrCmpTrans | mapreduce.c:72-75 | `strcmp` ordering is transitive (non-strict) |
| CString.StrCmpTransStrict | mapreduce.c:72-75 | `strcmp` strict ordering is transitive |
| CString.StrCmpIsLexicographic | mapreduce.c:72-75 | `strcmp` is negative exactly when the first string is lexicographically smaller (a proper prefix, or smaller at the first difference) |
| Pairs.Compare | mapreduce.c:69-76 | definition: the keys' `strcmp`, or the values' when the keys are equal; characterised by `Pairs.CompareIsLexicographic` and `Pairs.CompareConsistent` |
| Pairs.CompareZero | mapreduce.c:69-76 | `compare` is zero exactly on equal pairs |
| Pairs.CompareSwap | mapreduce.c:69-76 | `compare` is antisymmetric |
| Pairs.CompareTrans | mapreduce.c:69-76 | `compare` is transitive |
| Pairs.CompareKeys | mapreduce.c:69-76 | if `compare` puts one pair no later than another, its key is no greater |
| Pairs.CompareIsLexicographic | mapreduce.c:69-76 | `compare` orders by key and, for equal keys, by value |
| Pairs.CompareConsistent | mapreduce.c:69-76 | `compare` is a total preorder: it never reports both p > q and q > p (what `Sorting.QSort` asks of a comparator), it orders every two pairs one way or the other, and "no greater" is transitive |
| Pairs.SortedPairwise | mapreduce.c:160-162 | in a partition sorted neighbour by neighbour, every earlier pair compares no greater than every later one |
| Pairs.SortedKeysAscending | mapreduce.c:160-162 | keys in a sorted partition are non-decreasing |
| Pairs.SortedKeysContiguous | mapreduce.c:160-162 | in a sorted partition, a key found at two positions is found at every position between them |
| Pairs.SortedFirstIsLeast | mapreduce.c:160-162 | the first pair of a sorted partition compares no greater than any other |
| Pairs.SortedTail | mapreduce.c:160-162 | every suffix of a sorted partition is sorted |
| Pairs.SortedUnique | mapreduce.c:160-162 | two sorted arrangements of the same pairs are equal, so the sorted partition does not depend on `qsort`'s algorithm |
| Sorting.QSort | mapreduce.c:161 | under a consistent comparison, the first `n` elements end sorted and are a permutation of what they were; the rest of the array is unchanged |
| Hash.WrappedHash | mapreduce.c:205-208 | the running hash stays below 2^64 |
| Hash.WrappedHashIsDjb2 | mapreduce.c:205-208 | the wrapping loop equals djb2 (`h*33+c` from 5381) computed on unbounded integers and reduced modulo 2^64 |
| Hash.DefaultPartition | mapreduce.c:209 | the result is below the partition count whenever that count is positive |
| Hash.DefaultHashPartition | mapreduce.c:204-210 | the loop over the key's bytes returns the djb2 hash modulo the partition count (converted to `unsigned long`) |
| Scheduler.CompareFilesAsWritten | mapreduce.c:79-88 | definition: `compareFiles` as written, the size difference converted to `int`; its misordering is `Scheduler.CompareFilesAsWrittenMisorders` |
| Scheduler.CompareFilesAsWrittenMisorders | mapreduce.c:79-88 | as written, the `int` conversion puts a 2 GiB file before an empty one and calls a 4 GiB file equal to it |
| Scheduler.CompareFilesAgreesWithSize | mapreduce.c:78-88 | the corrected comparison has the sign of the size difference |
| Scheduler.SortedBySize | mapreduce.c:146-147 | files sorted under the corrected comparison have non-decreasing sizes |
| Scheduler.ScheduleBySize | mapreduce.c:140-147 | the scheduled files are a permutation of the given ones, smallest first |
| Routing.DefaultPartitioner | mapreduce.c:204-210 | definition: `MR_DefaultHashPartition` as a partitioner value; in range for every key by `Routing.DefaultRoutesInRange` |
| Routing.DefaultRoutesInRange | mapreduce.c:93 | with a positive partition count, the default partitioner sends every key to an existing partition |
| Routing.RoutedBelongs | mapreduce.c:93-103 | every pair routed to partition `i` has a key the partitioner sends to `i`, and was emitted |
| Routing.RoutedAppend | mapreduce.c:93-103 | routing two emission lists in turn is routing their concatenation |
| Routing.RoutedSnoc | mapreduce.c:93-103 | one more emitted pair joins the end of its own partition and of no other |
| Routing.RoutingComplete | mapreduce.c:93-103 | each partition holds each pair routed to it exactly as often as it was emitted, and no other pair |
| Routing.RoutedOntoSnoc | mapreduce.c:93-103 | appending a pair to its partition extends the routing of the emissions by that pair |
| Routing.RoutedOntoAppend | mapreduce.c:31-42 | the routing of two emission lists in turn composes |
| Routing.RoutedOntoEmpty | mapreduce.c:132-138 | routed onto empty partitions, each partition is exactly the pairs routed to it |
| Routing.EmittedStep | mapreduce.c:36-41 | mapping one more claimed file appends its emissions |
| Grouping.RunLengthEnd | mapreduce.c:46-55 | the run of a key from the cursor stops at the end of the partition or at a different key |
| Grouping.RunLengthShift | mapreduce.c:46-55 | after pulling one value the run left is one shorter |
| Grouping.ScanFrom | mapreduce.c:58-66 | definition: the calls the loop makes from index `i` with the cursor at `c`, as written; equal to `Grouping.ScanCalls` by `Grouping.ScanMeaning` |
| Grouping.ScanEnd | mapreduce.c:58-66 | definition: where the loop as written leaves the cursor; equal to `Grouping.ScanCursor` by `Grouping.ScanEndMeaning` |
| Grouping.ScanMeaning | mapreduce.c:58-66 | the loop's calls (at every index equal to the cursor) are the cursor-driven sequence of calls `ScanCalls` |
| Grouping.ScanEndMeaning | mapreduce.c:58-66 | the loop leaves the cursor where `ScanCursor` says |
| Grouping.DeliveriesComplete | mapreduce.c:46-66 | when every call pulls at least one value, the values the calls receive are exactly the partition's values from the cursor on, in order |
| Grouping.DrainCallsAreRuns | mapreduce.c:46-66 | a draining reducer receives exactly one maximal run of a key per call |
| Grouping.DeliveriesCoverKeys | mapreduce.c:46-66 | the keys of the calls are the distinct keys of the sorted partition from the cursor, one each |
| Grouping.DrainKeysAscending | mapreduce.c:46-66 | with a draining reducer on a sorted partition, call keys strictly increase |
| Grouping.DrainScan | mapreduce.c:58-66 | on a sorted partition, reduce is called once per distinct key in ascending order, receives every value, and the cursor ends at the pair count |
| Grouping.UndrainedRunSplits | mapreduce.c:60-63 | a reducer that pulls fewer values than its key's run is called again with the same key on the rest of the run |
| Grouping.PullOnceCallsPerPair | mapreduce.c:60-63 | a reducer that pulls one value per call is called once per pair |
| Engine.ClampMappers | mapreduce.c:109-111 | the number of mappers is reduced to the number of files when it exceeds it |
| Engine.MapReduce.constructor | mapreduce.c:118-147 | every partition starts empty with capacity 1024 and cursor 0, no file is claimed, and the files are the given ones in increasing size order |
| Engine.MapReduce.Emit | mapreduce.c:90-105 | the pair is appended to its partition; that partition's count goes up by one and its capacity doubles exactly when the new count exceeds it; nothing else changes; the store's invariant is kept |
| Engine.MapReduce.Store | mapreduce.c:96-103 | the pair lands at the old count, after the old contents; the array is reused while there is room, and otherwise is replaced by a fresh one of twice the length |
| Engine.MapReduce.GetNext | mapreduce.c:46-55 | when the pair at the cursor has the key, its value is returned and the cursor advances by one; otherwise NULL is returned and nothing changes |
| Engine.MapReduce.InvokeReducer | mapreduce.c:62 | one reduce call receives the run of its key from the cursor, cut to what it pulls, and the cursor advances past it |
| Engine.MapReduce.ReducerHelper | mapreduce.c:58-66 | the scan makes the calls `ScanCalls` gives and leaves the cursor at `ScanCursor`; other partitions' cursors are unchanged |
| Engine.MapReduce.ClaimNext | mapreduce.c:33-39 | the next unclaimed file is handed out and counted; once all are claimed, NULL |
| Engine.MapReduce.MapFile | mapreduce.c:40-41 | every pair the map emits for one file is routed, in order, onto the partitions |
| Engine.MapReduce.MapperHelper | mapreduce.c:31-44 | every unclaimed file is claimed once, in size order, and the emissions of all of them are routed onto the partitions |
| Engine.MapReduce.SortPartitions | mapreduce.c:159-162 | every partition ends sorted and holds the same pairs |
| Engine.MapReduce.ReducePhase | mapreduce.c:164-173 | every partition's scan makes the calls `ScanCalls` gives from its cursor |
| Engine.Run | mapreduce.c:107-173 | each partition ends as a sorted arrangement of exactly the pairs routed to it from the files in size order (none when no mapper runs), and the reducer is called on it as the scan prescribes from cursor 0 |

## Left out

- Threads and mutexes (`pthread_create`, `pthread_join`, both locks): workers run one after another. The first mapper claims every file, and later mappers find none left. Interleavings of concurrent mappers, which decide the order of pairs before the sort, are not modelled.
- The `printf` on a failed `pthread_create` is left out, since thread creation is not modelled.
- `malloc`, `realloc`, `strcpy` and `free` are not modelled as such. Strings are immutable values, so the copies `MR_Emit` makes are plain values. A growing `realloc` is a fresh array holding the old prefix. Allocation failure, which the C code does not check, is not modelled, and neither is the final freeing.
- `stat`: file sizes are inputs (`Scheduler.InputFile.size`). A file whose `stat` fails is not modelled.
- `qsort`'s algorithm: `Sorting.QSort` is an insertion sort that stands for `qsort`'s contract, sorted and a permutation. `Pairs.SortedUnique` shows that the result for a partition does not depend on the algorithm. For files of equal size the order `qsort` picks may differ.
- The user's map, reduce and partition functions are parameters, not code:
  - a map is the list of pairs it emits for a file name;
  - a reducer is either `Drain` (pull until NULL) or `PullUpTo(limit)`. Reducers whose pulling depends on the values received are not modelled;
  - a partitioner is a total function.
- Engine.Run: requires every key to be sent to an existing partition. C indexes outside the partition arrays otherwise. With zero reducers no partitioner meets this, so a run with zero reducers and no emitted pair is not covered either.
- Engine.Run: `num_mappers` and `num_reducers` are natural numbers. Negative counts, which make C's variable-length arrays and `malloc` sizes invalid, are not modelled.
- Engine.MapReduce.Emit: `pairCount` and `pairInPartition` are unbounded. The 32-bit overflow of `int` counts, and of the `realloc` size, is not modelled. The invariant keeps capacity at least 1024 and below twice the count once it has grown. It does not state that capacity is 1024 times a power of two.
- Routing.DefaultPartitioner: with zero partitions C divides by zero. The model yields 0, which is out of range, so the engine never emits through it then.
- Hash.DefaultHashPartition: key bytes are taken as unsigned (1..255). On a platform where `char` is signed, bytes above 127 would be added as negative values.
- Key and value strings cannot contain NUL (`CString.Byte` excludes 0), as in C.
- Scheduler.ScheduleBySize: sorts with the corrected comparison `Scheduler.CompareFiles`, not with `compareFiles` as written (see Findings).

## Findings

| source | as written | input that shows it | evidently intended | confidence | as-written member | corrected member |
|---|---|---|---|---|---|---|
| mapreduce.c:87 | `compareFiles` returns the `long` difference of two sizes converted to `int`, so differences of 2^31 or more wrap | an empty file and a file of 2^31 bytes: the larger compares smaller; a file of 2^32 bytes compares equal to the empty one | the sign of the size difference, so files are sorted by increasing size | high, not executed | Scheduler.CompareFilesAsWrittenMisorders | Scheduler.CompareFiles, Scheduler.ScheduleBySize |
