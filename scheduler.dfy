/**
 * The order in which input files are handed to mappers (mapreduce.c:78-88,
 * 140-147): the file names are sorted by increasing size with `qsort`.
 * File sizes are inputs here; the `stat` calls that read them are not modelled.
 */
module Scheduler {
  import opened CString
  import opened Sorting
  import opened CInt

  /** An input file: its path and the size `stat` reports for it. */
  datatype InputFile = InputFile(name: Str, size: nat)

  /** `compareFiles` as written: the size difference, returned through an `int`. */
  function CompareFilesAsWritten(f1: InputFile, f2: InputFile): int
  {
    ToInt(f1.size - f2.size)
  }

  /**
   * The truncation shows for files that differ by 2 GiB or more: a 2 GiB
   * file is reported smaller than an empty one, and a 4 GiB file equal to
   * it, so an order `qsort` may return under it puts the larger file first.
   */
  lemma CompareFilesAsWrittenMisorders()
    ensures var empty, twoGiB, fourGiB := InputFile([97], 0), InputFile([98], 0x8000_0000), InputFile([99], 0x1_0000_0000);
      twoGiB.size > empty.size && CompareFilesAsWritten(twoGiB, empty) < 0 &&
      fourGiB.size > empty.size && CompareFilesAsWritten(fourGiB, empty) == 0 &&
      SortedBy([twoGiB, empty], CompareFilesAsWritten) && !SizesAscending([twoGiB, empty])
  {
    var empty, twoGiB := InputFile([97], 0), InputFile([98], 0x8000_0000);
    assert InOrder([twoGiB, empty], 1, CompareFilesAsWritten);
  }

  /** The comparison `compareFiles` evidently intends: the sign of the size difference. */
  function CompareFiles(f1: InputFile, f2: InputFile): int
  {
    if f1.size < f2.size then -1 else if f1.size > f2.size then 1 else 0
  }

  /** `CompareFiles` orders files exactly as their sizes are ordered. */
  lemma CompareFilesAgreesWithSize(f1: InputFile, f2: InputFile)
    ensures CompareFiles(f1, f2) < 0 <==> f1.size < f2.size
    ensures CompareFiles(f1, f2) == 0 <==> f1.size == f2.size
    ensures CompareFiles(f1, f2) > 0 <==> f1.size > f2.size
  {
  }

  /** Files are in increasing order of size, each pair of positions compared. */
  ghost predicate SizesAscending(s: seq<InputFile>)
  {
    forall i, j :: 0 <= i <= j < |s| ==> s[i].size <= s[j].size
  }

  /** Sorted under `CompareFiles`, neighbour by neighbour, is ascending by size. */
  lemma {:induction false} SortedBySize(s: seq<InputFile>)
    requires SortedBy(s, CompareFiles)
    ensures SizesAscending(s)
    decreases |s|
  {
    if |s| > 1 {
      var p := s[..|s| - 1];
      assert SortedBy(p, CompareFiles) by {
        forall k | 0 < k < |p| ensures InOrder(p, k, CompareFiles) {
          assert InOrder(s, k, CompareFiles);
          assert p[k - 1] == s[k - 1] && p[k] == s[k];
        }
      }
      SortedBySize(p);
      assert InOrder(s, |s| - 1, CompareFiles);
      forall i, j | 0 <= i <= j < |s| ensures s[i].size <= s[j].size {
        if j == |s| - 1 && i < j {
          assert s[i].size <= s[|s| - 2].size by { assert p[i] == s[i] && p[|s| - 2] == s[|s| - 2]; }
        } else if j < |s| - 1 {
          assert p[i] == s[i] && p[j] == s[j];
        }
      }
    }
  }

  /**
   * Lines 140-147: copy the names into a buffer and sort it with the
   * corrected comparison. The result is the given files, smallest first.
   */
  method ScheduleBySize(files: seq<InputFile>) returns (order: seq<InputFile>)
    ensures multiset(order) == multiset(files)
    ensures SizesAscending(order)
  {
    var buffer := new InputFile[|files|](i requires 0 <= i < |files| => files[i]);
    assert buffer[..|files|] == files;
    assert Consistent(CompareFiles);
    QSort(buffer, |files|, CompareFiles);
    assert buffer[..|files|] == buffer[..];
    order := buffer[..];
    SortedBySize(order);
  }
}
