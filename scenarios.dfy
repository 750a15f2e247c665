/** Concrete runs on small fixed inputs of src/test/java/algorithms/HeapSortTest.java
    and of the correctness check in src/main/java/cli/BenchmarkRunner.java. */
module Scenarios {
  import opened Metrics
  import opened HeapModel
  import opened Algorithms

  /** [2,1]: `buildMaxHeap` makes one `heapify` call (no swap), the extraction
      loop one swap and one more `heapify` call. */
  lemma TwoOneSortsWithOneSwap()
    ensures HeapSorted([2, 1]) == Run([1, 2], Counters(4, 1, 4))
  {
    var built := BuildMaxHeap(Run([2, 1], NoCounts), 2);
    assert built == Run([2, 1], Counters(2, 0, 0));
    assert SwapAt([2, 1], 0, 1) == [1, 2];
  }

  /** Empty and single-element arrays come back unchanged. */
  lemma EmptyAndSingleton()
    ensures HeapSorted([]).arr == []
    ensures HeapSorted([5]).arr == [5]
  {
    HeapSortKeepsSorted([]);
    HeapSortKeepsSorted([5]);
  }

  /** A caller's view: sort [2,1] and read the metrics, then pass null and
      read them again.  The rejected call leaves the tracker as the earlier
      run left it, because the null check comes before `reset()`. */
  method SortThenRejectNull() returns (sorted: seq<int>, counts: Counters, rejected: SortOutcome, after: Counters)
    ensures sorted == [1, 2] && counts == Counters(4, 1, 4)
    ensures rejected == IllegalArgument(NullArrayMessage)
    ensures after == counts
  {
    var sorter := new HeapSort();
    var a := new int[] [2, 1];
    var outcome := sorter.Sort(a, Sample(1000, 2048), Sample(1500, 4096));
    TwoOneSortsWithOneSwap();
    assert outcome == Done;
    var metrics := sorter.GetMetrics();
    assert metrics.GetTimeNano() == 500 && metrics.GetMemoryUsed() == 2048;
    var isSorted := sorter.IsSorted(a);
    assert isSorted;
    sorted := a[..];
    counts := Counters(metrics.GetComparisons(), metrics.GetSwaps(), metrics.GetArrayAccesses());

    rejected := sorter.Sort(null, Sample(2000, 0), Sample(2100, 0));
    after := Counters(metrics.GetComparisons(), metrics.GetSwaps(), metrics.GetArrayAccesses());
    assert metrics.GetTimeNano() == 500;
  }
}
