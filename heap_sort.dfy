/** The instrumented in-place heap sort of src/main/java/algorithms/HeapSort.java.

    Each method works on the array in place and drives the instance's tracker as
    the Java code does; its postcondition equates the new array contents and
    counters with the function of the same name in module HeapModel, where the
    sorting properties are proved.
 */
module Algorithms {
  import opened Metrics
  import opened HeapModel

  /** One reading of the runtime clock (nanoseconds) and of the used heap memory. */
  datatype Sample = Sample(nanoTime: int, usedMemory: int)

  /** How `sort` ends: normally, or with the IllegalArgumentException it throws
      for a null array. */
  datatype SortOutcome = Done | IllegalArgument(message: string)

  const NullArrayMessage := "Input array cannot be null"

  class HeapSort {
    const metrics: PerformanceTracker

    /** A sorter owns a fresh tracker whose counters are all zero. */
    constructor ()
      ensures fresh(metrics)
      ensures metrics.Counts() == NoCounts && metrics.Clock() == NoTiming
    {
      metrics := new PerformanceTracker();
    }

    /** The tracker this sorter drives; it is the same object for the sorter's lifetime. */
    function GetMetrics(): (t: PerformanceTracker)
      ensures t == metrics
    {
      metrics
    }

    /** `sort(arr)`: a null array is rejected before the tracker is touched;
        otherwise the tracker is reset, the timer started, the array sorted in
        place and the timer stopped.  `start` and `stop` are the clock and
        memory readings the runtime would supply. */
    method Sort(arr: array?<int>, start: Sample, stop: Sample) returns (outcome: SortOutcome)
      modifies arr, metrics
      ensures arr == null ==> outcome == IllegalArgument(NullArrayMessage) && unchanged(metrics)
      ensures arr != null ==> outcome == Done
      ensures arr != null ==> Run(arr[..], metrics.Counts()) == HeapSorted(old(arr[..]))
      ensures arr != null ==> Sorted(arr[..]) && multiset(arr[..]) == multiset(old(arr[..]))
      ensures arr != null ==> metrics.arrayAccesses == 4 * metrics.swaps
      ensures arr != null ==> metrics.comparisons == 2 * (arr.Length / 2 + metrics.swaps)
      ensures arr != null ==>
        metrics.Clock() == Timing(start.nanoTime, stop.nanoTime, start.usedMemory, stop.usedMemory)
    {
      if arr == null {
        return IllegalArgument(NullArrayMessage);
      }

      metrics.Reset();
      metrics.StartTimer(start.nanoTime, start.usedMemory);
      ghost var input := arr[..];

      var n := arr.Length;
      BuildMaxHeap(arr, n);
      ghost var heap := Run(arr[..], metrics.Counts());

      var i := n - 1;
      while i > 0
        invariant -1 <= i < n
        invariant Extract(Run(arr[..], metrics.Counts()), i) == Extract(heap, n - 1)
        invariant metrics.Clock() == Timing(start.nanoTime, 0, start.usedMemory, 0)
      {
        ghost var here := Run(arr[..], metrics.Counts());
        Swap(arr, 0, i);
        metrics.IncrementSwaps();
        assert Run(arr[..], metrics.Counts()) == Run(SwapAt(here.arr, 0, i), CountSwap(here.counters));
        Heapify(arr, i, 0);
        i := i - 1;
      }

      assert Run(arr[..], metrics.Counts()) == HeapSorted(input);
      assert Sorted(arr[..]) && multiset(arr[..]) == multiset(input) by {
        HeapSortSorts(input);
        HeapSortPermutes(input);
      }
      assert metrics.arrayAccesses == 4 * metrics.swaps
          && metrics.comparisons == 2 * (n / 2 + metrics.swaps) by {
        HeapSortCounters(input);
      }
      metrics.StopTimer(stop.nanoTime, stop.usedMemory);
      return Done;
    }

    /** `buildMaxHeap(arr, n)`: sift down every parent, from n/2-1 down to 0. */
    method BuildMaxHeap(arr: array<int>, n: int)
      requires 0 <= n <= arr.Length
      modifies arr, metrics
      ensures Run(arr[..], metrics.Counts())
                == HeapModel.BuildMaxHeap(Run(old(arr[..]), old(metrics.Counts())), n)
      ensures metrics.Clock() == old(metrics.Clock())
    {
      ghost var goal := HeapModel.BuildMaxHeap(Run(arr[..], metrics.Counts()), n);
      var i := n / 2 - 1;
      while i >= 0
        invariant -1 <= i < n / 2
        invariant BuildFrom(Run(arr[..], metrics.Counts()), n, i + 1) == goal
        invariant metrics.Clock() == old(metrics.Clock())
      {
        ghost var here := Run(arr[..], metrics.Counts());
        assert BuildFrom(here, n, i + 1) == BuildFrom(SiftDown(here, n, i), n, i);
        Heapify(arr, n, i);
        i := i - 1;
      }
    }

    /** `heapify(arr, n, i)`: the recursive sift-down of node i within arr[..n]. */
    method Heapify(arr: array<int>, n: int, i: int)
      requires 0 <= i < n <= arr.Length
      modifies arr, metrics
      ensures Run(arr[..], metrics.Counts()) == SiftDown(Run(old(arr[..]), old(metrics.Counts())), n, i)
      ensures metrics.Clock() == old(metrics.Clock())
      decreases n - i
    {
      ghost var before := Run(arr[..], metrics.Counts());
      var largest := i;
      var left := 2 * i + 1;
      var right := 2 * i + 2;

      metrics.IncrementComparisons();
      if left < n && arr[left] > arr[largest] {
        largest := left;
      }

      metrics.IncrementComparisons();
      if right < n && arr[right] > arr[largest] {
        largest := right;
      }

      ghost var counted := before.counters.(comparisons := before.counters.comparisons + 2);
      assert largest == Largest(before.arr, n, i);
      assert metrics.Counts() == counted;
      if largest != i {
        Swap(arr, i, largest);
        metrics.IncrementSwaps();
        assert Run(arr[..], metrics.Counts()) == Run(SwapAt(before.arr, i, largest), CountSwap(counted));
        Heapify(arr, n, largest);
      }
    }

    /** `swap(arr, i, j)`: exchanges two elements and counts four array accesses. */
    method Swap(arr: array<int>, i: int, j: int)
      requires 0 <= i < arr.Length && 0 <= j < arr.Length
      modifies arr, metrics
      ensures arr[..] == SwapAt(old(arr[..]), i, j)
      ensures metrics.arrayAccesses == old(metrics.arrayAccesses) + 4
      ensures metrics.comparisons == old(metrics.comparisons) && metrics.swaps == old(metrics.swaps)
      ensures metrics.Clock() == old(metrics.Clock())
    {
      var temp := arr[i];
      arr[i] := arr[j];
      arr[j] := temp;
      metrics.IncrementArrayAccesses(4);
    }

    /** `isSorted(arr)`: true exactly when every adjacent pair is in order; it
        reads the array only and leaves the tracker alone. */
    method IsSorted(arr: array<int>) returns (sorted: bool)
      ensures sorted <==> Sorted(arr[..])
    {
      var i := 0;
      while i < arr.Length - 1
        invariant 0 <= i <= if arr.Length == 0 then 0 else arr.Length - 1
        invariant forall k :: 0 <= k < i ==> arr[k] <= arr[k + 1]
      {
        if arr[i] > arr[i + 1] {
          return false;
        }
        i := i + 1;
      }
      return true;
    }
  }
}
