# Instrumented heap sort, modelled in Dafny

This project models the core of a small Java benchmark: an in-place heap sort over
`int[]` (`HeapSort`) that drives a counter bundle (`PerformanceTracker`) while it runs.
`sort(arr)` rejects a null array. Otherwise it resets the tracker and starts its timer.
It builds a max-heap bottom-up, swaps the root with `arr[i]` and re-heapifies the
prefix `[0, i)` for `i` from `n-1` down to `1`, then stops the timer. Every `heapify`
call counts two comparisons. Every swap counts four array accesses, and its caller
counts one swap.

Files:

- `metrics.dfy`, module `Metrics`: the class `PerformanceTracker`.
  - It has its seven numeric fields.
  - `Reset`, the `Increment*` methods and the timer methods change them in place.
  - The getters are functions that read them.
- `heap_model.dfy`, module `HeapModel`: a value-level mirror of the sort.
  - A `Run` pairs the array contents with the three counters.
  - `SiftDown`, `BuildFrom`/`BuildMaxHeap`, `Extract` and `HeapSorted` do exactly the
    reads, writes and counter bumps of `heapify`, `buildMaxHeap`, the extraction loop
    and `sort`.
  - The lemmas prove what the algorithm promises about these functions.
- `heap_sort.dfy`, module `Algorithms`: the class `HeapSort`.
  - It holds one tracker.
  - `Sort`, `BuildMaxHeap`, `Heapify` and `Swap` work in place on an `array<int>` and
    the tracker.
  - Each method's postcondition equates the new array contents and counters with the
    matching `HeapModel` function.
  - `Sort` also states the final properties outright.
- `scenarios.dfy`, module `Scenarios`: small fixed inputs from the Java test drivers.
  It also has a client that sorts `[2,1]`, reads the metrics and then passes `null`.

Modelling decisions:

- The Java `IllegalArgumentException` for a null array is a `SortOutcome` value
  (`IllegalArgument(message)`). On that path the postcondition says the tracker is
  unchanged, because the null check comes before `reset()`.
- `System.nanoTime()` and the `Runtime` memory readings are not modelled. Their values
  enter as parameters: `StartTimer(now, usedMemory)`, `StopTimer(now, usedMemory)`, and
  the two `Sample`s passed to `Sort`.
- Java `long` counters and `int` indices are unbounded integers here.
- `heapify` counts two comparisons on every call, even at a leaf with no children,
  and the model does the same. So after a sort of
  `n` elements, `comparisons == 2 * (n/2 + swaps)`: there are `n/2` top-level calls in
  `buildMaxHeap`, plus one call for every swap.

## Model

| member | source | states |
|---|---|---|
| `Metrics.PerformanceTracker.constructor` | src/main/java/metrics/PerformanceTracker.java:16-19 | a new tracker has comparisons, swaps and array accesses at 0, and both timestamps and both memory samples at 0 |
| `Metrics.PerformanceTracker.Reset` | src/main/java/metrics/PerformanceTracker.java:21-29 | all seven numeric fields become 0, so elapsed time and memory used read 0 |
| `Metrics.PerformanceTracker.StartTimer` | src/main/java/metrics/PerformanceTracker.java:31-34 | sets the start time and the before-memory sample to the given readings; counters and the end samples unchanged |
| `Metrics.PerformanceTracker.StopTimer` | src/main/java/metrics/PerformanceTracker.java:36-39 | sets the end time and the after-memory sample to the given readings; counters and the start samples unchanged |
| `Metrics.PerformanceTracker.IncrementComparisons` | src/main/java/metrics/PerformanceTracker.java:41-43 | comparisons rises by exactly 1; every other field unchanged |
| `Metrics.PerformanceTracker.IncrementSwaps` | src/main/java/metrics/PerformanceTracker.java:45-47 | swaps rises by exactly 1; every other field unchanged |
| `Metrics.PerformanceTracker.IncrementArrayAccesses` | src/main/java/metrics/PerformanceTracker.java:49-51 | array accesses rises by exactly `count` (so it does not decrease when `count >= 0`); every other field unchanged |
| `Metrics.PerformanceTracker.GetComparisons` | src/main/java/metrics/PerformanceTracker.java:54 | side-effect-free read of the comparisons counter |
| `Metrics.PerformanceTracker.GetSwaps` | src/main/java/metrics/PerformanceTracker.java:55 | side-effect-free read of the swaps counter |
| `Metrics.PerformanceTracker.GetArrayAccesses` | src/main/java/metrics/PerformanceTracker.java:56 | side-effect-free read of the array-access counter |
| `Metrics.PerformanceTracker.GetTimeNano` | src/main/java/metrics/PerformanceTracker.java:57 | elapsed time is the stop reading minus the start reading |
| `Metrics.PerformanceTracker.GetMemoryUsed` | src/main/java/metrics/PerformanceTracker.java:58 | memory used is the after sample minus the before sample |
| `Algorithms.HeapSort.constructor` | src/main/java/algorithms/HeapSort.java:8-10 | a sorter owns a fresh tracker with all counters and samples at zero |
| `Algorithms.HeapSort.GetMetrics` | src/main/java/algorithms/HeapSort.java:12-14 | returns the sorter's own tracker, the same object for the sorter's lifetime |
| `Algorithms.HeapSort.Sort` | src/main/java/algorithms/HeapSort.java:16-34 | null: `IllegalArgument("Input array cannot be null")` and the tracker unchanged; otherwise the array becomes `HeapSorted` of its old contents (sorted, same multiset) and the counters are `HeapSorted`'s, with `arrayAccesses == 4*swaps` and `comparisons == 2*(n/2 + swaps)`; the timestamps and samples are the given readings |
| `Algorithms.HeapSort.BuildMaxHeap` | src/main/java/algorithms/HeapSort.java:36-40 | the array and counters become `HeapModel.BuildMaxHeap` of the old ones; timestamps untouched |
| `Algorithms.HeapSort.Heapify` | src/main/java/algorithms/HeapSort.java:42-62 | the array and counters become `SiftDown` of the old ones; terminates because `largest > i` on recursion |
| `Algorithms.HeapSort.Swap` | src/main/java/algorithms/HeapSort.java:64-69 | exchanges the two positions; array accesses +4; comparisons and swaps unchanged |
| `Algorithms.HeapSort.IsSorted` | src/main/java/algorithms/HeapSort.java:71-78 | returns true iff every adjacent pair is in order; reads only the array |
| `HeapModel.SwapAt` | src/main/java/algorithms/HeapSort.java:64-69 | the exchange keeps the length |
| `HeapModel.SwapAtPermutes` | src/main/java/algorithms/HeapSort.java:64-69 | the exchange swaps the two values, leaves every other position alone and keeps the multiset |
| `HeapModel.CountSwap` | src/main/java/algorithms/HeapSort.java:28-29 | a swap plus `incrementSwaps` adds one swap and keeps comparisons, and keeps `arrayAccesses - 4*swaps` unchanged |
| `HeapModel.Largest` | src/main/java/algorithms/HeapSort.java:43-55 | `largest` is `i` or an in-range child, and its value is at least node `i`'s and each in-range child's; a child wins only when strictly greater than node `i`, and the right child only when strictly greater than the left, so ties keep the earlier candidate |
| `HeapModel.SiftDown` | src/main/java/algorithms/HeapSort.java:42-62 | heapify keeps the array length |
| `HeapModel.SiftDownPermutes` | src/main/java/algorithms/HeapSort.java:42-62 | heapify permutes the array, writes only indices in `[i, n)` (so `arr[n..]` is unchanged), and puts the largest of node `i` and its in-range children at `i` |
| `HeapModel.SiftDownRestoresHeap` | src/main/java/algorithms/HeapSort.java:42-62 | if only node `i` may break the max-heap property on `[lo, n)`, then after heapify the whole of `[lo, n)` is a max-heap |
| `HeapModel.SiftDownHeapifiesSubtree` | src/main/java/algorithms/HeapSort.java:42-62 | if the subtrees rooted at `2i+1` and `2i+2` are max-heaps within `[0, n)`, then after heapify the subtree rooted at `i` is a max-heap |
| `HeapModel.SiftDownRestoresSubtree` | src/main/java/algorithms/HeapSort.java:42-62 | inside the subtree of a node `root`, if only node `i` may break the heap property (and `i`'s parent dominates `i`'s children), heapify at `i` makes the whole subtree of `root` a max-heap |
| `HeapModel.SiftDownCounters` | src/main/java/algorithms/HeapSort.java:42-62 | one heapify adds `2*(1 + swaps added)` comparisons and `4*(swaps added)` array accesses |
| `HeapModel.BuildFrom` | src/main/java/algorithms/HeapSort.java:37-39 | the build loop keeps the array length |
| `HeapModel.BuildMaxHeap` | src/main/java/algorithms/HeapSort.java:36-40 | buildMaxHeap keeps the array length |
| `HeapModel.BuildFromPermutes` | src/main/java/algorithms/HeapSort.java:36-40 | the build loop permutes the array and leaves `arr[n..]` unchanged |
| `HeapModel.BuildFromCounters` | src/main/java/algorithms/HeapSort.java:36-40 | with `k` parents to visit, the loop adds `2*(k + swaps added)` comparisons and `4*(swaps added)` accesses |
| `HeapModel.BuildFromMakesHeap` | src/main/java/algorithms/HeapSort.java:36-40 | heapifying nodes `k-1` down to `0` over a heap on `[k, n)` gives a max-heap on `[0, n)` |
| `HeapModel.BuildMaxHeapProperties` | src/main/java/algorithms/HeapSort.java:36-40 | afterwards every parent in `[0, n)` is at least its in-range children, `arr[0]` is the maximum of `arr[0..n)`, and `arr[n..]` is untouched |
| `HeapModel.HeapRootIsMax` | src/main/java/algorithms/HeapSort.java:27-28 | in a max-heap of size `n` every element is at most the root, which is why the root is swapped to the end |
| `HeapModel.Extract` | src/main/java/algorithms/HeapSort.java:27-31 | the extraction loop keeps the array length |
| `HeapModel.ExtractStep` | src/main/java/algorithms/HeapSort.java:27-31 | one iteration keeps the loop invariant: `arr[0..i+1)` a max-heap, `arr[i+1..n)` sorted, and prefix ≤ suffix, now with `i` one smaller |
| `HeapModel.SwapRootKeepsOrder` | src/main/java/algorithms/HeapSort.java:28 | swapping the root with `arr[i]` extends the sorted suffix by one and leaves a heap on `[0, i)` except at the root |
| `HeapModel.SiftDownKeepsOrder` | src/main/java/algorithms/HeapSort.java:30 | re-heapifying `[0, i)` restores the heap and keeps the sorted suffix and the prefix ≤ suffix order |
| `HeapModel.ExtractSorts` | src/main/java/algorithms/HeapSort.java:27-31 | from the loop invariant, the loop ends with the whole array sorted |
| `HeapModel.ExtractPermutes` | src/main/java/algorithms/HeapSort.java:27-31 | the extraction loop permutes the array |
| `HeapModel.ExtractCounters` | src/main/java/algorithms/HeapSort.java:27-31 | each iteration adds one swap of its own (at least `i` swaps in all), comparisons `2*(swaps added)` and accesses `4*(swaps added)` |
| `HeapModel.HeapSorted` | src/main/java/algorithms/HeapSort.java:16-34 | sort keeps the array length |
| `HeapModel.HeapSortSorts` | src/main/java/algorithms/HeapSort.java:16-34 | after sort the array is in non-decreasing order |
| `HeapModel.HeapSortPermutes` | src/main/java/algorithms/HeapSort.java:16-34 | sort keeps the length and the multiset of values |
| `HeapModel.HeapSortCounters` | src/main/java/algorithms/HeapSort.java:16-34 | after sort, `arrayAccesses == 4*swaps`, `comparisons == 2*(n/2 + swaps)` (so even), `swaps >= n-1` and `swaps >= 0` |
| `HeapModel.SortedIffNonDecreasing` | src/main/java/algorithms/HeapSort.java:71-78 | the adjacent-pair test that isSorted performs holds iff every pair of positions is in order, so empty and one-element arrays are sorted |
| `HeapModel.SortedPermutationUnique` | src/test/java/algorithms/HeapSortTest.java:25-125 | two sorted sequences with the same multiset are equal, so the expected outputs of the tests are determined by their inputs |
| `HeapModel.HeapSortResult` | src/test/java/algorithms/HeapSortTest.java:25-125 | any sorted permutation of the input is exactly what sort produces |
| `HeapModel.HeapSortKeepsSorted` | src/test/java/algorithms/HeapSortTest.java:53-65 | sorting an already sorted (or all-equal) array gives back the same values |
| `Scenarios.TwoOneSortsWithOneSwap` | src/main/java/cli/BenchmarkRunner.java:111 | `[2,1]` sorts to `[1,2]` with 4 comparisons, 1 swap and 4 array accesses |
| `Scenarios.EmptyAndSingleton` | src/test/java/algorithms/HeapSortTest.java:25-51 | `[]` and `[5]` come back unchanged |
| `Scenarios.SortThenRejectNull` | src/test/java/algorithms/HeapSortTest.java:127-140 | after sorting `[2,1]` to `[1,2]` with counters (4, 1, 4), `sort(null)` on the same sorter gives `IllegalArgument("Input array cannot be null")` and the counters stay (4, 1, 4) |

## Left out

- `System.nanoTime()` and `Runtime.getRuntime()` in `startTimer`/`stopTimer`: foreign calls. Their readings are parameters of `StartTimer`, `StopTimer` and `Sort`.
- `printMetrics` and the tracker's `algorithmName`: console output and a label used only for it.
- `src/main/java/cli/BenchmarkRunner.java`: argument dispatch, random array generation, console formatting in floating point, and CSV export. Its fixed correctness inputs are used only as concrete cases.
- `src/test/java/algorithms/HeapSortTest.java` as code: a console test driver. Its inputs appear as `Scenarios` lemmas.
  - The longer literal inputs (`[3,1,4,1,5,9,2,6]`, `[9,8,...,1]`, the five-element sorted, reversed and all-equal arrays) are not restated one by one.
  - `HeapModel.HeapSortResult` and `HeapModel.HeapSortKeepsSorted` cover each of them for every input.
- Java overflow: `long` counter wrap-around and `int` overflow of `2*i+1` on arrays near `Integer.MAX_VALUE` elements. Integers here are unbounded.
- `Algorithms.HeapSort.IsSorted` takes a non-null array. `isSorted(null)` in Java throws a `NullPointerException`, which is not a designed error path.
- Exceptions other than the null check (for example, an out-of-memory error in the middle of a sort) are not modelled.
