/** A value-level mirror of the heap sort in src/main/java/algorithms/HeapSort.java.

    A `Run` pairs the array contents with the tracker's three counters, and each
    function below performs exactly the reads, writes and counter bumps of the
    Java routine of the same name.  The imperative methods in module Algorithms
    are proved to compute these functions; the lemmas here prove what the
    algorithm promises: a sorted permutation, heap shape after every phase, and
    exact relations between the counters.
 */
module HeapModel {
  import opened Metrics

  /** Array contents together with the counters of the tracker driving the run. */
  datatype Run = Run(arr: seq<int>, counters: Counters)

  // ---------------------------------------------------------------------------
  // Orders and heap shape
  // ---------------------------------------------------------------------------

  /** Every adjacent pair is in order: the test `isSorted` performs. */
  ghost predicate Sorted(s: seq<int>) {
    forall k :: 0 <= k < |s| - 1 ==> s[k] <= s[k + 1]
  }

  /** Every pair of positions in [lo, hi) is in order. */
  ghost predicate NonDecreasing(s: seq<int>, lo: int, hi: int) {
    forall a, b :: 0 <= lo <= a < b < hi <= |s| ==> s[a] <= s[b]
  }

  /** Every element of s[..h] is at most every element of s[h..]. */
  ghost predicate Partitioned(s: seq<int>, h: int) {
    forall a, b :: 0 <= a < h <= b < |s| ==> s[a] <= s[b]
  }

  /** Node k of the heap s[..n] is at least each of its children inside the heap. */
  ghost predicate ParentOk(s: seq<int>, n: int, k: int) {
    0 <= k && n <= |s| &&
    (2 * k + 1 < n ==> s[2 * k + 1] <= s[k]) &&
    (2 * k + 2 < n ==> s[2 * k + 2] <= s[k])
  }

  /** The max-heap property holds at every node in [lo, n). */
  ghost predicate HeapFrom(s: seq<int>, lo: int, n: int) {
    forall k :: lo <= k < n ==> ParentOk(s, n, k)
  }

  /** The max-heap property holds at every node in [lo, n) except possibly i. */
  ghost predicate HeapExcept(s: seq<int>, lo: int, n: int, i: int) {
    forall k :: lo <= k < n && k != i ==> ParentOk(s, n, k)
  }

  /** k lies in the subtree rooted at node `root`: k is root or a child of a
      node in that subtree. */
  ghost predicate InSubtree(root: int, k: int)
    decreases k
  {
    k == root || (0 <= root < k && InSubtree(root, (k - 1) / 2))
  }

  /** The max-heap property holds at every node of the subtree of `root`
      inside s[..n]. */
  ghost predicate SubtreeHeap(s: seq<int>, root: int, n: int) {
    forall k :: root <= k < n && InSubtree(root, k) ==> ParentOk(s, n, k)
  }

  /** The same, except possibly at node i. */
  ghost predicate SubtreeHeapExcept(s: seq<int>, root: int, n: int, i: int) {
    forall k :: root <= k < n && InSubtree(root, k) && k != i ==> ParentOk(s, n, k)
  }

  /** When i is below lo, the parent of i dominates the children of i: what
      sift-down needs to hold at the node it is moving down from. */
  ghost predicate ParentDominatesChildren(s: seq<int>, lo: int, n: int, i: int) {
    0 <= lo < i && n <= |s| ==>
      (2 * i + 1 < n ==> s[2 * i + 1] <= s[(i - 1) / 2]) &&
      (2 * i + 2 < n ==> s[2 * i + 2] <= s[(i - 1) / 2])
  }

  // ---------------------------------------------------------------------------
  // The operations
  // ---------------------------------------------------------------------------

  /** The exchange performed by `swap` (HeapSort.java:64-69). */
  function SwapAt(s: seq<int>, i: int, j: int): (t: seq<int>)
    requires 0 <= i < |s| && 0 <= j < |s|
    ensures |t| == |s|
  {
    s[i := s[j]][j := s[i]]
  }

  /** The counters after `swap` and the caller's `incrementSwaps`: one more
      swap, four more array accesses, so the balance between accesses and
      four times the swaps is kept. */
  function CountSwap(c: Counters): (d: Counters)
    ensures d.swaps == c.swaps + 1 && d.comparisons == c.comparisons
    ensures d.arrayAccesses - 4 * d.swaps == c.arrayAccesses - 4 * c.swaps
  {
    c.(swaps := c.swaps + 1, arrayAccesses := c.arrayAccesses + 4)
  }

  /** The index `heapify` picks as `largest` (HeapSort.java:43-55): the largest
      of node i and its children inside s[..n], with ties kept by the earlier
      candidate. */
  function Largest(s: seq<int>, n: int, i: int): (m: int)
    requires 0 <= i < n <= |s|
    ensures m == i || (m == 2 * i + 1 && m < n) || (m == 2 * i + 2 && m < n)
    ensures s[m] >= s[i]
    ensures 2 * i + 1 < n ==> s[m] >= s[2 * i + 1]
    ensures 2 * i + 2 < n ==> s[m] >= s[2 * i + 2]
    ensures m != i ==> s[i] < s[m]
    ensures m == 2 * i + 2 ==> s[2 * i + 1] < s[m]
  {
    var left, right := 2 * i + 1, 2 * i + 2;
    var m := if left < n && s[left] > s[i] then left else i;
    if right < n && s[right] > s[m] then right else m
  }

  /** `heapify(arr, n, i)` (HeapSort.java:42-62): two comparisons counted on
      every call, then a swap with the larger child and a recursive call when
      node i is not already the largest. */
  function SiftDown(r: Run, n: int, i: int): (out: Run)
    requires 0 <= i < n <= |r.arr|
    ensures |out.arr| == |r.arr|
    decreases n - i
  {
    var c := r.counters.(comparisons := r.counters.comparisons + 2);
    var m := Largest(r.arr, n, i);
    if m == i then Run(r.arr, c)
    else SiftDown(Run(SwapAt(r.arr, i, m), CountSwap(c)), n, m)
  }

  /** The loop of `buildMaxHeap` (HeapSort.java:37-39) with k nodes left to
      visit: it sifts down node k-1, then nodes k-2 .. 0. */
  function BuildFrom(r: Run, n: int, k: int): (out: Run)
    requires 0 <= k <= n <= |r.arr|
    ensures |out.arr| == |r.arr|
    decreases k
  {
    if k == 0 then r else BuildFrom(SiftDown(r, n, k - 1), n, k - 1)
  }

  /** `buildMaxHeap(arr, n)` (HeapSort.java:36-40): sift down from n/2-1 to 0. */
  function BuildMaxHeap(r: Run, n: int): (out: Run)
    requires 0 <= n <= |r.arr|
    ensures |out.arr| == |r.arr|
  {
    BuildFrom(r, n, n / 2)
  }

  /** The extraction loop of `sort` (HeapSort.java:27-31) from index i down to 1:
      swap the root with position i, then sift the root down over s[..i]. */
  function Extract(r: Run, i: int): (out: Run)
    requires i < |r.arr|
    ensures |out.arr| == |r.arr|
    decreases i
  {
    if i <= 0 then r
    else Extract(SiftDown(Run(SwapAt(r.arr, 0, i), CountSwap(r.counters)), i, 0), i - 1)
  }

  /** The whole of `sort` on a non-null array, from the freshly reset counters. */
  function HeapSorted(s: seq<int>): (out: Run)
    ensures |out.arr| == |s|
  {
    Extract(BuildMaxHeap(Run(s, NoCounts), |s|), |s| - 1)
  }

  // ---------------------------------------------------------------------------
  // Only exchanges: permutation and frame
  // ---------------------------------------------------------------------------

  /** `swap` exchanges the two positions and leaves every other one alone, so
      the multiset of values is unchanged. */
  lemma SwapAtPermutes(s: seq<int>, i: int, j: int)
    requires 0 <= i < |s| && 0 <= j < |s|
    ensures SwapAt(s, i, j)[i] == s[j] && SwapAt(s, i, j)[j] == s[i]
    ensures forall k :: 0 <= k < |s| && k != i && k != j ==> SwapAt(s, i, j)[k] == s[k]
    ensures multiset(SwapAt(s, i, j)) == multiset(s)
  {
  }

  /** `heapify(arr, n, i)` permutes the array, writes only positions in [i, n),
      and leaves at position i the largest of node i and its in-heap children. */
  lemma {:induction false} SiftDownPermutes(r: Run, n: int, i: int)
    requires 0 <= i < n <= |r.arr|
    ensures multiset(SiftDown(r, n, i).arr) == multiset(r.arr)
    ensures forall k :: 0 <= k < |r.arr| && (k < i || n <= k) ==> SiftDown(r, n, i).arr[k] == r.arr[k]
    ensures SiftDown(r, n, i).arr[i] == r.arr[Largest(r.arr, n, i)]
    decreases n - i
  {
    var m := Largest(r.arr, n, i);
    if m != i {
      var c := r.counters.(comparisons := r.counters.comparisons + 2);
      var t := SwapAt(r.arr, i, m);
      var out := SiftDown(Run(t, CountSwap(c)), n, m);
      assert SiftDown(r, n, i) == out;
      SwapAtPermutes(r.arr, i, m);
      SiftDownPermutes(Run(t, CountSwap(c)), n, m);
      forall k | 0 <= k < |r.arr| && (k < i || n <= k)
        ensures out.arr[k] == r.arr[k]
      {
        assert out.arr[k] == t[k];
      }
      assert out.arr[i] == t[i];
    }
  }

  /** `buildMaxHeap` permutes the array and leaves arr[n..] alone. */
  lemma {:induction false} BuildFromPermutes(r: Run, n: int, k: int)
    requires 0 <= k <= n <= |r.arr|
    ensures multiset(BuildFrom(r, n, k).arr) == multiset(r.arr)
    ensures forall j :: n <= j < |r.arr| ==> BuildFrom(r, n, k).arr[j] == r.arr[j]
    decreases k
  {
    if k > 0 {
      SiftDownPermutes(r, n, k - 1);
      BuildFromPermutes(SiftDown(r, n, k - 1), n, k - 1);
    }
  }

  /** The extraction loop permutes the array. */
  lemma {:induction false} ExtractPermutes(r: Run, i: int)
    requires i < |r.arr|
    ensures multiset(Extract(r, i).arr) == multiset(r.arr)
    decreases i
  {
    if i > 0 {
      var r' := Run(SwapAt(r.arr, 0, i), CountSwap(r.counters));
      SwapAtPermutes(r.arr, 0, i);
      SiftDownPermutes(r', i, 0);
      ExtractPermutes(SiftDown(r', i, 0), i - 1);
    }
  }

  // ---------------------------------------------------------------------------
  // Counter arithmetic
  // ---------------------------------------------------------------------------

  /** Swaps counted by a run segment: out minus r. */
  function SwapsAdded(r: Run, out: Run): int {
    out.counters.swaps - r.counters.swaps
  }

  /** Every swap adds 4 array accesses, and every `heapify` call adds 2
      comparisons; a `heapify` call makes one more call per swap it performs. */
  lemma {:induction false} SiftDownCounters(r: Run, n: int, i: int)
    requires 0 <= i < n <= |r.arr|
    ensures var out := SiftDown(r, n, i);
      SwapsAdded(r, out) >= 0 &&
      out.counters.comparisons - r.counters.comparisons == 2 * (1 + SwapsAdded(r, out)) &&
      out.counters.arrayAccesses - r.counters.arrayAccesses == 4 * SwapsAdded(r, out)
    decreases n - i
  {
    var m := Largest(r.arr, n, i);
    if m != i {
      var c := r.counters.(comparisons := r.counters.comparisons + 2);
      SiftDownCounters(Run(SwapAt(r.arr, i, m), CountSwap(c)), n, m);
    }
  }

  /** `buildMaxHeap` with k nodes to visit makes k top-level `heapify` calls,
      each costing 2 comparisons plus 2 per swap below it. */
  lemma {:induction false} BuildFromCounters(r: Run, n: int, k: int)
    requires 0 <= k <= n <= |r.arr|
    ensures var out := BuildFrom(r, n, k);
      SwapsAdded(r, out) >= 0 &&
      out.counters.comparisons - r.counters.comparisons == 2 * (k + SwapsAdded(r, out)) &&
      out.counters.arrayAccesses - r.counters.arrayAccesses == 4 * SwapsAdded(r, out)
    decreases k
  {
    if k > 0 {
      SiftDownCounters(r, n, k - 1);
      BuildFromCounters(SiftDown(r, n, k - 1), n, k - 1);
    }
  }

  /** Each extraction iteration adds exactly one swap of its own plus the swaps
      of its `heapify` call, and one `heapify` call. */
  lemma {:induction false} ExtractCounters(r: Run, i: int)
    requires i < |r.arr|
    ensures var out := Extract(r, i);
      SwapsAdded(r, out) >= (if i > 0 then i else 0) &&
      out.counters.comparisons - r.counters.comparisons == 2 * SwapsAdded(r, out) &&
      out.counters.arrayAccesses - r.counters.arrayAccesses == 4 * SwapsAdded(r, out)
    decreases i
  {
    if i > 0 {
      var r' := Run(SwapAt(r.arr, 0, i), CountSwap(r.counters));
      SiftDownCounters(r', i, 0);
      ExtractCounters(SiftDown(r', i, 0), i - 1);
    }
  }

  // ---------------------------------------------------------------------------
  // Sift-down restores the heap
  // ---------------------------------------------------------------------------

  /** Sift-down at i repairs the one node that may violate the heap property:
      if every node of [lo, n) other than i is heap-ordered (and i's parent
      dominates i's children when i is below lo), then afterwards all of
      [lo, n) is. */
  lemma {:induction false} SiftDownRestoresHeap(r: Run, lo: int, n: int, i: int)
    requires 0 <= lo <= i < n <= |r.arr|
    requires HeapExcept(r.arr, lo, n, i)
    requires ParentDominatesChildren(r.arr, lo, n, i)
    ensures HeapFrom(SiftDown(r, n, i).arr, lo, n)
    decreases n - i
  {
    var s := r.arr;
    var m := Largest(s, n, i);
    if m == i {
      assert ParentOk(s, n, i);
    } else {
      var c := r.counters.(comparisons := r.counters.comparisons + 2);
      var r' := Run(SwapAt(s, i, m), CountSwap(c));
      SwapDownMovesViolation(s, lo, n, i);
      SiftDownRestoresHeap(r', lo, n, m);
    }
  }

  /** Exchanging node i with its larger child m moves the only possible
      violation of the heap property from i down to m. */
  lemma SwapDownMovesViolation(s: seq<int>, lo: int, n: int, i: int)
    requires 0 <= lo <= i < n <= |s|
    requires HeapExcept(s, lo, n, i)
    requires ParentDominatesChildren(s, lo, n, i)
    requires Largest(s, n, i) != i
    ensures var t := SwapAt(s, i, Largest(s, n, i));
      HeapExcept(t, lo, n, Largest(s, n, i)) && ParentDominatesChildren(t, lo, n, Largest(s, n, i))
  {
    var m := Largest(s, n, i);
    var t := SwapAt(s, i, m);
    forall k | lo <= k < n && k != m
      ensures ParentOk(t, n, k)
    {
      if k == i {
      } else if 2 * k + 1 == i || 2 * k + 2 == i {
        assert k == (i - 1) / 2;
        assert ParentOk(s, n, k);
      } else {
        assert ParentOk(s, n, k);
      }
    }
    assert (m - 1) / 2 == i;
    assert ParentOk(s, n, m);
  }

  /** The subtree form of `heapify`'s promise: when the subtrees rooted at
      the two children of i are max-heaps within s[..n], after the sift-down
      the subtree rooted at i is one.  Nothing is assumed about nodes outside
      i's subtree. */
  lemma SiftDownHeapifiesSubtree(r: Run, n: int, i: int)
    requires 0 <= i < n <= |r.arr|
    requires 2 * i + 1 < n ==> SubtreeHeap(r.arr, 2 * i + 1, n)
    requires 2 * i + 2 < n ==> SubtreeHeap(r.arr, 2 * i + 2, n)
    ensures SubtreeHeap(SiftDown(r, n, i).arr, i, n)
  {
    forall k | i <= k < n && InSubtree(i, k) && k != i
      ensures ParentOk(r.arr, n, k)
    {
      BelowChild(i, k);
    }
    SiftDownRestoresSubtree(r, i, n, i);
  }

  /** A proper descendant of i descends from one of i's two children. */
  lemma {:induction false} BelowChild(i: int, k: int)
    requires 0 <= i < k && InSubtree(i, k)
    ensures InSubtree(2 * i + 1, k) || InSubtree(2 * i + 2, k)
    decreases k
  {
    var p := (k - 1) / 2;
    if p != i {
      BelowChild(i, p);
    }
  }

  /** Sift-down at i inside the subtree of `root` repairs the one node of
      that subtree that may violate the heap property. */
  lemma {:induction false} SiftDownRestoresSubtree(r: Run, root: int, n: int, i: int)
    requires 0 <= root <= i < n <= |r.arr| && InSubtree(root, i)
    requires SubtreeHeapExcept(r.arr, root, n, i)
    requires ParentDominatesChildren(r.arr, root, n, i)
    ensures SubtreeHeap(SiftDown(r, n, i).arr, root, n)
    decreases n - i
  {
    var s := r.arr;
    var m := Largest(s, n, i);
    if m == i {
      assert ParentOk(s, n, i);
    } else {
      var c := r.counters.(comparisons := r.counters.comparisons + 2);
      var r' := Run(SwapAt(s, i, m), CountSwap(c));
      assert (m - 1) / 2 == i;
      SwapDownInSubtree(s, root, n, i);
      SiftDownRestoresSubtree(r', root, n, m);
    }
  }

  /** Exchanging node i with its larger child m moves the only possible
      violation inside the subtree of `root` from i down to m. */
  lemma SwapDownInSubtree(s: seq<int>, root: int, n: int, i: int)
    requires 0 <= root <= i < n <= |s| && InSubtree(root, i)
    requires SubtreeHeapExcept(s, root, n, i)
    requires ParentDominatesChildren(s, root, n, i)
    requires Largest(s, n, i) != i
    ensures var t := SwapAt(s, i, Largest(s, n, i));
      SubtreeHeapExcept(t, root, n, Largest(s, n, i))
        && ParentDominatesChildren(t, root, n, Largest(s, n, i))
  {
    var m := Largest(s, n, i);
    var t := SwapAt(s, i, m);
    forall k | root <= k < n && InSubtree(root, k) && k != m
      ensures ParentOk(t, n, k)
    {
      if k == i {
      } else if 2 * k + 1 == i || 2 * k + 2 == i {
        assert k == (i - 1) / 2;
        assert ParentOk(s, n, k);
      } else {
        assert ParentOk(s, n, k);
      }
    }
    assert (m - 1) / 2 == i;
    assert InSubtree(root, m);
    assert ParentOk(s, n, m);
  }

  /** In a heap, every node is at most the root. */
  lemma {:induction false} HeapRootIsMax(s: seq<int>, n: int, k: int)
    requires 0 <= k < n <= |s| && HeapFrom(s, 0, n)
    ensures s[k] <= s[0]
    decreases k
  {
    if k > 0 {
      var p := (k - 1) / 2;
      assert ParentOk(s, n, p);
      HeapRootIsMax(s, n, p);
    }
  }

  /** Nodes at n/2 and beyond have no children inside s[..n]. */
  lemma LeavesAreHeaps(s: seq<int>, n: int)
    requires 0 <= n <= |s|
    ensures HeapFrom(s, n / 2, n)
  {
  }

  /** Sifting down nodes k-1 .. 0 over a heap on [k, n) gives a heap on [0, n). */
  lemma {:induction false} BuildFromMakesHeap(r: Run, n: int, k: int)
    requires 0 <= k <= n <= |r.arr|
    requires HeapFrom(r.arr, k, n)
    ensures HeapFrom(BuildFrom(r, n, k).arr, 0, n)
    decreases k
  {
    if k > 0 {
      SiftDownRestoresHeap(r, k - 1, n, k - 1);
      BuildFromMakesHeap(SiftDown(r, n, k - 1), n, k - 1);
    }
  }

  /** After `buildMaxHeap(arr, n)` every parent in [0, n) is at least its
      children, so position 0 holds the maximum of arr[..n]; arr[n..] is
      untouched. */
  lemma BuildMaxHeapProperties(r: Run, n: int)
    requires 0 <= n <= |r.arr|
    ensures HeapFrom(BuildMaxHeap(r, n).arr, 0, n)
    ensures forall k :: 0 <= k < n ==> BuildMaxHeap(r, n).arr[k] <= BuildMaxHeap(r, n).arr[0]
    ensures BuildMaxHeap(r, n).arr[n..] == r.arr[n..]
  {
    LeavesAreHeaps(r.arr, n);
    BuildFromMakesHeap(r, n, n / 2);
    BuildFromPermutes(r, n, n / 2);
    var s := BuildMaxHeap(r, n).arr;
    forall k | 0 <= k < n
      ensures s[k] <= s[0]
    {
      HeapRootIsMax(s, n, k);
    }
  }

  // ---------------------------------------------------------------------------
  // The extraction loop sorts
  // ---------------------------------------------------------------------------

  /** One extraction step keeps the loop invariant of `sort`: with heap size
      i+1, s[..i+1] is a max-heap, s[i+1..] is sorted, and every element of the
      prefix is at most every element of the suffix; after the step the same
      holds with heap size i. */
  lemma ExtractStep(r: Run, i: int)
    requires 0 < i < |r.arr|
    requires HeapFrom(r.arr, 0, i + 1)
    requires NonDecreasing(r.arr, i + 1, |r.arr|)
    requires Partitioned(r.arr, i + 1)
    ensures var next := SiftDown(Run(SwapAt(r.arr, 0, i), CountSwap(r.counters)), i, 0).arr;
      HeapFrom(next, 0, i) && NonDecreasing(next, i, |next|) && Partitioned(next, i)
  {
    SwapRootKeepsOrder(r.arr, i);
    SiftDownKeepsOrder(Run(SwapAt(r.arr, 0, i), CountSwap(r.counters)), i);
  }

  /** Moving the root (the maximum of s[..i+1]) to position i extends the
      sorted suffix by one and leaves a heap on [0, i) except at the root. */
  lemma SwapRootKeepsOrder(s: seq<int>, i: int)
    requires 0 < i < |s|
    requires HeapFrom(s, 0, i + 1)
    requires NonDecreasing(s, i + 1, |s|)
    requires Partitioned(s, i + 1)
    ensures var t := SwapAt(s, 0, i);
      HeapExcept(t, 0, i, 0) && NonDecreasing(t, i, |t|) && Partitioned(t, i)
  {
    var t := SwapAt(s, 0, i);
    SwapAtPermutes(s, 0, i);
    forall k | 0 <= k <= i
      ensures s[k] <= s[0]
    {
      HeapRootIsMax(s, i + 1, k);
    }
    forall k | 0 <= k < i && k != 0
      ensures ParentOk(t, i, k)
    {
      assert ParentOk(s, i + 1, k);
    }
  }

  /** Sifting the root down over t[..i] restores the heap there and touches
      neither the sorted suffix nor the order between prefix and suffix. */
  lemma SiftDownKeepsOrder(r: Run, i: int)
    requires 0 < i < |r.arr|
    requires HeapExcept(r.arr, 0, i, 0)
    requires NonDecreasing(r.arr, i, |r.arr|)
    requires Partitioned(r.arr, i)
    ensures var next := SiftDown(r, i, 0).arr;
      HeapFrom(next, 0, i) && NonDecreasing(next, i, |next|) && Partitioned(next, i)
  {
    var t := r.arr;
    var next := SiftDown(r, i, 0).arr;
    SiftDownPermutes(r, i, 0);
    SiftDownRestoresHeap(r, 0, i, 0);
    var m := Largest(t, i, 0);
    forall a, b | 0 <= a < i <= b < |next|
      ensures next[a] <= next[b]
    {
      HeapRootIsMax(next, i, a);
      assert next[b] == t[b];
    }
    forall a, b | i <= a < b < |next|
      ensures next[a] <= next[b]
    {
      assert next[a] == t[a] && next[b] == t[b];
    }
  }

  /** From the invariant of the extraction loop, the loop ends with a fully
      sorted array. */
  lemma {:induction false} ExtractSorts(r: Run, i: int)
    requires -1 <= i < |r.arr|
    requires HeapFrom(r.arr, 0, i + 1)
    requires NonDecreasing(r.arr, i + 1, |r.arr|)
    requires Partitioned(r.arr, i + 1)
    ensures NonDecreasing(Extract(r, i).arr, 0, |r.arr|)
    decreases i
  {
    if i <= 0 {
      var s := r.arr;
      forall a, b | 0 <= a < b < |s|
        ensures s[a] <= s[b]
      {
        if a > i {
        } else {
          assert a == 0 && i == 0;
        }
      }
    } else {
      ExtractStep(r, i);
      ExtractSorts(SiftDown(Run(SwapAt(r.arr, 0, i), CountSwap(r.counters)), i, 0), i - 1);
    }
  }

  /** Pairwise order and adjacent order are the same thing. */
  lemma {:induction false} SortedIffNonDecreasing(s: seq<int>)
    ensures Sorted(s) <==> NonDecreasing(s, 0, |s|)
  {
    if Sorted(s) {
      forall a, b | 0 <= a < b < |s|
        ensures s[a] <= s[b]
      {
        SortedChain(s, a, b);
      }
    }
  }

  lemma {:induction false} SortedChain(s: seq<int>, a: int, b: int)
    requires Sorted(s) && 0 <= a <= b < |s|
    ensures s[a] <= s[b]
    decreases b - a
  {
    if a < b {
      SortedChain(s, a + 1, b);
    }
  }

  // ---------------------------------------------------------------------------
  // What `sort` promises
  // ---------------------------------------------------------------------------

  /** `sort` leaves the array in non-decreasing order. */
  lemma HeapSortSorts(s: seq<int>)
    ensures Sorted(HeapSorted(s).arr)
  {
    var n := |s|;
    var b := BuildMaxHeap(Run(s, NoCounts), n);
    BuildMaxHeapProperties(Run(s, NoCounts), n);
    ExtractSorts(b, n - 1);
    SortedIffNonDecreasing(HeapSorted(s).arr);
  }

  /** `sort` keeps the length and the multiset of the values. */
  lemma HeapSortPermutes(s: seq<int>)
    ensures |HeapSorted(s).arr| == |s|
    ensures multiset(HeapSorted(s).arr) == multiset(s)
  {
    var b := BuildMaxHeap(Run(s, NoCounts), |s|);
    BuildFromPermutes(Run(s, NoCounts), |s|, |s| / 2);
    ExtractPermutes(b, |s| - 1);
  }

  /** After `sort`, every swap accounts for four array accesses, and the number
      of comparisons is twice the number of `heapify` calls, which is the n/2
      calls of `buildMaxHeap` plus one per swap. */
  lemma HeapSortCounters(s: seq<int>)
    ensures HeapSorted(s).counters.arrayAccesses == 4 * HeapSorted(s).counters.swaps
    ensures HeapSorted(s).counters.comparisons == 2 * (|s| / 2 + HeapSorted(s).counters.swaps)
    ensures HeapSorted(s).counters.comparisons % 2 == 0
    ensures HeapSorted(s).counters.swaps >= |s| - 1
    ensures HeapSorted(s).counters.swaps >= 0
  {
    var b := BuildMaxHeap(Run(s, NoCounts), |s|);
    BuildFromCounters(Run(s, NoCounts), |s|, |s| / 2);
    ExtractCounters(b, |s| - 1);
  }

  /** The head of a sorted sequence is at most each of its values. */
  lemma SortedHeadIsMin(a: seq<int>, x: int)
    requires Sorted(a) && x in multiset(a)
    ensures a[0] <= x
  {
    SortedIffNonDecreasing(a);
    var j :| 0 <= j < |a| && a[j] == x;
  }

  /** Dropping the head of a sequence removes one copy of it from the multiset. */
  lemma DropHead(a: seq<int>)
    requires |a| > 0
    ensures multiset(a[1..]) == multiset(a) - multiset{a[0]}
  {
    assert a == [a[0]] + a[1..];
  }

  /** The tail of a sorted sequence is sorted. */
  lemma SortedTail(a: seq<int>)
    requires |a| > 0 && Sorted(a)
    ensures Sorted(a[1..])
  {
  }

  /** A sorted sequence is determined by its multiset of values. */
  lemma {:induction false} SortedPermutationUnique(a: seq<int>, b: seq<int>)
    requires Sorted(a) && Sorted(b) && multiset(a) == multiset(b)
    ensures a == b
    decreases |a|
  {
    assert |a| == |multiset(a)| == |multiset(b)| == |b|;
    if |a| > 0 {
      assert a[0] == b[0] by {
        assert a[0] in multiset(b) && b[0] in multiset(a);
        SortedHeadIsMin(a, b[0]);
        SortedHeadIsMin(b, a[0]);
      }
      assert multiset(a[1..]) == multiset(b[1..]) by {
        DropHead(a);
        DropHead(b);
      }
      assert Sorted(a[1..]) && Sorted(b[1..]) by {
        SortedTail(a);
        SortedTail(b);
      }
      SortedPermutationUnique(a[1..], b[1..]);
      assert a == [a[0]] + a[1..] && b == [b[0]] + b[1..];
    }
  }

  /** The output of `sort` is THE sorted arrangement of its input: any sorted
      permutation of the input is what `sort` produces. */
  lemma HeapSortResult(s: seq<int>, t: seq<int>)
    requires Sorted(t) && multiset(t) == multiset(s)
    ensures HeapSorted(s).arr == t
  {
    HeapSortSorts(s);
    HeapSortPermutes(s);
    SortedPermutationUnique(HeapSorted(s).arr, t);
  }

  /** Sorting an already sorted array gives back the same values. */
  lemma HeapSortKeepsSorted(s: seq<int>)
    requires Sorted(s)
    ensures HeapSorted(s).arr == s
  {
    HeapSortResult(s, s);
  }
}
