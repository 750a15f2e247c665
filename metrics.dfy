/** The performance counters attached to one sorting run
    (src/main/java/metrics/PerformanceTracker.java).

    Java's `long` fields are modelled as unbounded `int`s.  The clock and
    memory readings that `startTimer` and `stopTimer` take from the runtime
    are parameters of those methods.
 */
module Metrics {

  /** Snapshot of the three operation counters. */
  datatype Counters = Counters(comparisons: int, swaps: int, arrayAccesses: int)

  /** Snapshot of the two timestamps and the two memory samples. */
  datatype Timing = Timing(startTime: int, endTime: int, memoryBefore: int, memoryAfter: int)

  const NoCounts := Counters(0, 0, 0)
  const NoTiming := Timing(0, 0, 0, 0)

  class PerformanceTracker {
    var comparisons: int
    var swaps: int
    var arrayAccesses: int
    var startTime: int
    var endTime: int
    var memoryBefore: int
    var memoryAfter: int

    /** The counters as one value. */
    function Counts(): Counters
      reads this
    {
      Counters(comparisons, swaps, arrayAccesses)
    }

    /** The timestamps and memory samples as one value. */
    function Clock(): Timing
      reads this
    {
      Timing(startTime, endTime, memoryBefore, memoryAfter)
    }

    /** A fresh tracker starts from a reset: every counter and sample is zero. */
    constructor ()
      ensures comparisons == 0 && swaps == 0 && arrayAccesses == 0
      ensures Counts() == NoCounts && Clock() == NoTiming
    {
      new;
      Reset();
    }

    /** Zeroes all seven numeric fields. */
    method Reset()
      modifies this
      ensures comparisons == 0 && swaps == 0 && arrayAccesses == 0
      ensures startTime == 0 && endTime == 0 && memoryBefore == 0 && memoryAfter == 0
      ensures GetTimeNano() == 0 && GetMemoryUsed() == 0
    {
      comparisons := 0;
      swaps := 0;
      arrayAccesses := 0;
      startTime := 0;
      endTime := 0;
      memoryBefore := 0;
      memoryAfter := 0;
    }

    /** Records the start of a run; `now` and `usedMemory` stand for the
        runtime's nanosecond clock and its used-heap reading. */
    method StartTimer(now: int, usedMemory: int)
      modifies this
      ensures startTime == now && memoryBefore == usedMemory
      ensures endTime == old(endTime) && memoryAfter == old(memoryAfter)
      ensures Counts() == old(Counts())
    {
      startTime := now;
      memoryBefore := usedMemory;
    }

    /** Records the end of a run, as StartTimer does its start. */
    method StopTimer(now: int, usedMemory: int)
      modifies this
      ensures endTime == now && memoryAfter == usedMemory
      ensures startTime == old(startTime) && memoryBefore == old(memoryBefore)
      ensures Counts() == old(Counts())
    {
      endTime := now;
      memoryAfter := usedMemory;
    }

    method IncrementComparisons()
      modifies this
      ensures comparisons == old(comparisons) + 1
      ensures swaps == old(swaps) && arrayAccesses == old(arrayAccesses)
      ensures Clock() == old(Clock())
    {
      comparisons := comparisons + 1;
    }

    method IncrementSwaps()
      modifies this
      ensures swaps == old(swaps) + 1
      ensures comparisons == old(comparisons) && arrayAccesses == old(arrayAccesses)
      ensures Clock() == old(Clock())
    {
      swaps := swaps + 1;
    }

    /** Adds `count` (a Java `int`, not checked for sign) to the access counter. */
    method IncrementArrayAccesses(count: int)
      modifies this
      ensures arrayAccesses == old(arrayAccesses) + count
      ensures count >= 0 ==> arrayAccesses >= old(arrayAccesses)
      ensures comparisons == old(comparisons) && swaps == old(swaps)
      ensures Clock() == old(Clock())
    {
      arrayAccesses := arrayAccesses + count;
    }

    function GetComparisons(): (c: int)
      reads this
      ensures c == Counts().comparisons
    {
      comparisons
    }

    function GetSwaps(): (c: int)
      reads this
      ensures c == Counts().swaps
    {
      swaps
    }

    function GetArrayAccesses(): (c: int)
      reads this
      ensures c == Counts().arrayAccesses
    {
      arrayAccesses
    }

    /** Elapsed time: the stop reading minus the start reading. */
    function GetTimeNano(): (t: int)
      reads this
      ensures startTime + t == endTime
    {
      endTime - startTime
    }

    /** Memory delta: the stop sample minus the start sample. */
    function GetMemoryUsed(): (m: int)
      reads this
      ensures memoryBefore + m == memoryAfter
    {
      memoryAfter - memoryBefore
    }
  }
}
