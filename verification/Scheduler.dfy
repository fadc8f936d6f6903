/** Lane counts and contiguous partitions of `src/batch/aggregate_scheduler.rs`. */
module Scheduler {
  import opened Words

  const PARALLEL_ROW_THRESHOLD: nat := 262144
  const ROWS_PER_WORKER: nat := 131072
  const MAX_WORKERS: nat := 16
  /** The least number of rows any admitted lane is given. */
  const LEAST_LANE_ROWS: nat := 87381

  function DivCeil(a: nat, b: nat): (r: nat)
    requires b > 0
  {
    if a % b == 0 then a / b else a / b + 1
  }

  function Clamp(n: nat, low: nat, high: nat): (r: nat) {
    if n < low then low else Min(n, high)
  }

  function WorkerCount(workerLimit: nat, workerCap: nat, matchedRows: nat): (r: nat) {
    if matchedRows <= PARALLEL_ROW_THRESHOLD then
      1
    else
      var useful := DivCeil(matchedRows, ROWS_PER_WORKER);
      Min(Min(Clamp(Min(workerLimit, workerCap), 1, MAX_WORKERS), useful), matchedRows)
  }

  /** A request may only lower the cap; zero means no request. */
  function WithRequestWorkerCap(workerCap: nat, maxThreads: nat): (r: nat) {
    if maxThreads == 0 then workerCap else Min(workerCap, maxThreads)
  }

  function PartitionStart(rows: nat, workerCount: nat, workerIndex: nat): (r: nat)
    requires workerCount > 0
  {
    workerIndex * (rows / workerCount) + Min(workerIndex, rows % workerCount)
  }

  function PartitionLen(rows: nat, workerCount: nat, workerIndex: nat): (r: nat)
    requires workerCount > 0
  {
    rows / workerCount + (if workerIndex < rows % workerCount then 1 else 0)
  }

  lemma PartitionNext(rows: nat, workerCount: nat, workerIndex: nat)
    requires workerIndex < workerCount
    ensures PartitionStart(rows, workerCount, workerIndex) + PartitionLen(rows, workerCount, workerIndex)
         == PartitionStart(rows, workerCount, workerIndex + 1)
  {
    var each := rows / workerCount;
    assert (workerIndex + 1) * each == workerIndex * each + each;
  }

  lemma PartitionEnd(rows: nat, workerCount: nat)
    requires workerCount > 0
    ensures PartitionStart(rows, workerCount, workerCount) == rows
  {
    assert workerCount * (rows / workerCount) + rows % workerCount == rows;
  }

  lemma {:induction false} PartitionInBounds(rows: nat, workerCount: nat, workerIndex: nat)
    requires workerIndex <= workerCount && workerCount > 0
    ensures PartitionStart(rows, workerCount, workerIndex) <= rows
    decreases workerCount - workerIndex
  {
    if workerIndex == workerCount {
      PartitionEnd(rows, workerCount);
    } else {
      PartitionNext(rows, workerCount, workerIndex);
      PartitionInBounds(rows, workerCount, workerIndex + 1);
    }
  }

  /** The rows of one lane. */
  function Partition(rows: seq<nat>, workerCount: nat, workerIndex: nat): (r: seq<nat>)
    requires workerIndex < workerCount
    ensures |r| == PartitionLen(|rows|, workerCount, workerIndex)
  {
    PartitionNext(|rows|, workerCount, workerIndex);
    PartitionInBounds(|rows|, workerCount, workerIndex + 1);
    var start := PartitionStart(|rows|, workerCount, workerIndex);
    rows[start..start + PartitionLen(|rows|, workerCount, workerIndex)]
  }

  /** The first `n` lanes in order. */
  function Partitions(rows: seq<nat>, workerCount: nat, n: nat): (r: seq<seq<nat>>)
    requires n <= workerCount
    ensures |r| == n && forall i :: 0 <= i < n ==> r[i] == Partition(rows, workerCount, i)
  {
    seq(n, i requires 0 <= i < n => Partition(rows, workerCount, i))
  }

  function Flatten(parts: seq<seq<nat>>): (r: seq<nat>) {
    if parts == [] then [] else Flatten(parts[..|parts| - 1]) + parts[|parts| - 1]
  }

  lemma {:induction false} PartitionsPrefix(rows: seq<nat>, workerCount: nat, n: nat)
    requires n <= workerCount && workerCount > 0
    ensures PartitionStart(|rows|, workerCount, n) <= |rows|
    ensures Flatten(Partitions(rows, workerCount, n)) == rows[..PartitionStart(|rows|, workerCount, n)]
    decreases n
  {
    PartitionInBounds(|rows|, workerCount, n);
    if n > 0 {
      PartitionsPrefix(rows, workerCount, n - 1);
      PartitionNext(|rows|, workerCount, n - 1);
      var parts := Partitions(rows, workerCount, n);
      assert parts[..n - 1] == Partitions(rows, workerCount, n - 1);
      var low, high := PartitionStart(|rows|, workerCount, n - 1), PartitionStart(|rows|, workerCount, n);
      assert rows[..high] == rows[..low] + rows[low..high];
    }
  }

  /** The lanes concatenate, in order, to the whole selection. */
  lemma PartitionsConcatenate(rows: seq<nat>, workerCount: nat)
    requires workerCount > 0
    ensures Flatten(Partitions(rows, workerCount, workerCount)) == rows
  {
    PartitionsPrefix(rows, workerCount, workerCount);
    PartitionEnd(|rows|, workerCount);
    assert rows[..|rows|] == rows;
  }

  /** Lane lengths differ by at most one, the longer lanes first. */
  lemma PartitionsBalanced(rows: seq<nat>, workerCount: nat, i: nat, j: nat)
    requires i < j < workerCount
    ensures |Partition(rows, workerCount, j)| <= |Partition(rows, workerCount, i)|
         <= |Partition(rows, workerCount, j)| + 1
  {
  }

  lemma DivCeilLower(a: nat)
    requires a > 0
    ensures ROWS_PER_WORKER * (DivCeil(a, ROWS_PER_WORKER) - 1) < a
  {
  }

  lemma LaneShare(rows: nat, lanes: nat)
    requires 2 <= lanes <= MAX_WORKERS && rows > PARALLEL_ROW_THRESHOLD && ROWS_PER_WORKER * (lanes - 1) < rows
    ensures rows / lanes >= LEAST_LANE_ROWS
  {
    assert lanes * LEAST_LANE_ROWS <= rows;
  }

  /** Any number of helpers up to the number requested, even after a partial grant, leaves
      every lane with at least 87,381 rows. */
  lemma AdmittedLanesAreWorthwhile(rows: seq<nat>, workerLimit: nat, workerCap: nat, helpers: nat, lane: nat)
    requires 1 <= helpers <= WorkerCount(workerLimit, workerCap, |rows|) - 1
    requires lane <= helpers
    ensures |Partition(rows, helpers + 1, lane)| >= LEAST_LANE_ROWS
  {
    DivCeilLower(|rows|);
    var lanes := helpers + 1;
    assert ROWS_PER_WORKER * (lanes - 1) < |rows|;
    LaneShare(|rows|, lanes);
  }

  /** A lane count never exceeds the hard cap, the budgeted limit, or the configured cap, a
      request can only lower it, and up to the row threshold there is one lane. */
  lemma WorkerCountBounds(workerLimit: nat, workerCap: nat, maxThreads: nat, matchedRows: nat)
    requires workerLimit > 0 && workerCap > 0
    ensures 1 <= WorkerCount(workerLimit, workerCap, matchedRows) <= Min(MAX_WORKERS, Min(workerLimit, workerCap))
    ensures 1 <= WorkerCount(workerLimit, WithRequestWorkerCap(workerCap, maxThreads), matchedRows)
         <= WorkerCount(workerLimit, workerCap, matchedRows)
    ensures maxThreads > 0 ==>
      WorkerCount(workerLimit, WithRequestWorkerCap(workerCap, maxThreads), matchedRows) <= maxThreads
    ensures matchedRows <= 262144 ==> WorkerCount(workerLimit, workerCap, matchedRows) == 1
  {
  }

  /** A count is within the cap of a request exactly when it is within the configured cap and,
      where threads are requested, within their number. */
  lemma RequestCapMeans(workerCap: nat, maxThreads: nat, count: nat)
    ensures count <= WithRequestWorkerCap(workerCap, maxThreads)
       <==> count <= workerCap && (maxThreads == 0 || count <= maxThreads)
  {
  }

  /** Above the row threshold the count is the greatest within the hard cap, the limit and the
      configured cap that leaves no lane without a share of the 131,072-row blocks. */
  lemma WorkerCountIsGreatest(workerLimit: nat, workerCap: nat, matchedRows: nat, n: nat)
    requires workerLimit > 0 && workerCap > 0 && matchedRows > 262144
    ensures var count := WorkerCount(workerLimit, workerCap, matchedRows);
      && count <= 16 && count <= workerLimit && count <= workerCap && 131072 * (count - 1) < matchedRows
      && (n <= 16 && n <= workerLimit && n <= workerCap && 131072 * (n - 1) < matchedRows ==> n <= count)
  {
    DivCeilLower(matchedRows);
  }
}
