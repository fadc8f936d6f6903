/** The scoped-thread driver of `src/batch/aggregate_scheduler.rs` under an arbitrary fault
    schedule: no admission, a partial grant, a failed spawn, panicking helpers. */
module ParallelDriver {
  import opened Words
  import opened Scheduler

  /** What the environment does to one aggregate: the helpers admitted, the first lane whose
      thread cannot be spawned, and the lanes whose threads panic. */
  datatype Schedule = Schedule(admitted: Option<nat>, spawnFailure: Option<nat>, panicking: set<nat>)

  predicate Possible(schedule: Schedule) {
    schedule.admitted.Some? ==> schedule.admitted.value > 0
  }

  /** The externally visible order of a run. */
  datatype Event = Spawned(lane: nat) | Joined(lane: nat) | Released | RanWhole

  /** The key of the first selected row: the one a grouped aggregate has seen first. */
  function FirstKey(group: nat -> bool, rows: seq<nat>): (r: Option<bool>) {
    if |rows| == 0 then None else Some(group(rows[0]))
  }

  function Collect<P, E>(partials: seq<Result<P, E>>): (r: Result<seq<P>, E>)
    ensures r.Ok? ==> |r.value| == |partials|
  {
    if partials == [] then Ok([])
    else
      match Collect(partials[..|partials| - 1])
      case Err(error) => Err(error)
      case Ok(values) =>
        match partials[|partials| - 1]
        case Err(error) => Err(error)
        case Ok(value) => Ok(values + [value])
  }

  function Chunks<P, E>(chunk: seq<nat> -> Result<P, E>, parts: seq<seq<nat>>): (r: seq<Result<P, E>>)
    ensures |r| == |parts|
  {
    seq(|parts|, i requires 0 <= i < |parts| => chunk(parts[i]))
  }

  ghost predicate AllOk<P, E>(partials: seq<Result<P, E>>, values: seq<P>) {
    |values| == |partials| && forall i :: 0 <= i < |partials| ==> partials[i] == Ok(values[i])
  }

  ghost predicate FirstError<P, E>(partials: seq<Result<P, E>>, k: nat, error: E) {
    k < |partials| && partials[k] == Err(error) && forall i :: 0 <= i < k ==> partials[i].Ok?
  }

  /** Collecting yields every value in order, or the error of the first lane that has one. */
  lemma {:induction false} CollectMeans<P, E>(partials: seq<Result<P, E>>)
    ensures match Collect(partials)
            case Ok(values) => AllOk(partials, values)
            case Err(error) => exists k: nat :: FirstError(partials, k, error)
    decreases |partials|
  {
    if partials != [] {
      var n: nat := |partials| - 1;
      var init, last, collected := partials[..n], partials[n], Collect(partials[..n]);
      assert partials == init + [last];
      CollectMeans(init);
      match collected
      case Err(error) =>
        var k: nat :| FirstError(init, k, error);
        assert FirstError(partials, k, error);
        assert Collect(partials) == Err(error);
      case Ok(values) =>
        match last {
          case Err(error) =>
            assert FirstError(partials, n, error);
            assert Collect(partials) == Err(error);
          case Ok(value) => assert AllOk(partials, values + [value]);
        }
    }
  }

  /** Reducing the ordered chunk results of `parts`. */
  function Combined<P, E>(chunk: seq<nat> -> Result<P, E>, reduce: seq<P> -> Result<P, E>, parts: seq<seq<nat>>)
    : (r: Result<P, E>)
  {
    match Collect(Chunks(chunk, parts))
    case Err(error) => Err(error)
    case Ok(partials) => reduce(partials)
  }

  /** A reducer is lawful on `rows` when cutting the rows into any contiguous parts changes
      nothing, errors included. */
  ghost predicate Lawful<P(!new), E(!new)>(chunk: seq<nat> -> Result<P, E>, reduce: seq<P> -> Result<P, E>,
      rows: seq<nat>)
  {
    forall parts: seq<seq<nat>> ::
      parts != [] && Flatten(parts) == rows ==> Combined(chunk, reduce, parts) == chunk(rows)
  }

  /** How many helpers are spawned: those before the first that cannot be. */
  function SpawnedHelpers(schedule: Schedule): (r: nat)
    requires schedule.admitted.Some?
  {
    match schedule.spawnFailure
    case Some(lane) => if 1 <= lane <= schedule.admitted.value then lane - 1 else schedule.admitted.value
    case None => schedule.admitted.value
  }

  function Spawns(n: nat): (r: seq<Event>)
    ensures |r| == n
  {
    seq(n, i requires 0 <= i < n => Spawned(i + 1))
  }

  function Joins(n: nat): (r: seq<Event>)
    ensures |r| == n
  {
    seq(n, i requires 0 <= i < n => Joined(i + 1))
  }

  /** Spawning stops at the first failure; every spawned helper is joined, in lane order, before
      the permits are released, and only then may the whole input be repeated. */
  ghost predicate WellOrdered(trace: seq<Event>, schedule: Schedule, failed: bool) {
    if schedule.admitted.None? then
      trace == [RanWhole]
    else
      var n := SpawnedHelpers(schedule);
      trace == Spawns(n) + Joins(n) + (if failed then [Released, RanWhole] else [Released])
  }

  /** Some helper of an admitted run was lost. */
  ghost predicate HelperLost(schedule: Schedule) {
    && schedule.admitted.Some?
    && exists lane :: 1 <= lane <= schedule.admitted.value
         && (schedule.spawnFailure == Some(lane) || lane in schedule.panicking)
  }

  lemma LanesAreLawful<P(!new), E(!new)>(rows: seq<nat>, workerCount: nat,
      chunk: seq<nat> -> Result<P, E>, reduce: seq<P> -> Result<P, E>)
    requires workerCount > 0 && Lawful(chunk, reduce, rows)
    ensures Combined(chunk, reduce, Partitions(rows, workerCount, workerCount)) == chunk(rows)
  {
    PartitionsConcatenate(rows, workerCount);
  }

  method RunGroupedAggregate<P(!new), E(!new)>(rows: seq<nat>, schedule: Schedule,
      chunk: seq<nat> -> Result<P, E>, reduce: seq<P> -> Result<P, E>)
    returns (r: Result<P, E>, trace: seq<Event>)
    requires Possible(schedule)
    // whatever is lost, the result is that of one sequential chunk over all rows
    ensures Lawful(chunk, reduce, rows) ==> r == chunk(rows)
    // the whole input is repeated exactly when nothing was admitted or a helper was lost,
    // and only after the permits were released
    ensures WellOrdered(trace, schedule, HelperLost(schedule))
    ensures schedule.admitted.Some? && !HelperLost(schedule) ==>
      r == Combined(chunk, reduce, Partitions(rows, schedule.admitted.value + 1, schedule.admitted.value + 1))
  {
    hide Lawful, Collect;
    if schedule.admitted.None? {
      return chunk(rows), [RanWhole];
    }
    var helperThreads := schedule.admitted.value;
    var workerCount := helperThreads + 1;
    var handles: seq<nat> := [];
    var workerFailed := false;
    trace := [];
    var lane := 1;
    while lane < workerCount && !workerFailed
      invariant 1 <= lane <= workerCount
      invariant handles == seq(|handles|, i => i + 1)
      invariant |handles| == lane - 1
      invariant workerFailed ==> schedule.spawnFailure == Some(lane) && lane < workerCount
      invariant forall i :: 1 <= i < lane ==> schedule.spawnFailure != Some(i)
      invariant trace == Spawns(lane - 1)
      decreases workerCount - lane, !workerFailed
    {
      if schedule.spawnFailure == Some(lane) {
        workerFailed := true;
      } else {
        handles := handles + [lane];
        trace := trace + [Spawned(lane)];
        lane := lane + 1;
      }
    }

    assert |handles| == SpawnedHelpers(schedule);
    var partials := [chunk(Partition(rows, workerCount, 0))];
    ghost var spawnFailed := workerFailed;
    for k := 0 to |handles|
      invariant workerFailed <==> spawnFailed || exists i :: 1 <= i <= k && i in schedule.panicking
      invariant !workerFailed ==> partials == Chunks(chunk, Partitions(rows, workerCount, k + 1))
      invariant trace == Spawns(|handles|) + Joins(k)
    {
      var handle := handles[k];
      trace := trace + [Joined(handle)];
      if handle in schedule.panicking {
        workerFailed := true;
      } else {
        partials := partials + [chunk(Partition(rows, workerCount, handle))];
      }
    }
    assert workerFailed <==> HelperLost(schedule);
    ghost var before := trace;
    trace := trace + [Released];
    if workerFailed {
      trace := trace + [RanWhole];
      assert trace == before + [Released, RanWhole];
      return chunk(rows), trace;
    }
    assert partials == Chunks(chunk, Partitions(rows, workerCount, workerCount));
    if Lawful(chunk, reduce, rows) {
      LanesAreLawful(rows, workerCount, chunk, reduce);
    }
    var collected := Collect(partials);
    r := match collected
         case Err(error) => Err(error)
         case Ok(values) => reduce(values);
  }
}
