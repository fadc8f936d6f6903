/** Global `MIN` and `MAX` (`src/batch/global_scalar_extremum.rs`) over any value type. */
module ScalarExtremum {
  import opened Words
  import opened Scheduler
  import opened ParallelDriver

  /** `better(a, b)`: `a` strictly precedes `b` in the direction sought. Ties are allowed, as
      between the two signed zeros. */
  ghost predicate StrictWeakOrder<E(!new)>(better: (E, E) -> bool) {
    && (forall a, b :: better(a, b) ==> !better(b, a))
    && (forall a, b, c :: !better(a, b) && !better(b, c) ==> !better(a, c))
  }

  /** `first_float64_minimum` and its mirror: the right value only when strictly better. */
  function Pick<E>(better: (E, E) -> bool, left: E, right: E): (r: E) {
    if better(right, left) then right else left
  }

  function ReducePartials<E>(better: (E, E) -> bool, left: Option<E>, right: Option<E>): (r: Option<E>) {
    match (left, right)
    case (Some(l), Some(r)) => Some(Pick(better, l, r))
    case (Some(_), None) => left
    case (None, _) => right
  }

  /** `scalar_chunk`: NULLs are skipped and the rest reduced from the left. */
  function Chunk<E>(valueOf: nat -> Option<E>, better: (E, E) -> bool, rows: seq<nat>): (r: Option<E>) {
    if |rows| == 0 then None
    else ReducePartials(better, Chunk(valueOf, better, rows[..|rows| - 1]), valueOf(rows[|rows| - 1]))
  }

  /** Position `i` holds the value that no selected value beats, and beats every earlier one. */
  ghost predicate FirstBestAt<E>(valueOf: nat -> Option<E>, better: (E, E) -> bool, rows: seq<nat>, i: nat) {
    && i < |rows| && valueOf(rows[i]).Some?
    && forall j :: 0 <= j < |rows| && valueOf(rows[j]).Some? ==>
         !better(valueOf(rows[j]).value, valueOf(rows[i]).value)
         && (j < i ==> better(valueOf(rows[i]).value, valueOf(rows[j]).value))
  }

  ghost predicate AllNull<E>(valueOf: nat -> Option<E>, rows: seq<nat>) {
    forall j :: 0 <= j < |rows| ==> valueOf(rows[j]).None?
  }

  /** NULL when every selected value is; otherwise the value at the first position attaining
      the extremum. */
  ghost predicate IsExtremum<E>(valueOf: nat -> Option<E>, better: (E, E) -> bool, rows: seq<nat>, r: Option<E>) {
    match r
    case None => AllNull(valueOf, rows)
    case Some(_) => exists i: nat :: FirstBestAt(valueOf, better, rows, i) && r == valueOf(rows[i])
  }

  /** One more row keeps the first best position, or becomes it by beating the value there. */
  lemma FirstBestNext<E(!new)>(valueOf: nat -> Option<E>, better: (E, E) -> bool, init: seq<nat>, row: nat, i: nat)
    requires StrictWeakOrder(better) && FirstBestAt(valueOf, better, init, i)
    ensures var last, best := valueOf(row), valueOf(init[i]).value;
      FirstBestAt(valueOf, better, init + [row], if last.Some? && better(last.value, best) then |init| else i)
  {
    var rows, last, best := init + [row], valueOf(row), valueOf(init[i]).value;
    if last.Some? && better(last.value, best) {
      forall j | 0 <= j < |init| && valueOf(rows[j]).Some?
        ensures better(last.value, valueOf(rows[j]).value) && !better(valueOf(rows[j]).value, last.value)
      {
        assert !better(valueOf(init[j]).value, best);
      }
    }
  }

  lemma {:induction false} ChunkIsExtremum<E(!new)>(valueOf: nat -> Option<E>, better: (E, E) -> bool, rows: seq<nat>)
    requires StrictWeakOrder(better)
    ensures IsExtremum(valueOf, better, rows, Chunk(valueOf, better, rows))
    decreases |rows|
  {
    if rows != [] {
      var n := |rows| - 1;
      var init, last := rows[..n], valueOf(rows[n]);
      ChunkIsExtremum(valueOf, better, init);
      assert rows == init + [rows[n]];
      if Chunk(valueOf, better, init).None? {
        if last.Some? {
          assert FirstBestAt(valueOf, better, rows, n);
        }
      } else {
        var i: nat :| FirstBestAt(valueOf, better, init, i) && Chunk(valueOf, better, init) == valueOf(init[i]);
        hide FirstBestAt, StrictWeakOrder;
        FirstBestNext(valueOf, better, init, rows[n], i);
      }
    }
  }

  /** At most one result is the extremum, so being one determines it. */
  lemma ExtremumUnique<E>(valueOf: nat -> Option<E>, better: (E, E) -> bool, rows: seq<nat>, r: Option<E>, s: Option<E>)
    requires IsExtremum(valueOf, better, rows, r) && IsExtremum(valueOf, better, rows, s)
    ensures r == s
  {
    if r.Some? && s.Some? {
      var i: nat :| FirstBestAt(valueOf, better, rows, i) && r == valueOf(rows[i]);
      var j: nat :| FirstBestAt(valueOf, better, rows, j) && s == valueOf(rows[j]);
      assert !(i < j) && !(j < i);
    }
  }

  lemma ReduceAssociates<E(!new)>(better: (E, E) -> bool, a: Option<E>, b: Option<E>, c: Option<E>)
    requires StrictWeakOrder(better)
    ensures ReducePartials(better, ReducePartials(better, a, b), c)
         == ReducePartials(better, a, ReducePartials(better, b, c))
  {
  }

  lemma {:induction false} ChunkConcat<E(!new)>(valueOf: nat -> Option<E>, better: (E, E) -> bool, a: seq<nat>,
      b: seq<nat>)
    requires StrictWeakOrder(better)
    ensures Chunk(valueOf, better, a + b)
        == ReducePartials(better, Chunk(valueOf, better, a), Chunk(valueOf, better, b))
    decreases |b|
  {
    if b == [] {
      assert a + b == a;
    } else {
      var n := |b| - 1;
      assert (a + b)[..|a + b| - 1] == a + b[..n];
      ChunkConcat(valueOf, better, a, b[..n]);
      ReduceAssociates(better, Chunk(valueOf, better, a), Chunk(valueOf, better, b[..n]), valueOf(b[n]));
    }
  }

  lemma PartitionsNext(rows: seq<nat>, workerCount: nat, n: nat)
    requires n < workerCount
    ensures Flatten(Partitions(rows, workerCount, n + 1))
         == Flatten(Partitions(rows, workerCount, n)) + Partition(rows, workerCount, n)
  {
    assert Partitions(rows, workerCount, n + 1)[..n] == Partitions(rows, workerCount, n);
  }

  /** `reduce_scalar`: partials are combined in place, in lane order; a lost helper discards
      them and repeats the complete extremum. */
  method ReduceScalar<E(!new)>(valueOf: nat -> Option<E>, better: (E, E) -> bool, rows: seq<nat>, schedule: Schedule)
    returns (r: Option<E>)
    requires Possible(schedule) && StrictWeakOrder(better)
    ensures r == Chunk(valueOf, better, rows)
  {
    if schedule.admitted.None? {
      return Chunk(valueOf, better, rows);
    }
    var workerCount := schedule.admitted.value + 1;
    var handles: nat := 0;
    var workerFailed := false;
    while handles + 1 < workerCount && !workerFailed
      invariant handles < workerCount
      invariant !workerFailed || schedule.spawnFailure.Some?
      decreases workerCount - handles, !workerFailed
    {
      if schedule.spawnFailure == Some(handles + 1) {
        workerFailed := true;
      } else {
        handles := handles + 1;
      }
    }
    var extremum := Chunk(valueOf, better, Partition(rows, workerCount, 0));
    PartitionsNext(rows, workerCount, 0);
    assert [] + Partition(rows, workerCount, 0) == Partition(rows, workerCount, 0);
    for k := 1 to handles + 1
      invariant !workerFailed ==> handles + 1 == workerCount
      invariant !workerFailed ==> extremum == Chunk(valueOf, better, Flatten(Partitions(rows, workerCount, k)))
    {
      if k in schedule.panicking {
        workerFailed := true;
      } else {
        PartitionsNext(rows, workerCount, k);
        ChunkConcat(valueOf, better, Flatten(Partitions(rows, workerCount, k)), Partition(rows, workerCount, k));
        extremum := ReducePartials(better, extremum, Chunk(valueOf, better, Partition(rows, workerCount, k)));
      }
    }
    if workerFailed {
      return Chunk(valueOf, better, rows);
    }
    PartitionsConcatenate(rows, workerCount);
    return extremum;
  }

  // ---------- the concrete orders ----------

  /** A finite float as its value and sign bit, which distinguishes the zeros. */
  datatype Float = Float(value: real, negative: bool)

  const LESS_INT: (i64, i64) -> bool := (a: i64, b: i64) => a < b
  const GREATER_INT: (i64, i64) -> bool := (a: i64, b: i64) => a > b
  const LESS_FLOAT: (Float, Float) -> bool := (a: Float, b: Float) => a.value < b.value
  const GREATER_FLOAT: (Float, Float) -> bool := (a: Float, b: Float) => a.value > b.value

  lemma ConcreteOrders()
    ensures StrictWeakOrder(LESS_INT) && StrictWeakOrder(GREATER_INT)
    ensures StrictWeakOrder(LESS_FLOAT) && StrictWeakOrder(GREATER_FLOAT)
  {
  }

  /** Position `i` holds the least present number, and the first of several such. */
  ghost predicate LeastAt<E>(number: E -> real, values: nat -> Option<E>, rows: seq<nat>, i: nat) {
    && i < |rows| && values(rows[i]).Some?
    && forall j :: 0 <= j < |rows| && values(rows[j]).Some? ==>
         && number(values(rows[i]).value) <= number(values(rows[j]).value)
         && (j < i ==> number(values(rows[i]).value) < number(values(rows[j]).value))
  }

  ghost predicate GreatestAt<E>(number: E -> real, values: nat -> Option<E>, rows: seq<nat>, i: nat) {
    && i < |rows| && values(rows[i]).Some?
    && forall j :: 0 <= j < |rows| && values(rows[j]).Some? ==>
         && number(values(rows[i]).value) >= number(values(rows[j]).value)
         && (j < i ==> number(values(rows[i]).value) > number(values(rows[j]).value))
  }

  /** `NULL` when every selected value is; otherwise the value at the first least position. */
  ghost predicate IsLeast<E>(number: E -> real, values: nat -> Option<E>, rows: seq<nat>, r: Option<E>) {
    if r.None? then AllNull(values, rows)
    else exists i: nat :: LeastAt(number, values, rows, i) && r == values(rows[i])
  }

  ghost predicate IsGreatest<E>(number: E -> real, values: nat -> Option<E>, rows: seq<nat>, r: Option<E>) {
    if r.None? then AllNull(values, rows)
    else exists i: nat :: GreatestAt(number, values, rows, i) && r == values(rows[i])
  }

  lemma LeastOfLess<E(!new)>(number: E -> real, less: (E, E) -> bool, values: nat -> Option<E>, rows: seq<nat>,
                             r: Option<E>)
    requires IsExtremum(values, less, rows, r) && forall a, b :: less(a, b) <==> number(a) < number(b)
    ensures IsLeast(number, values, rows, r)
  {
    if r.Some? {
      var i: nat :| FirstBestAt(values, less, rows, i) && r == values(rows[i]);
      assert LeastAt(number, values, rows, i);
    }
  }

  lemma GreatestOfGreater<E(!new)>(number: E -> real, greater: (E, E) -> bool, values: nat -> Option<E>,
                                   rows: seq<nat>, r: Option<E>)
    requires IsExtremum(values, greater, rows, r) && forall a, b :: greater(a, b) <==> number(a) > number(b)
    ensures IsGreatest(number, values, rows, r)
  {
    if r.Some? {
      var i: nat :| FirstBestAt(values, greater, rows, i) && r == values(rows[i]);
      assert GreatestAt(number, values, rows, i);
    }
  }

  const INT_NUMBER: i64 -> real := (a: i64) => a as real
  const FLOAT_NUMBER: Float -> real := (a: Float) => a.value

  /** The parallel float minimum and maximum keep the first of several zeros, whatever its sign. */
  method MinAndMaxFloat(values: nat -> Option<Float>, rows: seq<nat>, schedule: Schedule)
    returns (min: Option<Float>, max: Option<Float>)
    requires Possible(schedule)
    ensures IsLeast(FLOAT_NUMBER, values, rows, min) && IsGreatest(FLOAT_NUMBER, values, rows, max)
  {
    ConcreteOrders();
    ChunkIsExtremum(values, LESS_FLOAT, rows);
    ChunkIsExtremum(values, GREATER_FLOAT, rows);
    min := ReduceScalar(values, LESS_FLOAT, rows, schedule);
    max := ReduceScalar(values, GREATER_FLOAT, rows, schedule);
    LeastOfLess(FLOAT_NUMBER, LESS_FLOAT, values, rows, min);
    GreatestOfGreater(FLOAT_NUMBER, GREATER_FLOAT, values, rows, max);
  }

  /** The same for `Int64`, nullable or not. */
  method MinAndMaxInt(values: nat -> Option<i64>, rows: seq<nat>, schedule: Schedule)
    returns (min: Option<i64>, max: Option<i64>)
    requires Possible(schedule)
    ensures IsLeast(INT_NUMBER, values, rows, min) && IsGreatest(INT_NUMBER, values, rows, max)
  {
    ConcreteOrders();
    ChunkIsExtremum(values, LESS_INT, rows);
    ChunkIsExtremum(values, GREATER_INT, rows);
    min := ReduceScalar(values, LESS_INT, rows, schedule);
    max := ReduceScalar(values, GREATER_INT, rows, schedule);
    LeastOfLess(INT_NUMBER, LESS_INT, values, rows, min);
    GreatestOfGreater(INT_NUMBER, GREATER_INT, values, rows, max);
  }
}
