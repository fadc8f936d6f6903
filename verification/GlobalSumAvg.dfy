/** Exact `SUM` and `AVG` partials (`src/batch/global_int64_sum_avg.rs`). */
module GlobalSumAvg {
  import opened Words
  import opened Scheduler
  import opened ParallelDriver

  const I128_LIMIT: int := 0x8000_0000_0000_0000_0000_0000_0000_0000

  datatype Operation = Sum | Avg

  datatype Overflow = NumericOverflow(context: string)

  function SumContext(operation: Operation): (r: string) {
    if operation.Sum? then "SUM(Int64) exact sum" else "AVG(Int64) sum"
  }

  function CountContext(operation: Operation): (r: string) {
    if operation.Sum? then "SUM count" else "AVG count"
  }

  /** An `i128` sum and a `u64` count. */
  datatype Partial = Partial(sum: int, count: nat)

  type Outcome = Result<Partial, Overflow>

  predicate FitsI128(sum: int) { -I128_LIMIT <= sum < I128_LIMIT }

  // ---------- the reference meaning ----------

  /** A column is a function from row index to an optional value; a non-nullable column is
      one that never yields `None`. */
  function ExactSum(values: nat -> Option<i64>, rows: seq<nat>): (r: int) {
    if rows == [] then 0
    else ExactSum(values, rows[..|rows| - 1])
         + (match values(rows[|rows| - 1]) case Some(v) => v as int case None => 0)
  }

  function PresentCount(values: nat -> Option<i64>, rows: seq<nat>): (r: nat)
    ensures r <= |rows|
  {
    if rows == [] then 0
    else PresentCount(values, rows[..|rows| - 1]) + (if values(rows[|rows| - 1]).Some? then 1 else 0)
  }

  function Exact(values: nat -> Option<i64>, rows: seq<nat>): (r: Partial) {
    Partial(ExactSum(values, rows), PresentCount(values, rows))
  }

  /** A sum of that many `Int64` values can never leave `i128`. */
  predicate Bounded(p: Partial) {
    -(I64_LIMIT as int) * p.count <= p.sum <= I64_LIMIT * p.count
  }

  lemma {:induction false} ExactIsBounded(values: nat -> Option<i64>, rows: seq<nat>)
    ensures Bounded(Exact(values, rows))
    decreases |rows|
  {
    if rows != [] {
      ExactIsBounded(values, rows[..|rows| - 1]);
    }
  }

  // ---------- the checked operations ----------

  function Observe(p: Partial, value: i64, operation: Operation): (r: Outcome) {
    if !FitsI128(p.sum + value) then Err(NumericOverflow(SumContext(operation)))
    else if p.count + 1 >= U64_LIMIT then Err(NumericOverflow(CountContext(operation)))
    else Ok(Partial(p.sum + value, p.count + 1))
  }

  /** The chunk scans: no selection a slice can hold overflows, and the partial is exact. */
  method Scan(values: nat -> Option<i64>, rows: seq<nat>, operation: Operation) returns (r: Outcome)
    requires |rows| < U64_LIMIT
    ensures r == Ok(Exact(values, rows))
  {
    var partial := Partial(0, 0);
    for i := 0 to |rows|
      invariant partial == Exact(values, rows[..i])
    {
      assert rows[..i + 1][..i] == rows[..i];
      ExactIsBounded(values, rows[..i + 1]);
      var value := values(rows[i]);
      if value.Some? {
        var next := Observe(partial, value.value, operation);
        if next.Err? {
          return next;
        }
        partial := next.value;
      }
    }
    assert rows[..|rows|] == rows;
    return Ok(partial);
  }

  function Merge(total: Partial, partial: Partial, operation: Operation): (r: Outcome) {
    if !FitsI128(total.sum + partial.sum) then Err(NumericOverflow(SumContext(operation)))
    else if total.count + partial.count >= U64_LIMIT then Err(NumericOverflow(CountContext(operation)))
    else Ok(Partial(total.sum + partial.sum, total.count + partial.count))
  }

  /** The ordered checked fold. */
  function ReduceOrdered(partials: seq<Partial>, operation: Operation): (r: Outcome) {
    if partials == [] then Ok(Partial(0, 0))
    else
      match ReduceOrdered(partials[..|partials| - 1], operation)
      case Err(error) => Err(error)
      case Ok(total) => Merge(total, partials[|partials| - 1], operation)
  }

  lemma {:induction false} ExactConcat(values: nat -> Option<i64>, a: seq<nat>, b: seq<nat>)
    ensures ExactSum(values, a + b) == ExactSum(values, a) + ExactSum(values, b)
    ensures PresentCount(values, a + b) == PresentCount(values, a) + PresentCount(values, b)
    decreases |b|
  {
    if b == [] {
      assert a + b == a;
    } else {
      var init := b[..|b| - 1];
      assert (a + b)[..|a + b| - 1] == a + init;
      ExactConcat(values, a, init);
    }
  }

  /** One row adds its own value and counts once, if it has one. */
  lemma ExactOfOne(values: nat -> Option<i64>, row: nat)
    ensures Exact(values, []) == Partial(0, 0)
    ensures Exact(values, [row]) == match values(row) case Some(v) => Partial(v, 1) case None => Partial(0, 0)
  {
    assert [row][..0] == [];
  }

  /** Every partitioning of a selection reduces, without overflow, to its exact sum and count. */
  lemma {:induction false} PartsReduceExactly(values: nat -> Option<i64>, operation: Operation, parts: seq<seq<nat>>)
    requires |Flatten(parts)| < U64_LIMIT
    ensures Combined(part => Ok(Exact(values, part)), (ps: seq<Partial>) => ReduceOrdered(ps, operation), parts)
         == Ok(Exact(values, Flatten(parts)))
    decreases |parts|
  {
    var chunk: seq<nat> -> Outcome := part => Ok(Exact(values, part));
    if parts != [] {
      var init, last := parts[..|parts| - 1], parts[|parts| - 1];
      assert Chunks(chunk, parts)[..|parts| - 1] == Chunks(chunk, init);
      PartsReduceExactly(values, operation, init);
      var front := Collect(Chunks(chunk, init)).value;
      assert (front + [Exact(values, last)])[..|front|] == front;
      ExactConcat(values, Flatten(init), last);
      ExactIsBounded(values, Flatten(parts));
    }
  }

  lemma SummingIsLawful(values: nat -> Option<i64>, operation: Operation, rows: seq<nat>)
    requires |rows| < U64_LIMIT
    ensures Lawful(part => Ok(Exact(values, part)), (ps: seq<Partial>) => ReduceOrdered(ps, operation), rows)
  {
    forall parts: seq<seq<nat>> | parts != [] && Flatten(parts) == rows
      ensures Combined(part => Ok(Exact(values, part)), (ps: seq<Partial>) => ReduceOrdered(ps, operation), parts)
           == Ok(Exact(values, rows))
    {
      PartsReduceExactly(values, operation, parts);
    }
  }

  /** For every fault schedule the parallel reduction is the exact sum and present count. */
  method Reduce(values: nat -> Option<i64>, rows: seq<nat>, schedule: Schedule, operation: Operation)
    returns (r: Outcome)
    requires Possible(schedule) && |rows| < U64_LIMIT
    ensures r == Ok(Exact(values, rows))
  {
    SummingIsLawful(values, operation, rows);
    var trace;
    r, trace := RunGroupedAggregate(rows, schedule,
      part => Ok(Exact(values, part)), (ps: seq<Partial>) => ReduceOrdered(ps, operation));
  }
}
