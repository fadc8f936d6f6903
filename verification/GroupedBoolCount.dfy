/** `COUNT` and `countIf` grouped by `Bool` (`src/batch/grouped_bool_count.rs`). */
module GroupedBoolCount {
  import opened Words
  import opened Scheduler
  import opened ParallelDriver

  const I64_MAX: int := 0x7FFF_FFFF_FFFF_FFFF

  datatype Overflow = NumericOverflow(operation: string)

  /** The four counters and the first key seen, as one value. */
  datatype Tally = Tally(falseRows: nat, trueRows: nat, falseCount: nat, trueCount: nat, firstSeen: Option<bool>)

  const NOTHING: Tally := Tally(0, 0, 0, 0, None)

  type Outcome = Result<Tally, Overflow>

  // ---------- the reference meaning ----------

  /** How many of the selected rows have key `key`, and how many of those are counted. */
  function RowsWithKey(group: nat -> bool, key: bool, rows: seq<nat>): (r: nat)
    ensures r <= |rows|
  {
    if rows == [] then 0
    else RowsWithKey(group, key, rows[..|rows| - 1]) + (if group(rows[|rows| - 1]) == key then 1 else 0)
  }

  function CountedWithKey(group: nat -> bool, counted: nat -> bool, key: bool, rows: seq<nat>): (r: nat)
    ensures r <= RowsWithKey(group, key, rows)
  {
    if rows == [] then 0
    else
      var last := rows[|rows| - 1];
      CountedWithKey(group, counted, key, rows[..|rows| - 1]) + (if group(last) == key && counted(last) then 1 else 0)
  }

  /** The positions with a property, among those of the rows. */
  function Positions(holds: nat -> bool, rows: seq<nat>): (r: set<nat>) {
    set i: nat | i < |rows| && holds(rows[i])
  }

  lemma PositionsNext(holds: nat -> bool, init: seq<nat>, last: nat)
    ensures Positions(holds, init + [last]) == Positions(holds, init) + (if holds(last) then {|init|} else {})
    ensures |init| !in Positions(holds, init)
  {
    var rows := init + [last];
    forall i: nat
      ensures i in Positions(holds, rows) <==> i in Positions(holds, init) || (i == |init| && holds(last))
    {
      assert i < |init| ==> rows[i] == init[i];
    }
  }

  lemma {:induction false} RowsMean(group: nat -> bool, key: bool, rows: seq<nat>)
    ensures RowsWithKey(group, key, rows) == |Positions((row: nat) => group(row) == key, rows)|
    decreases |rows|
  {
    if rows != [] {
      var n := |rows| - 1;
      assert rows == rows[..n] + [rows[n]];
      PositionsNext((row: nat) => group(row) == key, rows[..n], rows[n]);
      hide Positions;
      RowsMean(group, key, rows[..n]);
    }
  }

  lemma {:induction false} CountedMean(group: nat -> bool, counted: nat -> bool, key: bool, rows: seq<nat>)
    ensures CountedWithKey(group, counted, key, rows)
         == |Positions((row: nat) => group(row) == key && counted(row), rows)|
    decreases |rows|
  {
    if rows != [] {
      var n := |rows| - 1;
      assert rows == rows[..n] + [rows[n]];
      PositionsNext((row: nat) => group(row) == key && counted(row), rows[..n], rows[n]);
      hide Positions;
      CountedMean(group, counted, key, rows[..n]);
    }
  }

  /** The positions of rows with key `key`, and of the counted ones among them. */
  function WithKey(group: nat -> bool, key: bool, rows: seq<nat>): (r: set<nat>) {
    set i: nat | i < |rows| && group(rows[i]) == key
  }

  function CountedPositions(group: nat -> bool, counted: nat -> bool, key: bool, rows: seq<nat>): (r: set<nat>) {
    set i: nat | i < |rows| && group(rows[i]) == key && counted(rows[i])
  }

  /** The counts are numbers of positions, each counted once. */
  lemma CountsMean(group: nat -> bool, counted: nat -> bool, key: bool, rows: seq<nat>)
    ensures RowsWithKey(group, key, rows) == |WithKey(group, key, rows)|
    ensures CountedWithKey(group, counted, key, rows) == |CountedPositions(group, counted, key, rows)|
  {
    RowsMean(group, key, rows);
    CountedMean(group, counted, key, rows);
    assert WithKey(group, key, rows) == Positions((row: nat) => group(row) == key, rows);
    assert CountedPositions(group, counted, key, rows)
        == Positions((row: nat) => group(row) == key && counted(row), rows);
  }

  /** The exact tally of a selection, with unbounded counters. */
  function ExactTally(group: nat -> bool, counted: nat -> bool, rows: seq<nat>): (r: Tally) {
    Tally(RowsWithKey(group, false, rows), RowsWithKey(group, true, rows),
          CountedWithKey(group, counted, false, rows), CountedWithKey(group, counted, true, rows),
          FirstKey(group, rows))
  }

  predicate Representable(t: Tally) {
    t.falseRows <= I64_MAX && t.trueRows <= I64_MAX && t.falseCount <= I64_MAX && t.trueCount <= I64_MAX
  }

  /** The tally when every counter fits `Int64`, the operation's overflow error otherwise. */
  function Checked(t: Tally, operation: string): (r: Outcome) {
    if Representable(t) then Ok(t) else Err(NumericOverflow(operation))
  }

  // ---------- observing and scanning ----------

  function Observed(t: Tally, key: bool, counted: bool): (r: Tally) {
    var more := if counted then 1 else 0;
    var first := if t.firstSeen.None? then Some(key) else t.firstSeen;
    if key then t.(trueRows := t.trueRows + 1, trueCount := t.trueCount + more, firstSeen := first)
    else t.(falseRows := t.falseRows + 1, falseCount := t.falseCount + more, firstSeen := first)
  }

  class Partial {
    var falseRows: nat
    var trueRows: nat
    var falseCount: nat
    var trueCount: nat
    var firstSeen: Option<bool>

    constructor ()
      ensures View() == NOTHING
    {
      falseRows, trueRows, falseCount, trueCount, firstSeen := 0, 0, 0, 0, None;
    }

    function View(): (r: Tally)
      reads this
    {
      Tally(falseRows, trueRows, falseCount, trueCount, firstSeen)
    }

    method Observe(key: bool, counted: bool, operation: string) returns (error: Option<Overflow>)
      requires Representable(View())
      modifies this
      ensures match Checked(Observed(old(View()), key, counted), operation)
              case Ok(t) => error.None? && View() == t
              case Err(e) => error == Some(e)
    {
      if firstSeen.None? {
        firstSeen := Some(key);
      }
      if (if key then trueRows else falseRows) + 1 > I64_MAX {
        return Some(NumericOverflow(operation));
      }
      if key {
        trueRows := trueRows + 1;
      } else {
        falseRows := falseRows + 1;
      }
      if counted {
        if (if key then trueCount else falseCount) + 1 > I64_MAX {
          return Some(NumericOverflow(operation));
        }
        if key {
          trueCount := trueCount + 1;
        } else {
          falseCount := falseCount + 1;
        }
      }
      return None;
    }
  }

  lemma TallyMonotone(group: nat -> bool, counted: nat -> bool, rows: seq<nat>, k: nat)
    requires k < |rows|
    ensures ExactTally(group, counted, rows[..k + 1])
         == Observed(ExactTally(group, counted, rows[..k]), group(rows[k]), counted(rows[k]))
  {
    assert rows[..k + 1][..k] == rows[..k];
  }

  lemma {:induction false} PrefixTally(group: nat -> bool, counted: nat -> bool, rows: seq<nat>, k: nat)
    requires k <= |rows|
    ensures var part, whole := ExactTally(group, counted, rows[..k]), ExactTally(group, counted, rows);
      && part.falseRows <= whole.falseRows && part.trueRows <= whole.trueRows
      && part.falseCount <= whole.falseCount && part.trueCount <= whole.trueCount
    decreases |rows| - k
  {
    if k == |rows| {
      assert rows[..k] == rows;
    } else {
      TallyMonotone(group, counted, rows, k);
      PrefixTally(group, counted, rows, k + 1);
    }
  }

  /** The chunk scan of all three reductions: `counted` is constantly true for row counts,
      presence for a nullable column, the argument for `countIf`. It reports the exact tally,
      or overflow exactly when some exact counter leaves `Int64`. */
  method Scan(group: nat -> bool, counted: nat -> bool, rows: seq<nat>, operation: string) returns (r: Outcome)
    ensures r == Checked(ExactTally(group, counted, rows), operation)
  {
    var partial := new Partial();
    for i := 0 to |rows|
      invariant partial.View() == ExactTally(group, counted, rows[..i])
      invariant Representable(partial.View())
    {
      TallyMonotone(group, counted, rows, i);
      var error := partial.Observe(group(rows[i]), counted(rows[i]), operation);
      if error.Some? {
        PrefixTally(group, counted, rows, i + 1);
        return Err(error.value);
      }
    }
    assert rows[..|rows|] == rows;
    return Ok(partial.View());
  }

  // ---------- ordered reduction ----------

  function Sum(a: Tally, b: Tally): (r: Tally) {
    Tally(a.falseRows + b.falseRows, a.trueRows + b.trueRows, a.falseCount + b.falseCount,
          a.trueCount + b.trueCount, if a.firstSeen.None? then b.firstSeen else a.firstSeen)
  }

  function SumAll(partials: seq<Tally>): (r: Tally) {
    if partials == [] then NOTHING else Sum(SumAll(partials[..|partials| - 1]), partials[|partials| - 1])
  }

  lemma {:induction false} SumAllPrefix(partials: seq<Tally>, k: nat)
    requires k <= |partials| && Representable(SumAll(partials))
    ensures Representable(SumAll(partials[..k]))
    decreases |partials|
  {
    if k == |partials| {
      assert partials[..k] == partials;
    } else {
      var init := partials[..|partials| - 1];
      assert init[..k] == partials[..k];
      SumAllPrefix(init, k);
    }
  }

  method ReduceOrdered(partials: seq<Tally>, operation: string) returns (r: Outcome)
    ensures r == Checked(SumAll(partials), operation)
  {
    var total := NOTHING;
    for i := 0 to |partials|
      invariant total == SumAll(partials[..i]) && Representable(total)
    {
      var partial := partials[i];
      assert partials[..i + 1][..i] == partials[..i];
      if Representable(SumAll(partials)) {
        SumAllPrefix(partials, i + 1);
      }
      if total.firstSeen.None? {
        total := total.(firstSeen := partial.firstSeen);
      }
      if total.falseRows + partial.falseRows > I64_MAX {
        return Err(NumericOverflow(operation));
      }
      total := total.(falseRows := total.falseRows + partial.falseRows);
      if total.trueRows + partial.trueRows > I64_MAX {
        return Err(NumericOverflow(operation));
      }
      total := total.(trueRows := total.trueRows + partial.trueRows);
      if total.falseCount + partial.falseCount > I64_MAX {
        return Err(NumericOverflow(operation));
      }
      total := total.(falseCount := total.falseCount + partial.falseCount);
      if total.trueCount + partial.trueCount > I64_MAX {
        return Err(NumericOverflow(operation));
      }
      total := total.(trueCount := total.trueCount + partial.trueCount);
    }
    assert partials[..|partials|] == partials;
    return Ok(total);
  }

  lemma {:induction false} CountsConcat(group: nat -> bool, counted: nat -> bool, key: bool, a: seq<nat>, b: seq<nat>)
    ensures RowsWithKey(group, key, a + b) == RowsWithKey(group, key, a) + RowsWithKey(group, key, b)
    ensures CountedWithKey(group, counted, key, a + b)
         == CountedWithKey(group, counted, key, a) + CountedWithKey(group, counted, key, b)
    decreases |b|
  {
    if b == [] {
      assert a + b == a;
    } else {
      var init := b[..|b| - 1];
      assert (a + b)[..|a + b| - 1] == a + init;
      CountsConcat(group, counted, key, a, init);
    }
  }

  lemma TallyConcat(group: nat -> bool, counted: nat -> bool, a: seq<nat>, b: seq<nat>)
    ensures ExactTally(group, counted, a + b) == Sum(ExactTally(group, counted, a), ExactTally(group, counted, b))
  {
    CountsConcat(group, counted, false, a, b);
    CountsConcat(group, counted, true, a, b);
  }

  /** The partials collected so far sum to `whole`, or `whole` already overflows. */
  predicate SumsTo(collected: Result<seq<Tally>, Overflow>, whole: Tally, operation: string) {
    match collected
    case Ok(partials) => SumAll(partials) == whole
    case Err(error) => error == NumericOverflow(operation) && !Representable(whole)
  }

  /** One step of collecting. */
  function Collected(front: Result<seq<Tally>, Overflow>, last: Outcome): (r: Result<seq<Tally>, Overflow>) {
    if front.Err? then front
    else if last.Err? then Err(last.error)
    else Ok(front.value + [last.value])
  }

  lemma SumsToNext(collected: Result<seq<Tally>, Overflow>, whole: Tally, last: Tally, operation: string)
    requires SumsTo(collected, whole, operation)
    ensures SumsTo(Collected(collected, Checked(last, operation)), Sum(whole, last), operation)
  {
    if collected.Ok? {
      assert (collected.value + [last])[..|collected.value|] == collected.value;
    }
  }

  /** Chunk results of any parts either all fit and are the exact tallies, or the whole overflows. */
  lemma {:induction false} PartsTally(group: nat -> bool, counted: nat -> bool, operation: string, parts: seq<seq<nat>>)
    ensures SumsTo(Collect(Chunks(part => Checked(ExactTally(group, counted, part), operation), parts)),
                   ExactTally(group, counted, Flatten(parts)), operation)
    decreases |parts|
  {
    if parts != [] {
      var chunk := part => Checked(ExactTally(group, counted, part), operation);
      var init, last := parts[..|parts| - 1], parts[|parts| - 1];
      assert Chunks(chunk, parts)[..|parts| - 1] == Chunks(chunk, init);
      PartsTally(group, counted, operation, init);
      TallyConcat(group, counted, Flatten(init), last);
      SumsToNext(Collect(Chunks(chunk, init)), ExactTally(group, counted, Flatten(init)),
                 ExactTally(group, counted, last), operation);
    }
  }

  lemma CountingIsLawful(group: nat -> bool, counted: nat -> bool, operation: string, rows: seq<nat>)
    ensures Lawful(part => Checked(ExactTally(group, counted, part), operation),
                   (partials: seq<Tally>) => Checked(SumAll(partials), operation), rows)
  {
    forall parts: seq<seq<nat>> | parts != [] && Flatten(parts) == rows
      ensures Combined(part => Checked(ExactTally(group, counted, part), operation),
                       (partials: seq<Tally>) => Checked(SumAll(partials), operation), parts)
           == Checked(ExactTally(group, counted, rows), operation)
    {
      PartsTally(group, counted, operation, parts);
    }
  }

  /** For every fault schedule the parallel reduction returns the exact rows, counts and
      first-seen key of the whole selection, or the operation's overflow error exactly when a
      counter of the whole selection leaves `Int64`. */
  method Reduce(group: nat -> bool, counted: nat -> bool, rows: seq<nat>, schedule: Schedule, operation: string)
    returns (r: Outcome)
    requires Possible(schedule)
    ensures r == Checked(ExactTally(group, counted, rows), operation)
    ensures r.Ok? ==>
      && r.value.falseRows == |WithKey(group, false, rows)|
      && r.value.trueRows == |WithKey(group, true, rows)|
      && r.value.falseCount == |CountedPositions(group, counted, false, rows)|
      && r.value.trueCount == |CountedPositions(group, counted, true, rows)|
      && r.value.firstSeen == if rows == [] then None else Some(group(rows[0]))
    ensures r.Err? <==>
      |WithKey(group, false, rows)| >= I64_LIMIT || |WithKey(group, true, rows)| >= I64_LIMIT
  {
    CountsMean(group, counted, false, rows);
    CountsMean(group, counted, true, rows);
    CountingIsLawful(group, counted, operation, rows);
    var trace;
    r, trace := RunGroupedAggregate(rows, schedule,
      part => Checked(ExactTally(group, counted, part), operation),
      (partials: seq<Tally>) => Checked(SumAll(partials), operation));
  }
}
