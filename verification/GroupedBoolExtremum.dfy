/** `MIN` and `MAX` grouped by `Bool` (`src/batch/grouped_bool_min.rs`, `grouped_bool_max.rs`).
    The two files differ only in the direction of the order, here a parameter. */
module GroupedBoolExtremum {
  import opened Words
  import opened Scheduler
  import opened ParallelDriver
  import opened ScalarExtremum

  /** The slot of each key and the first key seen. */
  datatype Slots<+T> = Slots(falseBest: Option<T>, trueBest: Option<T>, firstSeen: Option<bool>)

  // ---------- the reference meaning ----------

  /** The column seen through one key: rows of the other key read as NULL. */
  function ForKey<T>(group: nat -> bool, values: nat -> T, key: bool): (r: nat -> Option<T>) {
    (row: nat) => if group(row) == key then Some(values(row)) else None
  }

  /** Per key, the extremum over the selected rows of that key; and the first row's key. */
  function Exact<T>(group: nat -> bool, values: nat -> T, better: (T, T) -> bool, rows: seq<nat>): (r: Slots<T>) {
    Slots(Chunk(ForKey(group, values, false), better, rows),
          Chunk(ForKey(group, values, true), better, rows), FirstKey(group, rows))
  }

  // ---------- observing and scanning ----------

  function Observed<T>(s: Slots<T>, key: bool, value: T, better: (T, T) -> bool): (r: Slots<T>) {
    var first := if s.firstSeen.None? then Some(key) else s.firstSeen;
    if key then Slots(s.falseBest, ReducePartials(better, s.trueBest, Some(value)), first)
    else Slots(ReducePartials(better, s.falseBest, Some(value)), s.trueBest, first)
  }

  class Partial<T(!new)> {
    var falseBest: Option<T>
    var trueBest: Option<T>
    var firstSeen: Option<bool>

    constructor ()
      ensures View() == Slots(None, None, None)
    {
      falseBest, trueBest, firstSeen := None, None, None;
    }

    function View(): (r: Slots<T>)
      reads this
    {
      Slots(falseBest, trueBest, firstSeen)
    }

    method Observe(key: bool, value: T, better: (T, T) -> bool)
      modifies this
      ensures View() == Observed(old(View()), key, value, better)
    {
      if firstSeen.None? {
        firstSeen := Some(key);
      }
      if key {
        trueBest := Some(if trueBest.None? then value else Pick(better, trueBest.value, value));
      } else {
        falseBest := Some(if falseBest.None? then value else Pick(better, falseBest.value, value));
      }
    }
  }

  lemma ExactNext<T>(group: nat -> bool, values: nat -> T, better: (T, T) -> bool, rows: seq<nat>, k: nat)
    requires k < |rows|
    ensures Exact(group, values, better, rows[..k + 1])
         == Observed(Exact(group, values, better, rows[..k]), group(rows[k]), values(rows[k]), better)
  {
    assert rows[..k + 1][..k] == rows[..k];
  }

  method Scan<T(!new)>(group: nat -> bool, values: nat -> T, better: (T, T) -> bool, rows: seq<nat>)
    returns (r: Slots<T>)
    ensures r == Exact(group, values, better, rows)
  {
    var partial := new Partial<T>();
    for i := 0 to |rows|
      invariant partial.View() == Exact(group, values, better, rows[..i])
    {
      ExactNext(group, values, better, rows, i);
      partial.Observe(group(rows[i]), values(rows[i]), better);
    }
    assert rows[..|rows|] == rows;
    return partial.View();
  }

  // ---------- ordered reduction ----------

  /** One fold step: the first key is adopted before the slots are observed, false first. */
  function Absorb<T>(total: Slots<T>, partial: Slots<T>, better: (T, T) -> bool): (r: Slots<T>) {
    var adopted := if total.firstSeen.None? then total.(firstSeen := partial.firstSeen) else total;
    var withFalse := if partial.falseBest.Some? then Observed(adopted, false, partial.falseBest.value, better)
        else adopted;
    if partial.trueBest.Some? then Observed(withFalse, true, partial.trueBest.value, better) else withFalse
  }

  function ReduceOrdered<T>(partials: seq<Slots<T>>, better: (T, T) -> bool): (r: Slots<T>) {
    if |partials| == 0 then Slots(None, None, None)
    else Absorb(ReduceOrdered(partials[..|partials| - 1], better), partials[|partials| - 1], better)
  }

  /** A stored extremum implies a recorded first key, so absorbing never invents a first key. */
  predicate KeyRecorded<T>(s: Slots<T>) {
    s.falseBest.Some? || s.trueBest.Some? ==> s.firstSeen.Some?
  }

  lemma AbsorbKeepsFirstKey<T>(total: Slots<T>, partial: Slots<T>, better: (T, T) -> bool)
    requires KeyRecorded(partial)
    ensures Absorb(total, partial, better)
         == Slots(ReducePartials(better, total.falseBest, partial.falseBest),
                  ReducePartials(better, total.trueBest, partial.trueBest),
                  if total.firstSeen.None? then partial.firstSeen else total.firstSeen)
  {
  }

  /** Without that invariant the fold would: a partial holding both extrema but no first key
      makes the key `false` first, whatever was really seen first. */
  lemma UnrecordedKeyWouldBeInvented()
    ensures Absorb(Slots(None, None, None), Slots(Some(1 as i64), Some(2 as i64), None), LESS_INT).firstSeen
        == Some(false)
  {
  }

  lemma ExactConcat<T(!new)>(group: nat -> bool, values: nat -> T, better: (T, T) -> bool, a: seq<nat>, b: seq<nat>)
    requires StrictWeakOrder(better)
    ensures Exact(group, values, better, a + b)
         == Absorb(Exact(group, values, better, a), Exact(group, values, better, b), better)
  {
    ChunkConcat(ForKey(group, values, false), better, a, b);
    ChunkConcat(ForKey(group, values, true), better, a, b);
    AbsorbKeepsFirstKey(Exact(group, values, better, a), Exact(group, values, better, b), better);
    if |a| == 0 {
      assert a + b == b;
    }
  }

  /** Position `i` holds the first best value among the rows whose key is `key`. */
  ghost predicate BestOfKeyAt<T>(group: nat -> bool, values: nat -> T, better: (T, T) -> bool, key: bool,
                                 rows: seq<nat>, i: nat)
  {
    && i < |rows| && group(rows[i]) == key
    && forall j :: 0 <= j < |rows| && group(rows[j]) == key ==>
         !better(values(rows[j]), values(rows[i])) && (j < i ==> better(values(rows[i]), values(rows[j])))
  }

  /** Nothing without a row of that key, otherwise the value at the first best of its positions. */
  ghost predicate BestOfKey<T>(group: nat -> bool, values: nat -> T, better: (T, T) -> bool, key: bool,
                               rows: seq<nat>, r: Option<T>)
  {
    if r.None? then forall j :: 0 <= j < |rows| ==> group(rows[j]) != key
    else exists i: nat :: BestOfKeyAt(group, values, better, key, rows, i) && r == Some(values(rows[i]))
  }

  lemma BestOfKeyIs<T(!new)>(group: nat -> bool, values: nat -> T, better: (T, T) -> bool, key: bool, rows: seq<nat>)
    requires StrictWeakOrder(better)
    ensures BestOfKey(group, values, better, key, rows, Chunk(ForKey(group, values, key), better, rows))
  {
    var seen := ForKey(group, values, key);
    ChunkIsExtremum(seen, better, rows);
    var r := Chunk(seen, better, rows);
    if r.Some? {
      var i: nat :| FirstBestAt(seen, better, rows, i) && r == seen(rows[i]);
      forall j | 0 <= j < |rows| && group(rows[j]) == key
        ensures !better(values(rows[j]), values(rows[i])) && (j < i ==> better(values(rows[i]), values(rows[j])))
      {
        assert seen(rows[j]) == Some(values(rows[j]));
      }
      assert BestOfKeyAt(group, values, better, key, rows, i);
    } else {
      forall j | 0 <= j < |rows|
        ensures group(rows[j]) != key
      {
        assert seen(rows[j]).None?;
      }
    }
  }

  /** The two closures handed to the driver; neither ever fails. */
  function ChunkOf<T>(group: nat -> bool, values: nat -> T, better: (T, T) -> bool)
      : (r: seq<nat> -> Result<Slots<T>, ()>)
  {
    part => Ok(Exact(group, values, better, part))
  }

  function ReduceOf<T>(better: (T, T) -> bool): (r: seq<Slots<T>> -> Result<Slots<T>, ()>) {
    partials => Ok(ReduceOrdered(partials, better))
  }

  lemma {:induction false} PartsReduceExactly<T(!new)>(group: nat -> bool, values: nat -> T, better: (T, T) -> bool,
                                                       parts: seq<seq<nat>>)
    requires StrictWeakOrder(better)
    ensures Combined(ChunkOf(group, values, better), ReduceOf(better), parts)
         == Ok(Exact(group, values, better, Flatten(parts)))
    decreases |parts|
  {
    var chunk := ChunkOf(group, values, better);
    if |parts| > 0 {
      var init, last := parts[..|parts| - 1], parts[|parts| - 1];
      assert Chunks(chunk, parts)[..|parts| - 1] == Chunks(chunk, init);
      PartsReduceExactly(group, values, better, init);
      var front := Collect(Chunks(chunk, init)).value;
      assert (front + [Exact(group, values, better, last)])[..|front|] == front;
      ExactConcat(group, values, better, Flatten(init), last);
    }
  }

  /** For every fault schedule each key's slot is the extremum over that key's rows, and the
      first-seen key is that of the first selected row. */
  method Reduce<T(!new)>(group: nat -> bool, values: nat -> T, better: (T, T) -> bool, rows: seq<nat>,
      schedule: Schedule)
    returns (r: Slots<T>)
    requires Possible(schedule) && StrictWeakOrder(better)
    ensures r == Exact(group, values, better, rows)
    ensures BestOfKey(group, values, better, false, rows, r.falseBest)
    ensures BestOfKey(group, values, better, true, rows, r.trueBest)
    ensures r.firstSeen == if rows == [] then None else Some(group(rows[0]))
  {
    forall parts: seq<seq<nat>> | parts != [] && Flatten(parts) == rows
      ensures Combined(ChunkOf(group, values, better), ReduceOf(better), parts)
          == Ok(Exact(group, values, better, rows))
    {
      PartsReduceExactly(group, values, better, parts);
    }
    assert Lawful(ChunkOf(group, values, better), ReduceOf(better), rows);
    var outcome, trace := RunGroupedAggregate(rows, schedule, ChunkOf(group, values, better), ReduceOf(better));
    BestOfKeyIs(group, values, better, false, rows);
    BestOfKeyIs(group, values, better, true, rows);
    return outcome.value;
  }
}
