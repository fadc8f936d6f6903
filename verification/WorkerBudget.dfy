/** The process-wide helper budget of `src/batch/aggregate_scheduler.rs` as an interleaved
    machine: any number of threads load, compare-and-swap and drop in any order. */
module WorkerBudget {
  import opened Words

  datatype Thread =
    | Idle
    | Trying(requested: nat, observed: nat)
    | Holding(granted: nat, requested: nat)

  /** `helpersInUse` is the shared atomic word. */
  datatype State<+Threads> = State(limit: usize, helpersInUse: usize, threads: Threads)

  type Budget = State<seq<Thread>>

  datatype Action =
    | Load(thread: nat, requested: nat)
    | Attempt(thread: nat, spurious: bool)
    | Drop(thread: nat)

  function Initial(limit: usize, threads: nat): (r: Budget) {
    State(limit, 0, seq(threads, i => Idle))
  }

  /** What an attempt asks for, given the value it last saw. */
  function Acquirable(limit: nat, requested: nat, observed: nat): (r: nat) {
    Min(requested, SaturatingSub(limit, observed))
  }

  predicate Enabled(s: Budget, a: Action) {
    && a.thread < |s.threads|
    && match a
       case Load(t, requested) => s.threads[t].Idle?
       case Attempt(t, spurious) => s.threads[t].Trying?
       case Drop(t) => s.threads[t].Holding?
  }

  /** One atomic step. An attempt that can acquire nothing returns without touching the word;
      otherwise its compare-and-swap succeeds only on the value it saw, and on failure, real
      or spurious, it adopts the current value. */
  function Step(s: Budget, a: Action): (r: Budget)
    requires Enabled(s, a)
  {
    match a
    case Load(t, requested) =>
      s.(threads := s.threads[t := Trying(requested, s.helpersInUse)])
    case Attempt(t, spurious) =>
      var Trying(requested, observed) := s.threads[t];
      var acquired := Acquirable(s.limit, requested, observed);
      if acquired == 0 then
        s.(threads := s.threads[t := Idle])
      else if s.helpersInUse == observed && !spurious then
        s.(helpersInUse := SaturatingAdd(observed, acquired), threads := s.threads[t := Holding(acquired, requested)])
      else
        s.(threads := s.threads[t := Trying(requested, s.helpersInUse)])
    case Drop(t) =>
      s.(helpersInUse := WrappingSub(s.helpersInUse, s.threads[t].granted), threads := s.threads[t := Idle])
  }

  /** `fetch_sub` wraps around on underflow. */
  function WrappingSub(a: usize, b: nat): (r: usize) {
    (a - b) % U64_LIMIT
  }

  /** Running a schedule; `None` when some step is not enabled. */
  function Run(s: Budget, schedule: seq<Action>): (r: Option<Budget>)
    decreases |schedule|
  {
    if schedule == [] then Some(s)
    else if Enabled(s, schedule[0]) then Run(Step(s, schedule[0]), schedule[1..])
    else None
  }

  function Permit(t: Thread): (r: nat) {
    if t.Holding? then t.granted else 0
  }

  function LivePermits(threads: seq<Thread>): (r: nat) {
    if threads == [] then 0 else Permit(threads[0]) + LivePermits(threads[1..])
  }

  predicate Sound(limit: nat, threads: seq<Thread>) {
    forall t :: 0 <= t < |threads| ==>
      match threads[t]
      case Idle => true
      case Trying(_, observed) => observed <= limit
      case Holding(granted, requested) => 1 <= granted <= requested
  }

  /** Helpers in use are exactly the live permits, within the limit. */
  predicate Invariant(s: Budget) {
    s.helpersInUse == LivePermits(s.threads) && s.helpersInUse <= s.limit && Sound(s.limit, s.threads)
  }

  lemma {:induction false} LivePermitsUpdate(threads: seq<Thread>, t: nat, next: Thread)
    requires t < |threads|
    ensures LivePermits(threads[t := next]) + Permit(threads[t]) == LivePermits(threads) + Permit(next)
    ensures Permit(threads[t]) <= LivePermits(threads)
    decreases |threads|
  {
    if t == 0 {
      assert threads[t := next][1..] == threads[1..];
    } else {
      assert threads[t := next][1..] == threads[1..][t - 1 := next];
      LivePermitsUpdate(threads[1..], t - 1, next);
    }
  }

  lemma {:induction false} IdleHoldsNothing(n: nat)
    ensures LivePermits(seq(n, i => Idle)) == 0
    decreases n
  {
    if n > 0 {
      assert seq(n, i => Idle)[1..] == seq(n - 1, i => Idle);
      IdleHoldsNothing(n - 1);
    }
  }

  lemma InitialInvariant(limit: usize, threads: nat)
    ensures Invariant(Initial(limit, threads))
  {
    IdleHoldsNothing(threads);
  }

  lemma StepKeepsInvariant(s: Budget, a: Action)
    requires Invariant(s) && Enabled(s, a)
    ensures Invariant(Step(s, a))
  {
    var next := Step(s, a).threads[a.thread];
    LivePermitsUpdate(s.threads, a.thread, next);
    assert Step(s, a).threads == s.threads[a.thread := next];
  }

  lemma {:induction false} RunKeepsInvariant(s: Budget, schedule: seq<Action>)
    requires Invariant(s) && Run(s, schedule).Some?
    ensures Invariant(Run(s, schedule).value) && Run(s, schedule).value.limit == s.limit
    ensures |Run(s, schedule).value.threads| == |s.threads|
    decreases |schedule|
  {
    if schedule != [] {
      StepKeepsInvariant(s, schedule[0]);
      RunKeepsInvariant(Step(s, schedule[0]), schedule[1..]);
    }
  }

  /** In every interleaving, helpers in use equal the sum of live permits and stay within the
      limit, every grant lies between one and the request, and no release underflows. */
  lemma EveryRunIsSafe(limit: usize, threads: nat, schedule: seq<Action>, t: nat)
    requires Run(Initial(limit, threads), schedule).Some?
    ensures var s := Run(Initial(limit, threads), schedule).value;
      && s.helpersInUse == LivePermits(s.threads) <= limit
      && s.limit == limit && |s.threads| == threads
      && (t < |s.threads| && s.threads[t].Holding? ==>
            1 <= s.threads[t].granted <= s.threads[t].requested
            && s.threads[t].granted <= s.helpersInUse
            && Step(s, Drop(t)).helpersInUse == s.helpersInUse - s.threads[t].granted)
  {
    InitialInvariant(limit, threads);
    RunKeepsInvariant(Initial(limit, threads), schedule);
    var s := Run(Initial(limit, threads), schedule).value;
    if t < |s.threads| {
      LivePermitsUpdate(s.threads, t, Idle);
    }
  }

  /** A successful swap grants exactly what the request and the free budget allow at that
      instant; a refusal means the request was empty or the value last read was the limit. */
  lemma AttemptOutcome(limit: usize, threads: nat, schedule: seq<Action>, a: Action)
    requires Run(Initial(limit, threads), schedule).Some?
    requires a.Attempt? && Enabled(Run(Initial(limit, threads), schedule).value, a)
    ensures var s := Run(Initial(limit, threads), schedule).value;
      var before, after := s.threads[a.thread], Step(s, a).threads[a.thread];
      && (after.Holding? ==> after.granted == Min(before.requested, SaturatingSub(limit, s.helpersInUse)))
      && (after.Holding? ==> Step(s, a).helpersInUse == s.helpersInUse + after.granted)
      && (after.Idle? <==> before.requested == 0 || before.observed == limit)
      && (after.Trying? <==> !after.Idle? && (a.spurious || s.helpersInUse != before.observed))
      && (after.Trying? ==> after == Trying(before.requested, s.helpersInUse))
      && (!after.Holding? ==> Step(s, a).helpersInUse == s.helpersInUse)
  {
    InitialInvariant(limit, threads);
    RunKeepsInvariant(Initial(limit, threads), schedule);
  }

  /** A request sees the current value, and an attempt made on it that does not fail spuriously is
      granted as long as budget is free; the same holds of the retry after a failed attempt. */
  lemma FreshAttemptIsGranted(s: Budget, t: nat, requested: nat)
    requires Invariant(s) && t < |s.threads| && requested > 0 && s.helpersInUse < s.limit
    ensures s.threads[t].Idle? ==>
      Step(Step(s, Load(t, requested)), Attempt(t, false)).threads[t]
      == Holding(Min(requested, s.limit - s.helpersInUse), requested)
    ensures (s.threads[t].Trying? && s.threads[t].requested == requested
             && Step(s, Attempt(t, true)).threads[t].Trying?) ==>
      Step(Step(s, Attempt(t, true)), Attempt(t, false)).threads[t]
      == Holding(Min(requested, s.limit - s.helpersInUse), requested)
  {
  }

  /** A step changes its own thread only. */
  lemma OthersAreUntouched(s: Budget, a: Action, t: nat)
    requires Enabled(s, a) && t < |s.threads| && t != a.thread
    ensures |Step(s, a).threads| == |s.threads| && Step(s, a).threads[t] == s.threads[t]
    ensures a.Drop? ==> Step(s, a).threads[a.thread] == Idle
  {
  }

  /** Once every thread has let go, the whole budget is free again. */
  lemma QuiescentBudgetIsFree(limit: usize, threads: nat, schedule: seq<Action>)
    requires Run(Initial(limit, threads), schedule).Some?
    ensures var s := Run(Initial(limit, threads), schedule).value;
      (forall t :: 0 <= t < |s.threads| ==> !s.threads[t].Holding?) ==> s.helpersInUse == 0
  {
    InitialInvariant(limit, threads);
    RunKeepsInvariant(Initial(limit, threads), schedule);
    var s := Run(Initial(limit, threads), schedule).value;
    if forall t :: 0 <= t < |s.threads| ==> !s.threads[t].Holding? {
      NoHolders(s.threads);
    }
  }

  lemma {:induction false} NoHolders(threads: seq<Thread>)
    requires forall t :: 0 <= t < |threads| ==> !threads[t].Holding?
    ensures LivePermits(threads) == 0
    decreases |threads|
  {
    if threads != [] {
      NoHolders(threads[1..]);
    }
  }
}
