/** The cancellable concurrent listener of `src/http.rs` as a step machine: one listener thread
    and its workers, interleaved in any order. */
module ListenerMachine {
  import opened Words
  import opened ListenerReport

  /** Where the listener thread stands. */
  datatype Stage =
    | Entry        // before the first read of the stop flag
    | Nonblocking  // before the listener is put into nonblocking mode
    | Head         // at the loop head, before the stop flag is read
    | Waiting      // in a completion wait with a timeout
    | Accepting    // in `accept`
    | Recheck      // a connection was returned; the stop flag is read again
    | Draining     // admission is closed; in a completion wait without a timeout
    | Done
    | Panicked     // a completion named no in-flight connection

  /** `L` is the failure list and `M` the outcome map of exchanges ended so far. */
  datatype State<L, M> = State(
    stage: Stage,
    accepted: nat,
    successes: nat,
    failures: L,
    workers: seq<nat>,      // connections whose completion was not received
    running: set<nat>,      // of these, the ones whose exchange has not ended
    channel: seq<nat>,      // sent completions, oldest first
    outcomes: M,
    acceptFailed: bool,
    stopSeen: bool
  )

  type Listener<E> = State<seq<Failure<E>>, map<nat, Exchange<E>>>

  datatype Event<E> =
    | ReadStop(stop: bool)
    | SetNonblocking(ok: bool)
    | AcceptConnection
    | AcceptInterrupted
    | AcceptWouldBlock
    | AcceptError
    | Receive
    | Timeout
    | Finish(connection: nat, exchange: Exchange<E>)

  function Initial<E>(maxConnections: nat): (r: Listener<E>) {
    State(if maxConnections == 0 then Done else Entry, 0, 0, [], [], {}, [], map[], false, false)
  }

  /** The loop condition. */
  function Continue<E>(maxConnections: nat, s: Listener<E>): (r: Listener<E>) {
    if s.accepted < maxConnections then s.(stage := Head) else Close(s)
  }

  /** Admission closes; with nothing in flight the scope ends at once. */
  function Close<E>(s: Listener<E>): (r: Listener<E>) {
    s.(stage := if s.workers == [] then Done else Draining)
  }

  function Stop<E>(s: Listener<E>): (r: Listener<E>) {
    Close(s.(stopSeen := true))
  }

  function Dispatch<E>(s: Listener<E>): (r: Listener<E>) {
    var connection := s.accepted + 1;
    s.(accepted := connection, workers := s.workers + [connection], running := s.running + {connection})
  }

  /** `finish_http_listener_completion` on the oldest completion. */
  function Received<E>(s: Listener<E>): (r: Listener<E>)
    requires s.channel != [] && s.channel[0] in s.outcomes
  {
    var connection := s.channel[0];
    var exchange := s.outcomes[connection];
    match Position(s.workers, connection)
    case None => s.(stage := Panicked)
    case Some(p) =>
      s.(channel := s.channel[1..],
         workers := SwapRemove(s.workers, p),
         successes := if exchange.Succeeded? then s.successes + 1 else s.successes,
         failures := Recorded(s.failures, connection, exchange))
  }

  predicate CanReceive<E>(s: Listener<E>) {
    s.channel != [] && s.channel[0] in s.outcomes
  }

  /** After a completion: the panic ends the run. */
  function AfterReceive<E>(maxConnections: nat, s: Listener<E>): (r: Listener<E>)
    requires CanReceive(s)
  {
    var received := Received(s);
    if received.stage.Panicked? then received
    else if s.stage.Draining? then Close(received)
    else Continue(maxConnections, received)
  }

  /** One step of the listener thread, when the event fits its stage. */
  function ListenerStep<E>(maxConnections: nat, cap: nat, s: Listener<E>, e: Event<E>): (r: Option<Listener<E>>) {
    match (s.stage, e)
    case (Entry, ReadStop(stop)) =>
      Some(if stop then s.(stage := Done, stopSeen := true) else s.(stage := Nonblocking))
    case (Nonblocking, SetNonblocking(ok)) =>
      Some(if ok then Continue(maxConnections, s) else s.(stage := Done, acceptFailed := true))
    case (Head, ReadStop(stop)) =>
      Some(if stop then Stop(s) else s.(stage := if |s.workers| == cap then Waiting else Accepting))
    case (Waiting, Receive) => if CanReceive(s) then Some(AfterReceive(maxConnections, s)) else None
    case (Waiting, Timeout) => Some(Continue(maxConnections, s))
    case (Accepting, AcceptInterrupted) => Some(Continue(maxConnections, s))
    case (Accepting, AcceptWouldBlock) =>
      Some(if s.workers == [] then Continue(maxConnections, s) else s.(stage := Waiting))
    case (Accepting, AcceptError) => Some(Close(s.(acceptFailed := true)))
    case (Accepting, AcceptConnection) => Some(s.(stage := Recheck))
    case (Recheck, ReadStop(stop)) =>
      Some(if stop then Stop(s) else Continue(maxConnections, Dispatch(s)))
    case (Draining, Receive) => if CanReceive(s) then Some(AfterReceive(maxConnections, s)) else None
    case _ => None
  }

  /** One step of the whole system; a running worker may end its exchange at any time. */
  function Step<E>(maxConnections: nat, cap: nat, s: Listener<E>, e: Event<E>): (r: Option<Listener<E>>) {
    if e.Finish? then
      if e.connection in s.running then
        Some(s.(running := s.running - {e.connection},
                channel := s.channel + [e.connection],
                outcomes := s.outcomes[e.connection := e.exchange]))
      else None
    else ListenerStep(maxConnections, cap, s, e)
  }

  function Run<E>(maxConnections: nat, cap: nat, s: Listener<E>, events: seq<Event<E>>): (r: Option<Listener<E>>)
    decreases |events|
  {
    if events == [] then Some(s)
    else
      match Step(maxConnections, cap, s, events[0])
      case None => None
      case Some(next) => Run(maxConnections, cap, next, events[1..])
  }

  // ---------- the invariant ----------

  /** In-flight connections are exactly the running ones and those with a queued completion. */
  predicate InFlight<E>(s: Listener<E>) {
    && Distinct(s.channel)
    && (forall c :: c in s.channel ==> c in s.workers && c !in s.running && c in s.outcomes)
    && (forall c :: c in s.running ==> c in s.workers)
    && (forall c :: c in s.workers ==> c in s.running || c in s.channel)
  }

  /** The report is in balance and nothing exceeds its bound. */
  ghost predicate Sound<E>(maxConnections: nat, cap: nat, s: Listener<E>) {
    && Balanced(s.accepted, s.successes, s.failures, s.workers, s.outcomes)
    && InFlight(s)
    && |s.workers| <= cap
    && s.accepted <= maxConnections
  }

  /** What the listener thread knows where it stands. */
  predicate StageFits<E>(maxConnections: nat, cap: nat, s: Listener<E>) {
    && !s.stage.Panicked?
    && (s.stage.Accepting? || s.stage.Recheck? ==> |s.workers| < cap && s.accepted < maxConnections)
    && (s.stage.Head? ==> s.accepted < maxConnections)
    && (s.stage.Waiting? || s.stage.Draining? ==> s.workers != [])
    && (s.stage.Done? || s.stage.Entry? || s.stage.Nonblocking? ==> s.workers == [])
    && (s.stopSeen ==> s.stage.Draining? || s.stage.Done?)
  }

  ghost predicate Safe<E>(maxConnections: nat, cap: nat, s: Listener<E>) {
    Sound(maxConnections, cap, s) && StageFits(maxConnections, cap, s)
  }

  lemma FinishIsSound<E(!new)>(maxConnections: nat, cap: nat, s: Listener<E>, e: Event<E>)
    requires Sound(maxConnections, cap, s) && e.Finish? && e.connection in s.running
    ensures Sound(maxConnections, cap, Step(maxConnections, cap, s, e).value)
  {
    var next := Step(maxConnections, cap, s, e).value;
    assert next.channel[|s.channel|] == e.connection;
    forall c | c in s.channel
      ensures c in next.channel
    {
      var i :| 0 <= i < |s.channel| && s.channel[i] == c;
      assert next.channel[i] == c;
    }
  }

  lemma DispatchIsSound<E(!new)>(maxConnections: nat, cap: nat, s: Listener<E>)
    requires Sound(maxConnections, cap, s) && |s.workers| < cap && s.accepted < maxConnections
    ensures Sound(maxConnections, cap, Dispatch(s))
  {
    DispatchKeepsBalance(s.accepted, s.successes, s.failures, s.workers, s.outcomes);
    var next := Dispatch(s);
    assert next.workers[|s.workers|] == s.accepted + 1;
    forall c | c in s.workers
      ensures c in next.workers
    {
      var i :| 0 <= i < |s.workers| && s.workers[i] == c;
      assert next.workers[i] == c;
    }
  }

  /** The received completion names a live worker, and recording it keeps the balance. */
  lemma ReceiveIsSound<E(!new)>(maxConnections: nat, cap: nat, s: Listener<E>)
    requires Sound(maxConnections, cap, s) && CanReceive(s)
    ensures s.channel[0] in s.workers && s.channel[0] !in s.running
    ensures Sound(maxConnections, cap, Received(s))
    ensures Received(s).stage == s.stage && |Received(s).workers| == |s.workers| - 1
  {
    var connection := s.channel[0];
    assert connection in s.channel;
    var p := Position(s.workers, connection).value;
    RecordKeepsBalance(s.accepted, s.successes, s.failures, s.workers, s.outcomes, p);
    SwapRemoveTakesOne(s.workers, p);
    var rest := s.channel[1..];
    assert s.channel == [connection] + rest;
    forall i | 0 <= i < |rest|
      ensures rest[i] != connection
    {
      assert rest[i] == s.channel[i + 1];
    }
  }

  /** Moving the listener thread keeps the report as it is. */
  lemma MoveIsSound<E(!new)>(maxConnections: nat, cap: nat, s: Listener<E>, t: Listener<E>)
    requires Sound(maxConnections, cap, s)
    requires t == s.(stage := t.stage, acceptFailed := t.acceptFailed, stopSeen := t.stopSeen)
    ensures Sound(maxConnections, cap, t)
  {
  }

  lemma StepIsSound<E(!new)>(maxConnections: nat, cap: nat, s: Listener<E>, e: Event<E>)
    requires Safe(maxConnections, cap, s) && Step(maxConnections, cap, s, e).Some?
    ensures Sound(maxConnections, cap, Step(maxConnections, cap, s, e).value)
  {
    hide Balanced, InFlight, Received, Dispatch;
    var next := Step(maxConnections, cap, s, e).value;
    if e.Finish? {
      FinishIsSound(maxConnections, cap, s, e);
    } else if e.Receive? {
      ReceiveIsSound(maxConnections, cap, s);
      MoveIsSound(maxConnections, cap, Received(s), next);
    } else if s.stage.Recheck? && !e.stop {
      DispatchIsSound(maxConnections, cap, s);
      MoveIsSound(maxConnections, cap, Dispatch(s), next);
    } else {
      MoveIsSound(maxConnections, cap, s, next);
    }
  }

  lemma StepIsSafe<E(!new)>(maxConnections: nat, cap: nat, s: Listener<E>, e: Event<E>)
    requires cap > 0 && Safe(maxConnections, cap, s) && Step(maxConnections, cap, s, e).Some?
    ensures Safe(maxConnections, cap, Step(maxConnections, cap, s, e).value)
  {
    hide Balanced, InFlight;
    if e.Receive? {
      ReceiveIsSound(maxConnections, cap, s);
    }
    StepIsSound(maxConnections, cap, s, e);
  }

  lemma {:induction false} RunIsSafe<E(!new)>(maxConnections: nat, cap: nat, s: Listener<E>, events: seq<Event<E>>)
    requires cap > 0 && Safe(maxConnections, cap, s) && Run(maxConnections, cap, s, events).Some?
    ensures Safe(maxConnections, cap, Run(maxConnections, cap, s, events).value)
    decreases |events|
  {
    if events != [] {
      StepIsSafe(maxConnections, cap, s, events[0]);
      RunIsSafe(maxConnections, cap, Step(maxConnections, cap, s, events[0]).value, events[1..]);
    }
  }

  // ---------- over all runs ----------

  /** In every run the in-flight workers stay within the cap, every accepted connection is in
      flight, succeeded or failed, no completion names an unknown connection, and once a read of
      the stop flag was true the listener only drains. */
  lemma EveryRunIsSafe<E(!new)>(maxConnections: nat, cap: nat, events: seq<Event<E>>, s: Listener<E>)
    requires cap > 0 && Run(maxConnections, cap, Initial(maxConnections), events) == Some(s)
    ensures |s.workers| <= cap && s.accepted <= maxConnections
    ensures s.accepted == s.successes + |s.failures| + |s.workers|
    ensures !s.stage.Panicked?
    ensures s.channel != [] ==> s.channel[0] in s.workers
    ensures s.stopSeen ==> s.stage.Draining? || s.stage.Done?
  {
    RunIsSafe(maxConnections, cap, Initial(maxConnections), events);
    assert s.channel != [] ==> s.channel[0] in s.channel;
  }

  lemma {:induction false} StoppedStaysStopped<E(!new)>(maxConnections: nat, cap: nat, s: Listener<E>,
                                                        events: seq<Event<E>>, t: Listener<E>)
    requires cap > 0 && Safe(maxConnections, cap, s) && s.stopSeen
    requires Run(maxConnections, cap, s, events) == Some(t)
    ensures t.stopSeen && t.accepted == s.accepted
    decreases |events|
  {
    if events != [] {
      var next := Step(maxConnections, cap, s, events[0]).value;
      StepIsSafe(maxConnections, cap, s, events[0]);
      if events[0].Receive? {
        ReceiveIsSound(maxConnections, cap, s);
      }
      StoppedStaysStopped(maxConnections, cap, next, events[1..], t);
    }
  }

  /** Whatever follows a read of the stop flag that was true, nothing more is dispatched. */
  lemma NothingDispatchedAfterStop<E(!new)>(maxConnections: nat, cap: nat, before: seq<Event<E>>, s: Listener<E>,
                                            after: seq<Event<E>>, t: Listener<E>)
    requires cap > 0 && Run(maxConnections, cap, Initial(maxConnections), before) == Some(s)
    requires Run(maxConnections, cap, s, [ReadStop(true)] + after) == Some(t)
    ensures t.accepted == s.accepted
  {
    RunIsSafe(maxConnections, cap, Initial(maxConnections), before);
    var next := Step(maxConnections, cap, s, ReadStop(true)).value;
    StepIsSafe(maxConnections, cap, s, ReadStop(true));
    assert ([ReadStop(true)] + after)[1..] == after;
    StoppedStaysStopped(maxConnections, cap, next, after, t);
  }

  /** The report of a finished run: all accepted exchanges ended, and the sorted failures are the
      failing connections in strictly increasing order of acceptance, each with its own error. */
  lemma FinalReport<E(!new)>(maxConnections: nat, cap: nat, events: seq<Event<E>>, s: Listener<E>)
    requires cap > 0 && Run(maxConnections, cap, Initial(maxConnections), events) == Some(s) && s.stage.Done?
    ensures s.workers == [] && s.running == {} && s.channel == []
    ensures forall c :: 1 <= c <= s.accepted ==> c in s.outcomes
    ensures Sorted(s.failures) == FailuresUpTo(s.outcomes, s.accepted) && Increasing(Sorted(s.failures))
    ensures s.successes + |Sorted(s.failures)| == s.accepted
  {
    RunIsSafe(maxConnections, cap, Initial(maxConnections), events);
    BalancedReportIsOrdered(s.accepted, s.successes, s.failures, s.outcomes);
    NothingLeft(s.channel, s.running, s.workers);
  }

  lemma NothingLeft(channel: seq<nat>, running: set<nat>, workers: seq<nat>)
    requires forall c :: c in channel || c in running ==> c in workers
    ensures workers == [] ==> channel == [] && running == {}
  {
    assert channel != [] ==> channel[0] in channel;
  }

  /** A reachable listener that waits for a completion never waits in vain: one is queued, or a
      worker that will send one is still running. */
  lemma WaitsAreAnswered<E(!new)>(maxConnections: nat, cap: nat, events: seq<Event<E>>, s: Listener<E>)
    requires cap > 0 && Run(maxConnections, cap, Initial(maxConnections), events) == Some(s)
    requires s.stage.Waiting? || s.stage.Draining?
    ensures Step(maxConnections, cap, s, Receive).Some?
         || exists c :: c in s.running && Step(maxConnections, cap, s, Finish(c, Succeeded)).Some?
  {
    RunIsSafe(maxConnections, cap, Initial(maxConnections), events);
    var c := s.workers[0];
    assert c in s.workers;
    if c in s.running {
      assert Step(maxConnections, cap, s, Finish(c, Succeeded)).Some?;
    } else {
      assert s.channel[0] in s.channel;
    }
  }
}
