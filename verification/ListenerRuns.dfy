/** What a run of the cancellable listener of `src/http.rs` amounts to, computed from its events
    alone: where the listener thread stands, what was dispatched and what was reported. */
module ListenerRuns {
  import opened Words
  import opened ListenerReport
  import opened ListenerMachine

  // ---------- the events ----------

  /** The events of the listener thread. */
  function Own<E>(events: seq<Event<E>>): (r: seq<Event<E>>) {
    if events == [] then []
    else
      var before, last := events[..|events| - 1], events[|events| - 1];
      if last.Finish? then Own(before) else Own(before) + [last]
  }

  /** The connections whose exchanges ended, in that order. */
  function Ended<E>(events: seq<Event<E>>): (r: seq<nat>) {
    if events == [] then []
    else
      var before, last := events[..|events| - 1], events[|events| - 1];
      if last.Finish? then Ended(before) + [last.connection] else Ended(before)
  }

  /** How many returned connections were followed by a read of the stop flag that was false. */
  function Dispatched<E>(own: seq<Event<E>>): (r: nat) {
    if |own| < 2 then 0
    else
      Dispatched(own[..|own| - 1])
      + (if own[|own| - 2].AcceptConnection? && own[|own| - 1].ReadStop? && !own[|own| - 1].stop then 1 else 0)
  }

  /** How many completions were received. */
  function Taken<E>(own: seq<Event<E>>): (r: nat) {
    if own == [] then 0 else Taken(own[..|own| - 1]) + (if own[|own| - 1].Receive? then 1 else 0)
  }

  ghost predicate Stopped<E>(own: seq<Event<E>>) {
    ReadStop(true) in own
  }

  ghost predicate Refused<E>(own: seq<Event<E>>) {
    SetNonblocking(false) in own || AcceptError in own
  }

  /** Where the listener thread stands after its events: admission is over for good once a read of
      the stop flag was true, the listener could not be set up, an accept failed or the budget is
      spent; otherwise the last event decides. */
  ghost function Where<E>(maxConnections: nat, cap: nat, own: seq<Event<E>>): (r: Stage) {
    var inFlight := Dispatched(own) - Taken(own);
    if Stopped(own) || Refused(own) || Dispatched(own) == maxConnections then
      if inFlight == 0 then Done else Draining
    else if own == [] then Entry
    else
      match own[|own| - 1]
      case AcceptConnection => Recheck
      case AcceptWouldBlock => if inFlight == 0 then Head else Waiting
      case ReadStop(_) =>
        if |own| == 1 then Nonblocking
        else if own[|own| - 2].AcceptConnection? then Head
        else if inFlight == cap then Waiting
        else Accepting
      case _ => Head
  }

  // ---------- control ----------

  ghost predicate Control<E>(maxConnections: nat, cap: nat, own: seq<Event<E>>, s: Listener<E>) {
    && s.accepted == Dispatched(own) && |s.workers| == Dispatched(own) - Taken(own)
    && s.stage == Where(maxConnections, cap, own)
    && (s.stopSeen <==> Stopped(own)) && (s.acceptFailed <==> Refused(own))
  }

  lemma OwnNext<E>(own: seq<Event<E>>, e: Event<E>)
    ensures Dispatched(own + [e])
         == Dispatched(own) + if own != [] && own[|own| - 1].AcceptConnection? && e == ReadStop(false) then 1 else 0
    ensures Taken(own + [e]) == Taken(own) + if e.Receive? then 1 else 0
    ensures Stopped(own + [e]) <==> Stopped(own) || e == ReadStop(true)
    ensures Refused(own + [e]) <==> Refused(own) || e == SetNonblocking(false) || e == AcceptError
  {
    assert (own + [e])[..|own|] == own;
  }

  lemma ReceivedKeeps<E(!new)>(s: Listener<E>)
    requires CanReceive(s)
    ensures var t := Received(s);
      && t.outcomes == s.outcomes && t.accepted == s.accepted && t.running == s.running
      && t.stopSeen == s.stopSeen && t.acceptFailed == s.acceptFailed
  {
  }

  lemma ControlStep<E(!new)>(maxConnections: nat, cap: nat, own: seq<Event<E>>, s: Listener<E>, e: Event<E>)
    requires cap > 0 && Safe(maxConnections, cap, s) && Control(maxConnections, cap, own, s)
    requires !e.Finish? && ListenerStep(maxConnections, cap, s, e).Some?
    ensures Control(maxConnections, cap, own + [e], ListenerStep(maxConnections, cap, s, e).value)
  {
    hide Balanced, InFlight, Dispatched, Taken, Stopped, Refused, Received;
    if e.Receive? {
      ReceiveIsSound(maxConnections, cap, s);
      ReceivedKeeps(s);
    }
    OwnNext(own, e);
  }

  // ---------- data ----------

  /** The failures among the given connections, in that order. */
  function FailuresOf<E>(connections: seq<nat>, outcomes: map<nat, Exchange<E>>): (r: seq<Failure<E>>)
    requires forall c :: c in connections ==> c in outcomes
    ensures |r| <= |connections|
  {
    if connections == [] then []
    else
      var before, last := connections[..|connections| - 1], connections[|connections| - 1];
      Recorded(FailuresOf(before, outcomes), last, outcomes[last])
  }

  /** The outcomes are those of the Finish events, and what has none is running. */
  ghost predicate OutcomesFollow<E>(events: seq<Event<E>>, s: Listener<E>) {
    && (forall c :: c in s.outcomes <==> c in Ended(events))
    && (forall e :: e in events && e.Finish? ==>
          e.connection in s.outcomes && s.outcomes[e.connection] == e.exchange)
    && (forall c :: c in s.outcomes ==> 1 <= c <= s.accepted && Finish(c, s.outcomes[c]) in events)
    && (forall c :: c in s.running <==> 1 <= c <= s.accepted && c !in s.outcomes)
  }

  /** What was sent and received, and its report. */
  ghost predicate ReportFollows<E>(ended: seq<nat>, taken: nat, s: Listener<E>) {
    && taken <= |ended| && s.channel == ended[taken..]
    && (forall c :: c in ended[..taken] ==> c in s.outcomes)
    && s.failures == FailuresOf(ended[..taken], s.outcomes)
    && s.successes == taken - |s.failures|
  }

  ghost predicate Data<E>(events: seq<Event<E>>, s: Listener<E>) {
    OutcomesFollow(events, s) && ReportFollows(Ended(events), Taken(Own(events)), s)
  }

  lemma {:induction false} FailuresOfSame<E(!new)>(connections: seq<nat>, a: map<nat, Exchange<E>>,
                                                  b: map<nat, Exchange<E>>)
    requires forall c :: c in connections ==> c in a && c in b && a[c] == b[c]
    ensures FailuresOf(connections, a) == FailuresOf(connections, b)
    decreases |connections|
  {
    if connections != [] {
      FailuresOfSame(connections[..|connections| - 1], a, b);
    }
  }

  lemma EventsNext<E>(events: seq<Event<E>>, e: Event<E>)
    ensures Own(events + [e]) == if e.Finish? then Own(events) else Own(events) + [e]
    ensures Ended(events + [e]) == if e.Finish? then Ended(events) + [e.connection] else Ended(events)
  {
    assert (events + [e])[..|events|] == events;
  }

  lemma TakenPrefix<E>(ended: seq<nat>, taken: nat, c: nat)
    requires taken <= |ended|
    ensures (ended + [c])[..taken] == ended[..taken] && (ended + [c])[taken..] == ended[taken..] + [c]
    ensures forall d :: d in ended + [c] <==> d in ended || d == c
    ensures forall d :: d in ended[..taken] ==> d in ended
  {
  }

  lemma FinishKeepsOutcomes<E(!new)>(maxConnections: nat, cap: nat, events: seq<Event<E>>, s: Listener<E>, e: Event<E>)
    requires OutcomesFollow(events, s) && e.Finish? && e.connection in s.running
    ensures e.connection !in s.outcomes
    ensures OutcomesFollow(events + [e], Step(maxConnections, cap, s, e).value)
  {
    EventsNext(events, e);
    hide Own, Ended;
  }

  lemma FinishKeepsReport<E(!new)>(ended: seq<nat>, taken: nat, s: Listener<E>, c: nat, exchange: Exchange<E>)
    requires ReportFollows(ended, taken, s) && c !in s.outcomes
    ensures ReportFollows(ended + [c], taken,
                          s.(running := s.running - {c}, channel := s.channel + [c],
                             outcomes := s.outcomes[c := exchange]))
  {
    TakenPrefix<E>(ended, taken, c);
    FailuresOfSame(ended[..taken], s.outcomes, s.outcomes[c := exchange]);
  }

  lemma ReceiveKeepsReport<E(!new)>(ended: seq<nat>, taken: nat, s: Listener<E>, t: Listener<E>)
    requires ReportFollows(ended, taken, s) && CanReceive(s) && s.channel[0] in s.workers
    requires t == Received(s).(stage := t.stage)
    ensures ReportFollows(ended, taken + 1, t)
  {
    assert s.channel[0] == ended[taken] && s.channel[1..] == ended[taken + 1..];
    assert ended[..taken + 1] == ended[..taken] + [ended[taken]];
    assert ended[..taken + 1][..taken] == ended[..taken];
  }

  lemma OwnStepKeepsOutcomes<E(!new)>(events: seq<Event<E>>, s: Listener<E>, t: Listener<E>, e: Event<E>)
    requires OutcomesFollow(events, s) && !e.Finish? && t.outcomes == s.outcomes
    requires (t.accepted == s.accepted && t.running == s.running)
          || (t.accepted == s.accepted + 1 && t.running == s.running + {t.accepted})
    ensures OutcomesFollow(events + [e], t)
  {
    EventsNext(events, e);
    hide Own, Ended;
  }

  lemma MoveKeepsReport<E(!new)>(ended: seq<nat>, taken: nat, s: Listener<E>, t: Listener<E>)
    requires ReportFollows(ended, taken, s) && t.channel == s.channel && t.outcomes == s.outcomes
    requires t.failures == s.failures && t.successes == s.successes
    ensures ReportFollows(ended, taken, t)
  {
  }

  lemma StepShapes<E(!new)>(maxConnections: nat, cap: nat, s: Listener<E>, e: Event<E>)
    requires Sound(maxConnections, cap, s) && Step(maxConnections, cap, s, e).Some?
    ensures var t := Step(maxConnections, cap, s, e).value;
      if e.Finish? then
        && e.connection in s.running
        && t == s.(running := s.running - {e.connection}, channel := s.channel + [e.connection],
                   outcomes := s.outcomes[e.connection := e.exchange])
      else if e.Receive? then
        CanReceive(s) && s.channel[0] in s.workers && t == Received(s).(stage := t.stage)
      else
        || t == s.(stage := t.stage, acceptFailed := t.acceptFailed, stopSeen := t.stopSeen)
        || t == Dispatch(s).(stage := t.stage)
  {
    hide Sound, Received, Distinct, Position;
    if e.Receive? {
      ReceiveIsSound(maxConnections, cap, s);
    }
  }

  lemma DataStep<E(!new)>(maxConnections: nat, cap: nat, events: seq<Event<E>>, s: Listener<E>, e: Event<E>)
    requires Data(events, s) && Sound(maxConnections, cap, s) && Step(maxConnections, cap, s, e).Some?
    ensures Data(events + [e], Step(maxConnections, cap, s, e).value)
  {
    hide Own, Ended, Taken, OutcomesFollow, ReportFollows, Sound, Received, Step, ListenerStep;
    var next := Step(maxConnections, cap, s, e).value;
    StepShapes(maxConnections, cap, s, e);
    EventsNext(events, e);
    OwnNext(Own(events), e);
    if e.Finish? {
      FinishKeepsOutcomes(maxConnections, cap, events, s, e);
      FinishKeepsReport(Ended(events), Taken(Own(events)), s, e.connection, e.exchange);
    } else {
      if e.Receive? {
        ReceivedKeeps(s);
        ReceiveKeepsReport(Ended(events), Taken(Own(events)), s, next);
      } else {
        MoveKeepsReport(Ended(events), Taken(Own(events)), s, next);
      }
      OwnStepKeepsOutcomes(events, s, next, e);
    }
  }

  // ---------- over all runs ----------

  lemma {:induction false} RunSplits<E>(maxConnections: nat, cap: nat, s: Listener<E>, events: seq<Event<E>>,
                                       e: Event<E>)
    ensures Run(maxConnections, cap, s, events + [e])
         == match Run(maxConnections, cap, s, events)
            case None => None
            case Some(t) => Step(maxConnections, cap, t, e)
    decreases |events|
  {
    hide Step;
    if events == [] {
      assert [] + [e] == [e] && [e][1..] == [];
      assert Run(maxConnections, cap, s, [e])
          == match Step(maxConnections, cap, s, e) case None => None case Some(t) => Run(maxConnections, cap, t, []);
    } else {
      assert (events + [e])[0] == events[0] && (events + [e])[1..] == events[1..] + [e];
      var first := Step(maxConnections, cap, s, events[0]);
      if first.Some? {
        RunSplits(maxConnections, cap, first.value, events[1..], e);
      }
    }
  }

  lemma {:induction false} RunFollows<E(!new)>(maxConnections: nat, cap: nat, events: seq<Event<E>>, s: Listener<E>)
    requires cap > 0 && Run(maxConnections, cap, Initial(maxConnections), events) == Some(s)
    ensures Safe(maxConnections, cap, s) && Control(maxConnections, cap, Own(events), s) && Data(events, s)
    decreases |events|
  {
    if events == [] {
      RunIsSafe(maxConnections, cap, Initial(maxConnections), events);
    } else {
      hide Data, Sound, StageFits, Control, Own, Step, Initial;
      var before, e := events[..|events| - 1], events[|events| - 1];
      assert events == before + [e];
      RunSplits(maxConnections, cap, Initial(maxConnections), before, e);
      var t := Run(maxConnections, cap, Initial(maxConnections), before).value;
      RunFollows(maxConnections, cap, before, t);
      StepIsSafe(maxConnections, cap, t, e);
      DataStep(maxConnections, cap, before, t, e);
      EventsNext(before, e);
      ControlFollows(maxConnections, cap, Own(before), t, e);
    }
  }

  lemma ControlFollows<E(!new)>(maxConnections: nat, cap: nat, own: seq<Event<E>>, s: Listener<E>, e: Event<E>)
    requires cap > 0 && Safe(maxConnections, cap, s) && Control(maxConnections, cap, own, s)
    requires Step(maxConnections, cap, s, e).Some?
    ensures Control(maxConnections, cap, if e.Finish? then own else own + [e], Step(maxConnections, cap, s, e).value)
  {
    hide Sound, StageFits, ListenerStep, Where;
    if !e.Finish? {
      ControlStep(maxConnections, cap, own, s, e);
    }
  }

  /** Every run dispatches exactly the returned connections that were followed by a false read of
      the stop flag; each is in flight, or ended as its own Finish event says; and the listener
      thread stands where its events have taken it. */
  lemma DispatchesAreCounted<E(!new)>(maxConnections: nat, cap: nat, events: seq<Event<E>>, s: Listener<E>)
    requires cap > 0 && Run(maxConnections, cap, Initial(maxConnections), events) == Some(s)
    ensures s.accepted == Dispatched(Own(events)) && |s.workers| == s.accepted - Taken(Own(events))
    ensures s.stage == Where(maxConnections, cap, Own(events))
    ensures forall c :: 1 <= c <= s.accepted ==>
      c in s.running || (c in s.outcomes && Finish(c, s.outcomes[c]) in events)
    ensures forall e :: e in events && e.Finish? ==>
      e.connection in s.outcomes && s.outcomes[e.connection] == e.exchange
  {
    RunFollows(maxConnections, cap, events, s);
  }

  /** Completions are received in the order the exchanges ended; the report counts those that
      succeeded and lists those that failed, in that order. */
  lemma ReportFollowsCompletions<E(!new)>(maxConnections: nat, cap: nat, events: seq<Event<E>>, s: Listener<E>)
    requires cap > 0 && Run(maxConnections, cap, Initial(maxConnections), events) == Some(s)
    ensures var received := Taken(Own(events));
      && received <= |Ended(events)| && s.channel == Ended(events)[received..]
      && (forall c :: c in Ended(events)[..received] ==> c in s.outcomes)
      && s.failures == FailuresOf(Ended(events)[..received], s.outcomes)
      && s.successes == received - |s.failures|
  {
    RunFollows(maxConnections, cap, events, s);
  }

  /** Which events a reachable listener admits. */
  lemma EventsAdmitted<E(!new)>(maxConnections: nat, cap: nat, events: seq<Event<E>>, s: Listener<E>, e: Event<E>)
    requires cap > 0 && Run(maxConnections, cap, Initial(maxConnections), events) == Some(s)
    ensures Run(maxConnections, cap, Initial(maxConnections), events + [e]).Some? <==>
      match e
      case Finish(c, _) => 1 <= c <= s.accepted && c !in Ended(events)
      case ReadStop(_) => s.stage in {Entry, Head, Recheck}
      case SetNonblocking(_) => s.stage == Nonblocking
      case AcceptConnection => s.stage == Accepting
      case AcceptInterrupted => s.stage == Accepting
      case AcceptWouldBlock => s.stage == Accepting
      case AcceptError => s.stage == Accepting
      case Timeout => s.stage == Waiting
      case Receive => s.stage in {Waiting, Draining} && Taken(Own(events)) < |Ended(events)|
  {
    RunFollows(maxConnections, cap, events, s);
    RunSplits(maxConnections, cap, Initial(maxConnections), events, e);
    hide Run, Own, Ended, Taken, Balanced;
    assert s.channel != [] ==> s.channel[0] in s.channel;
  }

  /** With a budget, a first read that is false and a listener that can be set up, admission opens;
      then a connection that is returned and not recalled is counted and in flight. */
  lemma FirstConnection<E(!new)>(maxConnections: nat, cap: nat, admitting: Listener<E>)
    requires maxConnections > 0 && cap > 0 && admitting == State(Head, 0, 0, [], [], {}, [], map[], false, false)
    ensures
      && Run(maxConnections, cap, Initial(maxConnections), [ReadStop(false), SetNonblocking(true)]) == Some(admitting)
      && Run(maxConnections, cap, admitting, [ReadStop(false), AcceptConnection, ReadStop(false)])
         == Some(admitting.(accepted := 1, workers := [1], running := {1},
                         stage := if maxConnections == 1 then Draining else Head))
  {
    var entry: Listener<E> := Initial(maxConnections);
    var started := admitting.(stage := Nonblocking);
    RunOne(maxConnections, cap, started, SetNonblocking(true), admitting);
    var begin: seq<Event<E>> := [ReadStop(false), SetNonblocking(true)];
    assert begin[1..] == [SetNonblocking(true)];
    assert Step(maxConnections, cap, entry, ReadStop(false)) == Some(started);

    var accepting, recheck := admitting.(stage := Accepting), admitting.(stage := Recheck);
    var last := Continue(maxConnections, Dispatch(recheck));
    RunOne(maxConnections, cap, recheck, ReadStop(false), last);
    var accept: seq<Event<E>> := [ReadStop(false), AcceptConnection, ReadStop(false)];
    assert accept[1..] == [AcceptConnection, ReadStop(false)] && accept[1..][1..] == [ReadStop(false)];
    assert Step(maxConnections, cap, accepting, AcceptConnection) == Some(recheck);
    assert Step(maxConnections, cap, admitting, ReadStop(false)) == Some(accepting);
    assert Dispatch(recheck).workers == [1] && Dispatch(recheck).running == {1};
    assert Run(maxConnections, cap, entry, begin) == Run(maxConnections, cap, started, begin[1..]);
    assert Run(maxConnections, cap, admitting, accept) == Run(maxConnections, cap, accepting, accept[1..]);
    assert Run(maxConnections, cap, accepting, accept[1..]) == Run(maxConnections, cap, recheck, accept[1..][1..]);
  }

  lemma RunOne<E>(maxConnections: nat, cap: nat, s: Listener<E>, e: Event<E>, t: Listener<E>)
    requires Step(maxConnections, cap, s, e) == Some(t)
    ensures Run(maxConnections, cap, s, [e]) == Some(t)
  {
    assert [e][1..] == [];
    assert Run(maxConnections, cap, t, []) == Some(t);
  }
}
