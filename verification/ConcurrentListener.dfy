/** The bounded concurrent listener and the sequential listener of `src/http.rs`. Connections are
    numbered from one in order of acceptance; `accept(n)` is the failure of the accept call after
    `n` connections, if it fails, and `exchange` serves one connection against the shared world. */
module ConcurrentListener {
  import opened Words
  import opened ListenerReport

  datatype Completion<E> = Completion(connection: nat, exchange: Exchange<E>)

  /** A report, and the world behind it. */
  datatype Report<W, L> = Report(accepted: nat, successes: nat, failures: L, world: W)

  function Recording<W, E>(s: Report<W, seq<Failure<E>>>, connection: nat, exchange: Exchange<E>):
      (r: Report<W, seq<Failure<E>>>)
  {
    s.(successes := if exchange.Succeeded? then s.successes + 1 else s.successes,
       failures := Recorded(s.failures, connection, exchange))
  }

  /** One exchange, served and recorded. */
  function Exchanged<W, E>(exchange: (W, nat) -> (W, Exchange<E>), s: Report<W, seq<Failure<E>>>, connection: nat):
      (r: Report<W, seq<Failure<E>>>)
  {
    var (world, result) := exchange(s.world, connection);
    Recording(s.(world := world), connection, result)
  }

  /** Accept, serve, record, one connection after the other; and the accept failure, if any. */
  function Sequential<W, E, F>(accept: nat -> Option<F>, exchange: (W, nat) -> (W, Exchange<E>), maxConnections: nat,
                               s: Report<W, seq<Failure<E>>>): (r: (Report<W, seq<Failure<E>>>, Option<F>))
    decreases maxConnections - s.accepted
  {
    if s.accepted >= maxConnections then (s, None)
    else
      match accept(s.accepted)
      case Some(source) => (s, Some(source))
      case None =>
        Sequential(accept, exchange, maxConnections,
            Exchanged(exchange, s.(accepted := s.accepted + 1), s.accepted + 1))
  }

  /** `serve_http_connections`. */
  method ServeSequentially<W, E, F>(accept: nat -> Option<F>, exchange: (W, nat) -> (W, Exchange<E>),
      maxConnections: nat, world: W)
      returns (r: Report<W, seq<Failure<E>>>, failure: Option<F>)
    ensures (r, failure) == Sequential(accept, exchange, maxConnections, Report(0, 0, [], world))
  {
    r := Report(0, 0, [], world);
    while r.accepted < maxConnections
      invariant Sequential(accept, exchange, maxConnections, r)
             == Sequential(accept, exchange, maxConnections, Report(0, 0, [], world))
    {
      failure := accept(r.accepted);
      if failure.Some? {
        return;
      }
      r := r.(accepted := r.accepted + 1);
      var connection := r.accepted;
      var (after, result) := exchange(r.world, connection);
      r := r.(world := after);
      match result {
        case Succeeded =>
          r := r.(successes := r.successes + 1);
        case Failed(source) =>
          r := r.(failures := r.failures + [Failure(connection, source)]);
      }
    }
    failure := None;
  }

  lemma {:induction false} SequentialIsIncreasing<W, E(!new), F>(
      accept: nat -> Option<F>, exchange: (W, nat) -> (W, Exchange<E>), maxConnections: nat,
      s: Report<W, seq<Failure<E>>>)
    requires Increasing(s.failures) && forall i :: 0 <= i < |s.failures| ==> s.failures[i].connection <= s.accepted
    ensures Increasing(Sequential(accept, exchange, maxConnections, s).0.failures)
    decreases maxConnections - s.accepted
  {
    if s.accepted < maxConnections && accept(s.accepted).None? {
      SequentialIsIncreasing(accept, exchange, maxConnections,
                             Exchanged(exchange, s.(accepted := s.accepted + 1), s.accepted + 1));
    }
  }

  lemma AlreadySorted<E(!new)>(failures: seq<Failure<E>>)
    requires Increasing(failures)
    ensures Sorted(failures) == failures
  {
    SortedIsIncreasing(failures);
    IncreasingIsUnique(Sorted(failures), failures);
  }

  /** The connections in `order` served one after the other, from `world`. */
  function Serving<W, E>(exchange: (W, nat) -> (W, Exchange<E>), world: W, order: seq<nat>):
      (r: (W, map<nat, Exchange<E>>))
  {
    if order == [] then (world, map[])
    else
      var (before, outcomes) := Serving(exchange, world, order[..|order| - 1]);
      var (after, result) := exchange(before, order[|order| - 1]);
      (after, outcomes[order[|order| - 1] := result])
  }

  lemma NoneBelowOne(s: seq<nat>, n: nat)
    requires forall c :: c in s ==> 1 <= c <= n
    ensures n == 0 ==> s == []
  {
    if s != [] {
      assert s[0] in s;
    }
  }

  /** The outcome of a connection in flight is free to change. */
  lemma OutcomeKeepsBalance<E(!new)>(accepted: nat, successes: nat, failures: seq<Failure<E>>, workers: seq<nat>,
                                     outcomes: map<nat, Exchange<E>>, c: nat, exchange: Exchange<E>)
    requires Balanced(accepted, successes, failures, workers, outcomes) && c in workers
    ensures 1 <= c <= accepted && Balanced(accepted, successes, failures, workers, outcomes[c := exchange])
  {
  }

  lemma DistinctNext(s: seq<nat>, c: nat)
    requires Distinct(s) && c !in s
    ensures Distinct(s + [c]) && forall d :: d in s + [c] <==> d in s || d == c
  {
  }

  lemma ServingNext<W, E>(exchange: (W, nat) -> (W, Exchange<E>), world: W, order: seq<nat>, c: nat)
    ensures Serving(exchange, world, order + [c])
         == var (before, outcomes) := Serving(exchange, world, order);
            var (after, result) := exchange(before, c);
            (after, outcomes[c := result])
  {
    assert (order + [c])[..|order|] == order;
  }

  /** A completion of a connection whose exchange has ended and was not received. */
  ghost predicate SentIn<E>(workers: seq<nat>, running: seq<nat>, outcomes: map<nat, Exchange<E>>,
                            completion: Completion<E>)
  {
    var c := completion.connection;
    c in workers && c !in running && c in outcomes && outcomes[c] == completion.exchange
  }

  /** Every worker is running or has sent its completion. */
  ghost predicate Listed<E>(workers: seq<nat>, running: seq<nat>, channel: seq<Completion<E>>,
                            outcomes: map<nat, Exchange<E>>)
  {
    && |workers| == |running| + |channel|
    && Distinct(running)
    && (forall i :: 0 <= i < |running| ==> running[i] in workers)
    && (forall i :: 0 <= i < |channel| ==> SentIn(workers, running, outcomes, channel[i]))
    && (forall i, j :: 0 <= i < j < |channel| ==> channel[i].connection != channel[j].connection)
  }

  /** A running worker ends its exchange. */
  lemma EndKeepsLists<E(!new)>(workers: seq<nat>, running: seq<nat>, channel: seq<Completion<E>>,
                               outcomes: map<nat, Exchange<E>>, k: nat, exchange: Exchange<E>)
    requires Listed(workers, running, channel, outcomes) && k < |running|
    ensures Listed(workers, SwapRemove(running, k), channel + [Completion(running[k], exchange)],
                   outcomes[running[k] := exchange])
    ensures running[k] in workers && Distinct(running) && |workers| == |running| + |channel|
  {
    var c, left := running[k], SwapRemove(running, k);
    var sent, ended := channel + [Completion(c, exchange)], outcomes[c := exchange];
    SwapRemoveTakesOne(running, k);
    hide Distinct;
    forall i | 0 <= i < |left|
      ensures left[i] in workers
    {
      assert left[i] in left;
    }
    forall i | 0 <= i < |channel|
      ensures channel[i].connection != c && SentIn(workers, left, ended, channel[i])
    {
      assert SentIn(workers, running, outcomes, channel[i]);
    }
    assert SentIn(workers, left, ended, sent[|channel|]);
  }

  class Listener<W, E(!new)> {
    const exchange: (W, nat) -> (W, Exchange<E>)
    const cap: nat
    var world: W
    var accepted: nat
    var successes: nat
    var failures: seq<Failure<E>>
    /** Connections whose completion was not received. */
    var workers: seq<nat>
    /** Of these, the ones whose exchange has not ended. */
    var running: seq<nat>
    var channel: seq<Completion<E>>
    ghost var outcomes: map<nat, Exchange<E>>
    /** The length `workers` has had, from the start and after each of its changes. */
    ghost var inFlight: seq<nat>
    /** The world at the start, and the connections whose exchanges have ended, in that order. */
    ghost const start: W
    ghost var served: seq<nat>

    ghost predicate Valid()
      reads this
    {
      && Balanced(accepted, successes, failures, workers, outcomes)
      && 0 < cap && |workers| <= cap
      && |inFlight| == 1 + accepted + successes + |failures| && inFlight[|inFlight| - 1] == |workers|
      && (forall i :: 0 <= i < |inFlight| ==> inFlight[i] <= cap)
      && Listed(workers, running, channel, outcomes)
      && InOrder()
    }

    /** World and outcomes are those of the exchanges that have ended, in their order. */
    ghost predicate InOrder()
      reads this
    {
      && (world, outcomes) == Serving(exchange, start, served) && Distinct(served)
      && (forall c :: c in served <==> c in outcomes)
      && (forall c :: c in served ==> 1 <= c <= accepted && c !in running)
    }

    ghost predicate Sent(completion: Completion<E>)
      reads this
    {
      SentIn(workers, running, outcomes, completion)
    }

    constructor (exchange: (W, nat) -> (W, Exchange<E>), cap: nat, world: W)
      requires cap > 0
      ensures Valid() && this.exchange == exchange && this.cap == cap && this.world == world
      ensures accepted == 0 && successes == 0 && failures == [] && workers == []
      ensures inFlight == [0] && start == world
    {
      this.exchange := exchange;
      this.cap := cap;
      this.world := world;
      accepted, successes, failures := 0, 0, [];
      workers, running, channel := [], [], [];
      outcomes, inFlight, start, served := map[], [0], world, [];
    }

    /** The report as it stands. */
    function Current(): (r: Report<W, seq<Failure<E>>>)
      reads this
    {
      Report(accepted, successes, failures, world)
    }

    /** The report if the connection in flight, where there is only one, ended and was recorded now. */
    function Ended(): (r: Report<W, seq<Failure<E>>>)
      reads this
    {
      if channel != [] then Recording(Current(), channel[0].connection, channel[0].exchange)
      else if running != [] then Exchanged(exchange, Current(), running[0])
      else Current()
    }

    /** Some running worker ends its exchange and sends its completion. */
    method WorkerEnds()
      requires Valid() && running != []
      modifies this`world, this`running, this`channel, this`outcomes, this`served
      ensures Valid() && channel != [] && |running| == |old(running)| - 1
      ensures cap == 1 ==> Ended() == old(Ended())
    {
      hide Balanced, Distinct, Serving, Listed;
      var k :| 0 <= k < |running|;
      var connection := running[k];
      assert connection in running;
      EndKeepsLists(workers, running, channel, outcomes, k, exchange(world, connection).1);
      OutcomeKeepsBalance(accepted, successes, failures, workers, outcomes, connection,
                          exchange(world, connection).1);
      SwapRemoveTakesOne(running, k);
      DistinctNext(served, connection);
      ServingNext(exchange, start, served, connection);
      var (after, result) := exchange(world, connection);
      world := after;
      outcomes := outcomes[connection := result];
      channel := channel + [Completion(connection, result)];
      running := SwapRemove(running, k);
      served := served + [connection];
    }

    /** Any number of running workers end, in any order. */
    method WorkersRun()
      requires Valid()
      modifies this`world, this`running, this`channel, this`outcomes, this`served
      ensures Valid() && (old(channel) != [] ==> channel != [])
      ensures cap == 1 ==> Ended() == old(Ended())
    {
      var ending: nat := *;
      while ending > 0 && running != []
        invariant Valid() && (old(channel) != [] ==> channel != [])
        invariant cap == 1 ==> Ended() == old(Ended())
        decreases |running|
      {
        WorkerEnds();
        ending := ending - 1;
      }
    }

    /** `receive_http_listener_completion`: waits until some worker has sent its completion, then
        removes the worker it names and records its exchange. */
    method ReceiveCompletion()
      requires Valid() && workers != []
      modifies this
      ensures Valid() && |workers| == |old(workers)| - 1 && accepted == old(accepted)
      ensures cap == 1 ==> Ended() == old(Ended())
    {
      if channel == [] {
        WorkerEnds();
      }
      WorkersRun();
      var completion := channel[0];
      channel := channel[1..];
      FinishCompletion(completion);
    }

    /** `finish_http_listener_completion`. */
    method FinishCompletion(completion: Completion<E>)
      requires Balanced(accepted, successes, failures, workers, outcomes) && Sent(completion)
      modifies this`successes, this`failures, this`workers, this`inFlight
      ensures Balanced(accepted, successes, failures, workers, outcomes)
      ensures |workers| == |old(workers)| - 1 && Distinct(old(workers))
      ensures successes + |failures| == old(successes) + |old(failures)| + 1
      ensures forall c :: c in workers <==> c in old(workers) && c != completion.connection
      ensures Current() == Recording(old(Current()), completion.connection, completion.exchange)
      ensures inFlight == old(inFlight) + [|workers|]
    {
      var position := 0;
      while position < |workers| && workers[position] != completion.connection
        invariant position <= |workers|
        invariant forall i :: 0 <= i < position ==> workers[i] != completion.connection
      {
        position := position + 1;
      }
      RecordKeepsBalance(accepted, successes, failures, workers, outcomes, position);
      SwapRemoveTakesOne(workers, position);
      workers := SwapRemove(workers, position);
      inFlight := inFlight + [|workers|];
      match completion.exchange {
        case Succeeded =>
          successes := successes + 1;
        case Failed(source) =>
          failures := failures + [Failure(completion.connection, source)];
      }
    }

    /** Counts an accepted connection and spawns its worker. */
    method Spawn()
      requires Valid() && |workers| < cap
      modifies this`accepted, this`workers, this`running, this`inFlight
      ensures Valid() && accepted == old(accepted) + 1 && inFlight == old(inFlight) + [|workers|]
      ensures cap == 1 ==>
        Ended() == Exchanged(exchange, old(Current()).(accepted := accepted), accepted)
    {
      DispatchKeepsBalance(accepted, successes, failures, workers, outcomes);
      accepted := accepted + 1;
      workers := workers + [accepted];
      running := running + [accepted];
      inFlight := inFlight + [|workers|];
    }

    /** `serve_http_concurrently`. However the workers interleave, never more than `cap` connections
        are in flight, every accepted connection is accounted for and the failures come in order of
        acceptance; with one worker at a time the report, the accept failure and the world are those
        of the sequential listener. */
    method Serve<F>(accept: nat -> Option<F>, maxConnections: nat) returns (failure: Option<F>)
      requires Valid() && accepted == 0 && successes == 0 && failures == [] && workers == []
      modifies this
      // the final world and outcomes are those of serving each connection once, in some order
      ensures (world, outcomes) == Serving(exchange, old(world), served)
      ensures Distinct(served) && forall c :: c in served <==> 1 <= c <= accepted
      // the log has an entry for every accepted and every finished connection
      ensures |inFlight| == 1 + 2 * accepted && forall i :: 0 <= i < |inFlight| ==> inFlight[i] <= cap
      ensures workers == [] && accepted <= maxConnections && successes + |failures| == accepted
      ensures forall c :: 1 <= c <= accepted ==> c in outcomes
      ensures failures == FailuresUpTo(outcomes, accepted) && Increasing(failures)
      ensures forall n: nat :: n < accepted ==> accept(n).None?
      ensures if accepted == maxConnections then failure.None? else failure.Some? && failure == accept(accepted)
      ensures cap == 1 ==>
        (Current(), failure) == Sequential(accept, exchange, maxConnections, Report(0, 0, [], old(world)))
    {
      ghost var whole := Sequential(accept, exchange, maxConnections, Report(0, 0, [], world));
      NoneBelowOne(served, accepted);
      failure := Admit(accept, maxConnections);
      ghost var admitted := accepted;
      while workers != []
        invariant Valid() && accepted == admitted
        invariant cap == 1 ==> (Ended(), failure) == whole
        decreases |workers|
      {
        ReceiveCompletion();
      }
      BalancedReportIsOrdered(accepted, successes, failures, outcomes);
      if cap == 1 {
        SequentialIsIncreasing(accept, exchange, maxConnections, Report(0, 0, [], old(world)));
        AlreadySorted(failures);
      }
      failures := Sorted(failures);
    }

    lemma InFlightIsBounded()
      requires Valid()
      ensures 0 < cap && |workers| <= cap && Ended().accepted == accepted
      ensures workers == [] ==> Ended() == Current()
    {
    }

    /** The admission loop. */
    method Admit<F>(accept: nat -> Option<F>, maxConnections: nat) returns (failure: Option<F>)
      requires Valid() && accepted == 0 && successes == 0 && failures == [] && workers == []
      modifies this
      ensures Valid() && accepted <= maxConnections
      ensures forall n: nat :: n < accepted ==> accept(n).None?
      ensures if accepted == maxConnections then failure.None? else failure.Some? && failure == accept(accepted)
      ensures cap == 1 ==>
        (Ended(), failure) == Sequential(accept, exchange, maxConnections, Report(0, 0, [], old(world)))
    {
      hide Recorded, Recording, Exchanged, Listener.Valid, Listener.Ended;
      InFlightIsBounded();
      ghost var whole := Sequential(accept, exchange, maxConnections, Report(0, 0, [], world));
      while accepted < maxConnections
        invariant Valid() && accepted <= maxConnections
        invariant forall n: nat :: n < accepted ==> accept(n).None?
        invariant cap == 1 ==> Ended().accepted == accepted
                               && Sequential(accept, exchange, maxConnections, Ended()) == whole
      {
        WorkersRun();
        InFlightIsBounded();
        if |workers| == cap {
          ReceiveCompletion();
        }
        failure := accept(accepted);
        if failure.Some? {
          return;
        }
        InFlightIsBounded();
        Spawn();
        InFlightIsBounded();
      }
      failure := None;
    }
  }
}
