/** What the listeners of `src/http.rs` report, and what keeps a report in balance while
    exchanges finish in any order. */
module ListenerReport {
  import opened Words

  /** How one connection's exchange ended. */
  datatype Exchange<E> = Succeeded | Failed(source: E)

  datatype Failure<E> = Failure(connection: nat, source: E)

  // ---------- the worker list ----------

  predicate Distinct(s: seq<nat>) {
    forall i, j :: 0 <= i < j < |s| ==> s[i] != s[j]
  }

  /** `Vec::swap_remove`. */
  function SwapRemove(s: seq<nat>, p: nat): (r: seq<nat>)
    requires p < |s|
  {
    if p == |s| - 1 then s[..p] else s[..|s| - 1][p := s[|s| - 1]]
  }

  lemma SwapRemoveTakesOne(s: seq<nat>, p: nat)
    requires p < |s| && Distinct(s)
    ensures Distinct(SwapRemove(s, p))
    ensures forall c :: c in SwapRemove(s, p) <==> c in s && c != s[p]
  {
    var r := SwapRemove(s, p);
    forall c | c in s && c != s[p]
      ensures c in r
    {
      var i :| 0 <= i < |s| && s[i] == c;
      if i < |s| - 1 {
        assert r[i] == c;
      } else {
        assert r[p] == c;
      }
    }
  }

  /** `iter().position(..)`. */
  function Position(s: seq<nat>, c: nat): (r: Option<nat>)
    ensures match r case Some(p) => p < |s| && s[p] == c case None => c !in s
  {
    if s == [] then None
    else if s[0] == c then Some(0)
    else
      match Position(s[1..], c)
      case None => None
      case Some(p) => Some(p + 1)
  }

  // ---------- a report in balance ----------

  /** `record_http_listener_exchange` on the failure list. */
  function Recorded<E>(failures: seq<Failure<E>>, connection: nat, exchange: Exchange<E>): (r: seq<Failure<E>>) {
    match exchange
    case Succeeded => failures
    case Failed(source) => failures + [Failure(connection, source)]
  }

  /** No connection fails twice. */
  predicate DistinctFailures<E>(failures: seq<Failure<E>>) {
    forall i, j :: 0 <= i < j < |failures| ==> failures[i].connection != failures[j].connection
  }

  /** Every accepted connection is in flight, succeeded, or failed with its own error; `outcomes`
      holds how the finished exchanges ended. */
  ghost predicate Balanced<E>(accepted: nat, successes: nat, failures: seq<Failure<E>>, workers: seq<nat>,
                              outcomes: map<nat, Exchange<E>>)
  {
    && accepted == successes + |failures| + |workers|
    && Distinct(workers)
    && (forall c :: c in workers ==> 1 <= c <= accepted)
    && DistinctFailures(failures)
    && (forall i :: 0 <= i < |failures| ==> FailureStands(failures[i], accepted, workers, outcomes))
    && (forall c :: 1 <= c <= accepted && c !in workers ==> OutcomeStands(c, failures, outcomes))
  }

  predicate FailureStands<E(==)>(failure: Failure<E>, accepted: nat, workers: seq<nat>,
      outcomes: map<nat, Exchange<E>>)
  {
    var c := failure.connection;
    1 <= c <= accepted && c !in workers && c in outcomes && outcomes[c] == Failed(failure.source)
  }

  predicate OutcomeStands<E(==)>(c: nat, failures: seq<Failure<E>>, outcomes: map<nat, Exchange<E>>) {
    c in outcomes && (outcomes[c].Failed? ==> Failure(c, outcomes[c].source) in failures)
  }

  lemma DispatchKeepsBalance<E(!new)>(accepted: nat, successes: nat, failures: seq<Failure<E>>, workers: seq<nat>,
                                outcomes: map<nat, Exchange<E>>)
    requires Balanced(accepted, successes, failures, workers, outcomes)
    ensures Balanced(accepted + 1, successes, failures, workers + [accepted + 1], outcomes)
  {
    var next := workers + [accepted + 1];
    forall i | 0 <= i < |workers|
      ensures workers[i] <= accepted
    {
      assert workers[i] in workers;
    }
    forall i | 0 <= i < |failures|
      ensures FailureStands(failures[i], accepted + 1, next, outcomes)
    {
      assert FailureStands(failures[i], accepted, workers, outcomes);
    }
    forall c | 1 <= c <= accepted + 1 && c !in next
      ensures OutcomeStands(c, failures, outcomes)
    {
      assert next[|workers|] == accepted + 1;
      assert forall w :: w in workers ==> w in next;
      assert OutcomeStands(c, failures, outcomes);
    }
  }

  lemma RecordKeepsBalance<E(!new)>(accepted: nat, successes: nat, failures: seq<Failure<E>>, workers: seq<nat>,
                              outcomes: map<nat, Exchange<E>>, p: nat)
    requires Balanced(accepted, successes, failures, workers, outcomes)
    requires p < |workers| && workers[p] in outcomes
    ensures var exchange := outcomes[workers[p]];
      Balanced(accepted, if exchange.Succeeded? then successes + 1 else successes,
               Recorded(failures, workers[p], exchange), SwapRemove(workers, p), outcomes)
  {
    var connection := workers[p];
    var exchange := outcomes[connection];
    var recorded, left := Recorded(failures, connection, exchange), SwapRemove(workers, p);
    assert connection in workers;
    SwapRemoveTakesOne(workers, p);
    forall i | 0 <= i < |recorded|
      ensures FailureStands(recorded[i], accepted, left, outcomes)
    {
      if i < |failures| {
        assert FailureStands(failures[i], accepted, workers, outcomes);
      }
    }
    forall c | 1 <= c <= accepted && c !in left
      ensures OutcomeStands(c, recorded, outcomes)
    {
      if c == connection {
        assert exchange.Failed? ==> recorded[|failures|] == Failure(c, exchange.source);
      } else {
        assert OutcomeStands(c, failures, outcomes);
        assert forall f :: f in failures ==> f in recorded;
      }
    }
    assert DistinctFailures(recorded) by {
      forall i | 0 <= i < |failures|
        ensures failures[i].connection != connection
      {
        assert FailureStands(failures[i], accepted, workers, outcomes);
      }
    }
  }

  // ---------- the final order ----------

  predicate Increasing<E>(failures: seq<Failure<E>>) {
    forall i, j :: 0 <= i < j < |failures| ==> failures[i].connection < failures[j].connection
  }

  function Insert<E>(failure: Failure<E>, sorted: seq<Failure<E>>): (r: seq<Failure<E>>) {
    if sorted == [] || failure.connection <= sorted[0].connection then [failure] + sorted
    else [sorted[0]] + Insert(failure, sorted[1..])
  }

  /** `sort_unstable_by_key(|failure| failure.connection)`. */
  function Sorted<E>(failures: seq<Failure<E>>): (r: seq<Failure<E>>) {
    if failures == [] then [] else Insert(failures[0], Sorted(failures[1..]))
  }

  /** The failures of connections 1 to `n`, in order. */
  function FailuresUpTo<E>(outcomes: map<nat, Exchange<E>>, n: nat): (r: seq<Failure<E>>)
    requires forall c :: 1 <= c <= n ==> c in outcomes
  {
    if n == 0 then [] else Recorded(FailuresUpTo(outcomes, n - 1), n, outcomes[n])
  }

  lemma {:induction false} InsertKeepsOrder<E(!new)>(failure: Failure<E>, sorted: seq<Failure<E>>)
    requires Increasing(sorted) && forall i :: 0 <= i < |sorted| ==> sorted[i].connection != failure.connection
    ensures Increasing(Insert(failure, sorted))
    ensures forall f :: f in Insert(failure, sorted) <==> f == failure || f in sorted
    decreases |sorted|
  {
    if sorted != [] && failure.connection > sorted[0].connection {
      var rest := Insert(failure, sorted[1..]);
      InsertKeepsOrder(failure, sorted[1..]);
      forall i | 0 <= i < |rest|
        ensures sorted[0].connection < rest[i].connection
      {
        var f := rest[i];
        assert f in rest;
        if f != failure {
          assert f in sorted[1..];
          var j :| 0 <= j < |sorted[1..]| && sorted[1..][j] == rest[i];
          assert sorted[j + 1] == rest[i];
        }
      }
      assert sorted == [sorted[0]] + sorted[1..];
    }
  }

  lemma {:induction false} SortedIsIncreasing<E(!new)>(failures: seq<Failure<E>>)
    requires DistinctFailures(failures)
    ensures Increasing(Sorted(failures))
    ensures forall f :: f in Sorted(failures) <==> f in failures
    decreases |failures|
  {
    if failures != [] {
      var rest := Sorted(failures[1..]);
      SortedIsIncreasing(failures[1..]);
      forall i | 0 <= i < |rest|
        ensures rest[i].connection != failures[0].connection
      {
        var f := rest[i];
        assert f in rest && f in failures[1..];
        var j :| 0 <= j < |failures[1..]| && failures[1..][j] == rest[i];
        assert failures[j + 1] == rest[i];
      }
      InsertKeepsOrder(failures[0], rest);
      assert failures == [failures[0]] + failures[1..];
    }
  }

  lemma {:induction false} FailuresUpToMeans<E(!new)>(outcomes: map<nat, Exchange<E>>, n: nat)
    requires forall c :: 1 <= c <= n ==> c in outcomes
    ensures Increasing(FailuresUpTo(outcomes, n))
    ensures forall f :: f in FailuresUpTo(outcomes, n)
                   <==> 1 <= f.connection <= n && outcomes[f.connection] == Failed(f.source)
    decreases n
  {
    if n > 0 {
      var before := FailuresUpTo(outcomes, n - 1);
      FailuresUpToMeans(outcomes, n - 1);
      forall i | 0 <= i < |before|
        ensures before[i].connection < n
      {
        var f := before[i];
        assert f in before;
      }
    }
  }

  /** Increasing failure lists with the same members are equal, so an unstable sort has one result. */
  lemma {:induction false} IncreasingIsUnique<E(!new)>(a: seq<Failure<E>>, b: seq<Failure<E>>)
    requires Increasing(a) && Increasing(b) && forall f :: f in a <==> f in b
    ensures a == b
    decreases |a|
  {
    EmptyTogether(a, b);
    if a != [] {
      HeadsAgree(a, b);
      TailsAgree(a, b);
      IncreasingIsUnique(a[1..], b[1..]);
      assert a == [a[0]] + a[1..] && b == [b[0]] + b[1..];
    }
  }

  lemma EmptyTogether<E(!new)>(a: seq<Failure<E>>, b: seq<Failure<E>>)
    requires forall f :: f in a <==> f in b
    ensures a == [] <==> b == []
  {
    assert a != [] ==> a[0] in a;
    assert b != [] ==> b[0] in b;
  }

  lemma HeadsAgree<E(!new)>(a: seq<Failure<E>>, b: seq<Failure<E>>)
    requires Increasing(a) && Increasing(b) && a != [] && b != [] && forall f :: f in a <==> f in b
    ensures a[0] == b[0]
  {
    assert a[0] in b && b[0] in a;
    var i :| 0 <= i < |b| && b[i] == a[0];
    var j :| 0 <= j < |a| && a[j] == b[0];
  }

  lemma TailsAgree<E(!new)>(a: seq<Failure<E>>, b: seq<Failure<E>>)
    requires Increasing(a) && Increasing(b) && a != [] && b != [] && a[0] == b[0] && forall f :: f in a <==> f in b
    ensures forall f :: f in a[1..] <==> f in b[1..]
  {
    TailMembers(a);
    TailMembers(b);
  }

  lemma TailMembers<E(!new)>(a: seq<Failure<E>>)
    requires Increasing(a) && a != []
    ensures forall f :: f in a[1..] <==> f in a && f != a[0]
  {
    assert a == [a[0]] + a[1..];
    forall i | 0 <= i < |a[1..]|
      ensures a[1..][i] != a[0]
    {
      assert a[1..][i] == a[i + 1];
    }
  }

  /** Once nothing is in flight, the sorted failures are exactly the failing connections in order
      of acceptance, each with its own error, and everything else succeeded. */
  lemma BalancedReportIsOrdered<E(!new)>(accepted: nat, successes: nat, failures: seq<Failure<E>>,
      outcomes: map<nat, Exchange<E>>)
    requires Balanced(accepted, successes, failures, [], outcomes)
    ensures forall c :: 1 <= c <= accepted ==> c in outcomes
    ensures Sorted(failures) == FailuresUpTo(outcomes, accepted) && Increasing(Sorted(failures))
    ensures successes + |Sorted(failures)| == accepted
  {
    var none: seq<nat> := [];
    forall c | 1 <= c <= accepted
      ensures c in outcomes && OutcomeStands(c, failures, outcomes)
    {
      assert c !in none;
    }
    SortedIsIncreasing(failures);
    FailuresUpToMeans(outcomes, accepted);
    forall f
      ensures f in failures <==> f in FailuresUpTo(outcomes, accepted)
    {
      if f in failures {
        var i :| 0 <= i < |failures| && failures[i] == f;
        assert FailureStands(failures[i], accepted, none, outcomes);
      }
      if f in FailuresUpTo(outcomes, accepted) {
        assert OutcomeStands(f.connection, failures, outcomes);
      }
    }
    IncreasingIsUnique(Sorted(failures), FailuresUpTo(outcomes, accepted));
    SortedLength(failures);
  }

  lemma {:induction false} SortedLength<E(!new)>(failures: seq<Failure<E>>)
    ensures |Sorted(failures)| == |failures|
  {
    if failures != [] {
      SortedLength(failures[1..]);
      InsertLength(failures[0], Sorted(failures[1..]));
    }
  }

  lemma {:induction false} InsertLength<E(!new)>(failure: Failure<E>, sorted: seq<Failure<E>>)
    ensures |Insert(failure, sorted)| == |sorted| + 1
  {
    if sorted != [] && failure.connection > sorted[0].connection {
      InsertLength(failure, sorted[1..]);
    }
  }
}
