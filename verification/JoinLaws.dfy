/** What the joins of `src/execution.rs` return, counted value by value. */
module JoinLaws {
  import opened Words
  import opened Scan
  import opened Execution
  import Join
  import SelectLaws

  /** How many right rows from `j` on hold a present value. */
  lemma {:induction false} PartnersAreCounted(value: Row, right: seq<Row>, j: nat)
    requires j <= |right|
    ensures |Join.PartnersFrom(value, right, j)| == if value == None then 0 else multiset(right[j..])[value]
    decreases |right| - j
  {
    if j < |right| {
      PartnersAreCounted(value, right, j + 1);
      assert right[j..] == [right[j]] + right[j + 1..];
    }
  }

  lemma {:induction false} RepeatIsCounted(x: Row, n: nat, y: Row)
    ensures multiset(Repeat(x, n))[y] == if x == y then n else 0
    decreases n
  {
    if n > 0 {
      RepeatIsCounted(x, n - 1, y);
      assert Repeat(x, n) == [x] + Repeat(x, n - 1);
    }
  }

  predicate LeftInBounds(left: seq<Row>, pairs: seq<(nat, nat)>) {
    forall k :: 0 <= k < |pairs| ==> pairs[k].0 < |left|
  }

  lemma InnerConcat(left: seq<Row>, a: seq<(nat, nat)>, b: seq<(nat, nat)>, value: Row)
    requires LeftInBounds(left, a) && LeftInBounds(left, b)
    ensures LeftInBounds(left, a + b)
    ensures multiset(InnerProjection(left, a + b))[value]
         == multiset(InnerProjection(left, a))[value] + multiset(InnerProjection(left, b))[value]
  {
    assert InnerProjection(left, a + b) == InnerProjection(left, a) + InnerProjection(left, b);
  }

  lemma OneLeftRow(left: seq<Row>, right: seq<Row>, i: nat, value: Row)
    requires i < |left|
    ensures var pairs := Join.Paired(i, Join.PartnersFrom(left[i], right, 0));
      && LeftInBounds(left, pairs)
      && multiset(InnerProjection(left, pairs))[value]
         == if value != None && left[i] == value then multiset(right)[value] else 0
  {
    hide Join.PartnersFrom;
    var partners := Join.PartnersFrom(left[i], right, 0);
    PartnersAreCounted(left[i], right, 0);
    assert right[0..] == right;
    RepeatIsCounted(left[i], |partners|, value);
    assert InnerProjection(left, Join.Paired(i, partners)) == Repeat(left[i], |partners|);
  }

  lemma OneMoreRow(left: seq<Row>, i: nat, value: Row)
    requires i < |left|
    ensures multiset(left[i..])[value] == multiset(left[i + 1..])[value] + if left[i] == value then 1 else 0
  {
    assert left[i..] == [left[i]] + left[i + 1..];
  }

  /** The left values of the pairs from the left row `i` on. */
  lemma {:induction false} ProjectedFrom(left: seq<Row>, right: seq<Row>, i: nat, value: Row)
    requires i <= |left|
    ensures LeftInBounds(left, Join.InnerFrom(left, right, i))
    ensures multiset(InnerProjection(left, Join.InnerFrom(left, right, i)))[value]
         == if value == None then 0 else multiset(left[i..])[value] * multiset(right)[value]
    decreases |left| - i
  {
    if i < |left| {
      hide Join.PartnersFrom, Join.Paired, InnerProjection, LeftInBounds;
      ProjectedFrom(left, right, i + 1, value);
      OneLeftRow(left, right, i, value);
      InnerConcat(left, Join.Paired(i, Join.PartnersFrom(left[i], right, 0)), Join.InnerFrom(left, right, i + 1),
                  value);
      OneMoreRow(left, i, value);
      OneMore(multiset(left[i + 1..])[value], multiset(right)[value]);
    }
  }

  lemma OneMore(n: nat, m: nat)
    ensures (n + 1) * m == n * m + m
  {
  }

  /** The inner join returns each present value as often as it stands on the left times as often
      as it stands on the right, and no `NULL`. */
  lemma InnerJoinCounts(left: seq<Row>, right: seq<Row>, value: Row)
    ensures LeftInBounds(left, Join.Inner(left, right))
    ensures multiset(InnerProjection(left, Join.Inner(left, right)))[value]
         == if value == None then 0 else multiset(left)[value] * multiset(right)[value]
  {
    ProjectedFrom(left, right, 0, value);
    assert left[0..] == left;
  }

  /** The left rows that match nothing: `NULL`, or a value that the right side lacks. */
  function Unmatched(left: seq<Row>, right: seq<Row>): (r: nat) {
    if left == [] then 0
    else (if left[0] == None || left[0] !in right then 1 else 0) + Unmatched(left[1..], right)
  }

  predicate RightInBounds(right: seq<Row>, pairs: seq<Join.OuterPair>) {
    forall k :: 0 <= k < |pairs| && pairs[k].right.Some? ==> pairs[k].right.value < |right|
  }

  lemma OuterConcat(right: seq<Row>, a: seq<Join.OuterPair>, b: seq<Join.OuterPair>)
    requires RightInBounds(right, a) && RightInBounds(right, b)
    ensures RightInBounds(right, a + b)
    ensures multiset(OuterProjection(right, a + b))[None]
         == multiset(OuterProjection(right, a))[None] + multiset(OuterProjection(right, b))[None]
  {
    assert OuterProjection(right, a + b) == OuterProjection(right, a) + OuterProjection(right, b);
  }

  lemma {:induction false} NullsFrom(left: seq<Row>, right: seq<Row>, i: nat)
    requires i <= |left|
    ensures RightInBounds(right, Join.LeftOuterFrom(left, right, i))
    ensures multiset(OuterProjection(right, Join.LeftOuterFrom(left, right, i)))[None] == Unmatched(left[i..], right)
    decreases |left| - i
  {
    if i < |left| {
      hide Join.PartnersFrom, Join.OuterRow, OuterProjection, RightInBounds;
      NullsFrom(left, right, i + 1);
      assert left[i..][1..] == left[i + 1..];
      OneRowOfNulls(left, right, i);
      OuterConcat(right, Join.OuterRow(i, Join.PartnersFrom(left[i], right, 0)),
                  Join.LeftOuterFrom(left, right, i + 1));
    }
  }

  lemma OneRowOfNulls(left: seq<Row>, right: seq<Row>, i: nat)
    requires i < |left|
    ensures var row := Join.OuterRow(i, Join.PartnersFrom(left[i], right, 0));
      && RightInBounds(right, row)
      && multiset(OuterProjection(right, row))[None] == if left[i] == None || left[i] !in right then 1 else 0
  {
    var partners := Join.PartnersFrom(left[i], right, 0);
    var row := Join.OuterRow(i, partners);
    Join.NoPartners(left[i], right);
    Join.PartnersMean(left[i], right, 0);
    if partners == [] {
      assert OuterProjection(right, row) == [None];
    } else {
      forall k | 0 <= k < |partners|
        ensures partners[k] < |right| && right[partners[k]] == left[i]
      {
        var b: nat := partners[k];
        assert b in partners;
      }
      assert OuterProjection(right, row) == Repeat(left[i], |partners|);
      RepeatIsCounted(left[i], |partners|, None);
    }
  }

  /** The left join returns each present value as often as the inner join does, and a `NULL` for
      every left row that matches nothing. */
  lemma LeftJoinCounts(left: seq<Row>, right: seq<Row>, value: Row)
    ensures RightInBounds(right, Join.LeftOuter(left, right))
    ensures multiset(OuterProjection(right, Join.LeftOuter(left, right)))[value]
         == if value == None then Unmatched(left, right) else multiset(left)[value] * multiset(right)[value]
  {
    NullsFrom(left, right, 0);
    assert left[0..] == left;
    LeftJoinWithoutNulls(left, right);
    InnerJoinCounts(left, right, value);
    SelectLaws.FilteredCounts(OuterProjection(right, Join.LeftOuter(left, right)), IsNotNull, value);
    SelectLaws.FilterOfOneRow(value, 0);
  }
}
