/** Hash equi-joins of two nullable `Int64` columns (`src/join.rs`). */
module Join {
  import opened Words

  datatype JoinLimits = JoinLimits(maxInputRows: usize, maxOutputPairs: usize)

  datatype JoinError =
    | LeftInputLimitExceeded(rows: nat, maxRows: nat)
    | RightInputLimitExceeded(rows: nat, maxRows: nat)
    | OutputLimitExceeded(pairs: nat, maxPairs: nat)

  /** A matched pair of source rows, or a left row without a match. */
  datatype OuterPair = OuterPair(left: nat, right: Option<nat>)

  // ---------- the nested-loop meaning ----------

  predicate Joins(left: Row, right: Row) {
    left.Some? && left == right
  }

  /** The partners of one left value among the right rows from `j` on. */
  function PartnersFrom(value: Row, right: seq<Row>, j: nat): (r: seq<nat>)
    requires j <= |right|
    decreases |right| - j, right
  {
    if j == |right| then []
    else if Joins(value, right[j]) then [j] + PartnersFrom(value, right, j + 1)
    else PartnersFrom(value, right, j + 1)
  }

  function Paired(i: nat, rows: seq<nat>): (r: seq<(nat, nat)>)
    ensures |r| == |rows|
  {
    seq(|rows|, k requires 0 <= k < |rows| => (i, rows[k]))
  }

  /** For each left row from `i` on, for each right row: the pair, when the values join. */
  function InnerFrom(left: seq<Row>, right: seq<Row>, i: nat): (r: seq<(nat, nat)>)
    requires i <= |left|
    decreases |left| - i, left
  {
    if i == |left| then [] else Paired(i, PartnersFrom(left[i], right, 0)) + InnerFrom(left, right, i + 1)
  }

  function Inner(left: seq<Row>, right: seq<Row>): (r: seq<(nat, nat)>) {
    InnerFrom(left, right, 0)
  }

  function OuterRow(i: nat, partners: seq<nat>): (r: seq<OuterPair>)
    ensures |r| == if partners == [] then 1 else |partners|
  {
    if partners == [] then [OuterPair(i, None)]
    else seq(|partners|, k requires 0 <= k < |partners| => OuterPair(i, Some(partners[k])))
  }

  function LeftOuterFrom(left: seq<Row>, right: seq<Row>, i: nat): (r: seq<OuterPair>)
    requires i <= |left|
    decreases |left| - i, left
  {
    if i == |left| then [] else OuterRow(i, PartnersFrom(left[i], right, 0)) + LeftOuterFrom(left, right, i + 1)
  }

  function LeftOuter(left: seq<Row>, right: seq<Row>): (r: seq<OuterPair>) {
    LeftOuterFrom(left, right, 0)
  }

  // ---------- what the nested loops say ----------

  lemma {:induction false} PartnersMean(value: Row, right: seq<Row>, j: nat)
    requires j <= |right|
    ensures forall k: nat :: k in PartnersFrom(value, right, j) <==> j <= k < |right| && Joins(value, right[k])
    ensures forall a, b :: 0 <= a < b < |PartnersFrom(value, right, j)|
                       ==> PartnersFrom(value, right, j)[a] < PartnersFrom(value, right, j)[b]
    decreases |right| - j
  {
    if j < |right| {
      var rest := PartnersFrom(value, right, j + 1);
      PartnersMean(value, right, j + 1);
      forall a | 0 <= a < |rest|
        ensures j < rest[a]
      {
        var k: nat := rest[a];
        assert k in rest;
      }
    }
  }

  predicate Before(p: (nat, nat), q: (nat, nat)) {
    p.0 < q.0 || (p.0 == q.0 && p.1 < q.1)
  }

  lemma {:induction false} InnerFromMeans(left: seq<Row>, right: seq<Row>, i: nat)
    requires i <= |left|
    ensures forall a: nat, b: nat :: (a, b) in InnerFrom(left, right, i)
                                <==> i <= a < |left| && b < |right| && Joins(left[a], right[b])
    ensures forall m, n :: 0 <= m < n < |InnerFrom(left, right, i)|
                       ==> Before(InnerFrom(left, right, i)[m], InnerFrom(left, right, i)[n])
    decreases |left| - i
  {
    if i < |left| {
      var partners := PartnersFrom(left[i], right, 0);
      var head, rest := Paired(i, partners), InnerFrom(left, right, i + 1);
      PartnersMean(left[i], right, 0);
      InnerFromMeans(left, right, i + 1);
      forall a: nat, b: nat
        ensures (a, b) in head <==> a == i && b in partners
      {
        PairedMeans(i, partners, a, b);
      }
      forall n | 0 <= n < |rest|
        ensures i < rest[n].0
      {
        var pair := rest[n];
        assert (pair.0, pair.1) in rest;
      }
    }
  }

  lemma PairedMeans(i: nat, rows: seq<nat>, a: nat, b: nat)
    ensures (a, b) in Paired(i, rows) <==> a == i && b in rows
  {
    if a == i && b in rows {
      var k :| 0 <= k < |rows| && rows[k] == b;
      assert Paired(i, rows)[k] == (a, b);
    }
  }

  /** The join holds exactly the pairs of rows with equal present values, each once, in left-major order. */
  lemma InnerMeans(left: seq<Row>, right: seq<Row>)
    ensures forall a: nat, b: nat :: (a, b) in Inner(left, right)
                                <==> a < |left| && b < |right| && left[a].Some? && left[a] == right[b]
    ensures forall m, n :: 0 <= m < n < |Inner(left, right)| ==> Before(Inner(left, right)[m], Inner(left, right)[n])
  {
    InnerFromMeans(left, right, 0);
  }

  predicate OuterBefore(p: OuterPair, q: OuterPair) {
    p.left < q.left || (p.left == q.left && p.right.Some? && q.right.Some? && p.right.value < q.right.value)
  }

  lemma OuterRowMeans(i: nat, partners: seq<nat>, pair: OuterPair)
    ensures pair in OuterRow(i, partners)
       <==> pair.left == i && if pair.right.Some? then pair.right.value in partners else partners == []
  {
    if pair.left == i && pair.right.Some? && pair.right.value in partners {
      var k :| 0 <= k < |partners| && partners[k] == pair.right.value;
      assert OuterRow(i, partners)[k] == pair;
    }
  }

  ghost predicate OuterOrdered(pairs: seq<OuterPair>) {
    forall m, n :: 0 <= m < n < |pairs| ==> OuterBefore(pairs[m], pairs[n])
  }

  lemma OuterRowOrdered(i: nat, partners: seq<nat>)
    requires forall a, b :: 0 <= a < b < |partners| ==> partners[a] < partners[b]
    ensures OuterOrdered(OuterRow(i, partners))
  {
  }

  lemma OrderedRowFirst(row: seq<OuterPair>, rest: seq<OuterPair>, i: nat)
    requires OuterOrdered(row) && forall pair :: pair in row ==> pair.left == i
    requires OuterOrdered(rest) && forall pair :: pair in rest ==> i < pair.left
    ensures OuterOrdered(row + rest)
  {
    forall m, n | 0 <= m < n < |row + rest|
      ensures OuterBefore((row + rest)[m], (row + rest)[n])
    {
      if m < |row| <= n {
        assert row[m] in row && rest[n - |row|] in rest;
      }
    }
  }

  /** What the join says of one left row and one right row, or of one left row alone. */
  ghost predicate OuterJoined(left: seq<Row>, right: seq<Row>, pair: OuterPair) {
    pair.left < |left|
    && match pair.right
       case Some(b) => b < |right| && Joins(left[pair.left], right[b])
       case None => PartnersFrom(left[pair.left], right, 0) == []
  }

  lemma OneLeftRow(left: seq<Row>, right: seq<Row>, i: nat)
    requires i < |left|
    ensures var row := OuterRow(i, PartnersFrom(left[i], right, 0));
      OuterOrdered(row) && forall pair :: pair in row <==> pair.left == i && OuterJoined(left, right, pair)
  {
    var partners := PartnersFrom(left[i], right, 0);
    PartnersMean(left[i], right, 0);
    OuterRowOrdered(i, partners);
    hide PartnersFrom, Joins, OuterRow, OuterOrdered;
    forall pair
      ensures pair in OuterRow(i, partners) <==> pair.left == i && OuterJoined(left, right, pair)
    {
      OuterRowMeans(i, partners, pair);
    }
  }

  lemma {:induction false} LeftOuterFromMeans(left: seq<Row>, right: seq<Row>, i: nat)
    requires i <= |left|
    ensures forall pair :: pair in LeftOuterFrom(left, right, i) <==> i <= pair.left && OuterJoined(left, right, pair)
    ensures OuterOrdered(LeftOuterFrom(left, right, i))
    decreases |left| - i
  {
    if i == |left| {
      assert LeftOuterFrom(left, right, i) == [];
    } else {
      hide PartnersFrom, OuterRow, OuterOrdered, OuterJoined;
      OneLeftRow(left, right, i);
      LeftOuterFromMeans(left, right, i + 1);
      OrderedRowFirst(OuterRow(i, PartnersFrom(left[i], right, 0)), LeftOuterFrom(left, right, i + 1), i);
    }
  }

  /** The left outer join holds the matching pairs and the left rows that match nothing, `NULL`
      rows among them, each once, in left-major order. */
  lemma LeftOuterMeans(left: seq<Row>, right: seq<Row>)
    ensures forall a: nat, b: nat :: OuterPair(a, Some(b)) in LeftOuter(left, right)
                                <==> a < |left| && b < |right| && left[a].Some? && left[a] == right[b]
    ensures forall a: nat :: OuterPair(a, None) in LeftOuter(left, right)
                        <==> a < |left| && (left[a].None? || left[a] !in right)
    ensures OuterOrdered(LeftOuter(left, right))
  {
    LeftOuterFromMeans(left, right, 0);
    forall a: nat | a < |left|
      ensures PartnersFrom(left[a], right, 0) == [] <==> left[a].None? || left[a] !in right
    {
      NoPartners(left[a], right);
    }
  }

  lemma NoPartners(value: Row, right: seq<Row>)
    ensures PartnersFrom(value, right, 0) == [] <==> value.None? || value !in right
  {
    PartnersMean(value, right, 0);
    var partners := PartnersFrom(value, right, 0);
    if partners != [] {
      var k: nat := partners[0];
      assert k in partners;
    }
  }

  /** The pairs of the matched rows. */
  function Matched(pairs: seq<OuterPair>): (r: seq<(nat, nat)>) {
    if pairs == [] then []
    else if pairs[0].right.Some? then [(pairs[0].left, pairs[0].right.value)] + Matched(pairs[1..])
    else Matched(pairs[1..])
  }

  lemma {:induction false} MatchedConcat(a: seq<OuterPair>, b: seq<OuterPair>)
    ensures Matched(a + b) == Matched(a) + Matched(b)
    decreases |a|
  {
    if a == [] {
      assert a + b == b;
    } else {
      assert (a + b)[1..] == a[1..] + b;
      MatchedConcat(a[1..], b);
    }
  }

  lemma {:induction false} MatchedRow(i: nat, partners: seq<nat>)
    ensures Matched(OuterRow(i, partners)) == Paired(i, partners)
    decreases |partners|
  {
    var row := OuterRow(i, partners);
    if partners == [] {
      assert row[1..] == [];
    } else if |partners| == 1 {
      assert row[1..] == [];
      assert Paired(i, partners) == [(i, partners[0])];
    } else {
      assert row[1..] == OuterRow(i, partners[1..]);
      MatchedRow(i, partners[1..]);
      assert Paired(i, partners) == [(i, partners[0])] + Paired(i, partners[1..]);
    }
  }

  lemma {:induction false} MatchedFrom(left: seq<Row>, right: seq<Row>, i: nat)
    requires i <= |left|
    ensures Matched(LeftOuterFrom(left, right, i)) == InnerFrom(left, right, i)
    decreases |left| - i
  {
    if i < |left| {
      var partners := PartnersFrom(left[i], right, 0);
      MatchedFrom(left, right, i + 1);
      MatchedRow(i, partners);
      MatchedConcat(OuterRow(i, partners), LeftOuterFrom(left, right, i + 1));
    }
  }

  /** Without its unmatched rows the left outer join is the inner join. */
  lemma LeftOuterWithoutUnmatched(left: seq<Row>, right: seq<Row>)
    ensures Matched(LeftOuter(left, right)) == Inner(left, right)
  {
    MatchedFrom(left, right, 0);
  }

  // ---------- the hash index ----------

  /** The rows the index holds for a value; none for `NULL`. */
  function Lookup(index: map<i64, seq<nat>>, value: Row): (r: seq<nat>) {
    if value.Some? && value.value in index then index[value.value] else []
  }

  /** The index holds, under each present value, its rows in order, and no empty entry. */
  ghost predicate Indexes(index: map<i64, seq<nat>>, right: seq<Row>) {
    && (forall value: Row :: Lookup(index, value) == PartnersFrom(value, right, 0))
    && (forall v :: v in index ==> index[v] != [])
  }

  lemma {:induction false} PartnersExtend(value: Row, right: seq<Row>, n: nat, j: nat)
    requires j <= n < |right|
    ensures PartnersFrom(value, right[..n + 1], j)
         == PartnersFrom(value, right[..n], j) + (if Joins(value, right[n]) then [n] else [])
    decreases n - j
  {
    var longer, shorter := right[..n + 1], right[..n];
    var last: seq<nat> := if Joins(value, right[n]) then [n] else [];
    if j == n {
      assert PartnersFrom(value, longer, n + 1) == [];
      assert [] + last == last;
    } else {
      PartnersExtend(value, right, n, j + 1);
      assert longer[j] == shorter[j];
      if Joins(value, right[j]) {
        Associates([j], PartnersFrom(value, shorter, j + 1), last);
      }
    }
  }

  /** `index_right_rows`. */
  method IndexRightRows(right: seq<Row>) returns (index: map<i64, seq<nat>>)
    ensures Indexes(index, right)
  {
    forall value: Row
      ensures PartnersFrom(value, right[..0], 0) == []
    {
    }
    index := map[];
    for rightRow := 0 to |right|
      invariant Indexes(index, right[..rightRow])
    {
      ghost var before := index;
      if right[rightRow].Some? {
        var v := right[rightRow].value;
        index := index[v := (if v in index then index[v] else []) + [rightRow]];
      }
      forall value: Row
        ensures Lookup(index, value) == PartnersFrom(value, right[..rightRow + 1], 0)
      {
        assert Lookup(before, value) == PartnersFrom(value, right[..rightRow], 0);
        PartnersExtend(value, right, rightRow, 0);
      }
    }
    assert right[..|right|] == right;
  }

  // ---------- the counting passes ----------

  function OutputLimit(maxOutputPairs: usize): (r: JoinError) {
    OutputLimitExceeded(SaturatingAdd(maxOutputPairs, 1), maxOutputPairs)
  }

  /** `count_output_pairs`; the remaining capacity is never negative. */
  method CountOutputPairs(left: seq<Row>, ghost right: seq<Row>, index: map<i64, seq<nat>>, maxOutputPairs: usize)
      returns (r: Result<usize, JoinError>)
    requires Indexes(index, right)
    ensures r == if |Inner(left, right)| > maxOutputPairs then Err(OutputLimit(maxOutputPairs))
        else Ok(|Inner(left, right)|)
  {
    hide PartnersFrom;
    var outputPairs: usize := 0;
    for i := 0 to |left|
      invariant outputPairs <= maxOutputPairs
      invariant |Inner(left, right)| == outputPairs + |InnerFrom(left, right, i)|
    {
      assert Lookup(index, left[i]) == PartnersFrom(left[i], right, 0);
      if left[i].Some? {
        var matchingRows := |Lookup(index, left[i])|;
        var remaining: nat := maxOutputPairs - outputPairs;
        if matchingRows > remaining {
          return Err(OutputLimit(maxOutputPairs));
        }
        outputPairs := outputPairs + matchingRows;
      }
    }
    return Ok(outputPairs);
  }

  /** `count_left_outer_output_pairs`; an index entry is never empty. */
  method CountLeftOuterOutputPairs(left: seq<Row>, ghost right: seq<Row>, index: map<i64, seq<nat>>,
      maxOutputPairs: usize)
      returns (r: Result<usize, JoinError>)
    requires Indexes(index, right)
    ensures r == if |LeftOuter(left, right)| > maxOutputPairs then Err(OutputLimit(maxOutputPairs))
                 else Ok(|LeftOuter(left, right)|)
  {
    hide PartnersFrom;
    var outputPairs: usize := 0;
    for i := 0 to |left|
      invariant outputPairs <= maxOutputPairs
      invariant |LeftOuter(left, right)| == outputPairs + |LeftOuterFrom(left, right, i)|
    {
      assert Lookup(index, left[i]) == PartnersFrom(left[i], right, 0);
      var matchingRows := if left[i].Some? && left[i].value in index then |index[left[i].value]| else 1;
      var remaining: nat := maxOutputPairs - outputPairs;
      if matchingRows > remaining {
        return Err(OutputLimit(maxOutputPairs));
      }
      outputPairs := outputPairs + matchingRows;
    }
    return Ok(outputPairs);
  }

  // ---------- the joins ----------

  function InputFault(left: nat, right: nat, maxInputRows: usize): (r: Option<JoinError>) {
    if left > maxInputRows then Some(LeftInputLimitExceeded(left, maxInputRows))
    else if right > maxInputRows then Some(RightInputLimitExceeded(right, maxInputRows))
    else None
  }

  /** `inner_equi_join_nullable_i64`. */
  method InnerEquiJoin(left: seq<Row>, right: seq<Row>, limits: JoinLimits)
    returns (r: Result<seq<(nat, nat)>, JoinError>)
    ensures match InputFault(|left|, |right|, limits.maxInputRows)
            case Some(fault) => r == Err(fault)
            case None =>
              r == if |Inner(left, right)| > limits.maxOutputPairs then Err(OutputLimit(limits.maxOutputPairs))
                   else Ok(Inner(left, right))
  {
    var fault := InputFault(|left|, |right|, limits.maxInputRows);
    if fault.Some? {
      return Err(fault.value);
    }
    var index := IndexRightRows(right);
    var counted := CountOutputPairs(left, right, index, limits.maxOutputPairs);
    if counted.Err? {
      return Err(counted.error);
    }
    var matches: seq<(nat, nat)> := [];
    for leftRow := 0 to |left|
      invariant matches + InnerFrom(left, right, leftRow) == Inner(left, right)
    {
      assert Lookup(index, left[leftRow]) == PartnersFrom(left[leftRow], right, 0);
      ghost var rest := InnerFrom(left, right, leftRow + 1);
      if left[leftRow].Some? && left[leftRow].value in index {
        var rightRows := index[left[leftRow].value];
        Associates(matches, Paired(leftRow, rightRows), rest);
        matches := matches + Paired(leftRow, rightRows);
      } else {
        assert Paired(leftRow, []) + rest == rest;
      }
    }
    assert matches + [] == matches;
    return Ok(matches);
  }

  /** `left_outer_equi_join_nullable_i64`. */
  method LeftOuterEquiJoin(left: seq<Row>, right: seq<Row>, limits: JoinLimits)
    returns (r: Result<seq<OuterPair>, JoinError>)
    ensures match InputFault(|left|, |right|, limits.maxInputRows)
            case Some(fault) => r == Err(fault)
            case None =>
              r == if |LeftOuter(left, right)| > limits.maxOutputPairs then Err(OutputLimit(limits.maxOutputPairs))
                   else Ok(LeftOuter(left, right))
  {
    var fault := InputFault(|left|, |right|, limits.maxInputRows);
    if fault.Some? {
      return Err(fault.value);
    }
    var index := IndexRightRows(right);
    var counted := CountLeftOuterOutputPairs(left, right, index, limits.maxOutputPairs);
    if counted.Err? {
      return Err(counted.error);
    }
    var rows: seq<OuterPair> := [];
    for leftRow := 0 to |left|
      invariant rows + LeftOuterFrom(left, right, leftRow) == LeftOuter(left, right)
    {
      assert Lookup(index, left[leftRow]) == PartnersFrom(left[leftRow], right, 0);
      ghost var rest := LeftOuterFrom(left, right, leftRow + 1);
      if left[leftRow].Some? && left[leftRow].value in index {
        var rightRows := index[left[leftRow].value];
        var pairs := seq(|rightRows|, k requires 0 <= k < |rightRows| => OuterPair(leftRow, Some(rightRows[k])));
        assert pairs == OuterRow(leftRow, rightRows);
        Associates(rows, pairs, rest);
        rows := rows + pairs;
      } else {
        Associates(rows, [OuterPair(leftRow, None)], rest);
        rows := rows + [OuterPair(leftRow, None)];
      }
    }
    assert rows + [] == rows;
    return Ok(rows);
  }
}
