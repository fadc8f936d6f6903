/** What the results of `src/execution.rs` mean, in terms of rows and the order of integers. */
module SelectLaws {
  import opened Words
  import opened Storage
  import opened Scan
  import opened Execution
  import Aggregate
  import Order

  // ---------- filtering ----------

  /** A single row passes by its own value alone. */
  lemma FilterOfOneRow(row: Row, literal: i64)
    ensures Filtered([row], IsNull) == if row == None then [row] else []
    ensures Filtered([row], IsNotNull) == if row == None then [] else [row]
    ensures row == None ==> forall operator :: Filtered([row], Comparison(operator, literal)) == []
    ensures row != None ==>
      var v := row.value;
      && Filtered([row], Comparison(Eq, literal)) == (if v == literal then [row] else [])
      && Filtered([row], Comparison(Ne, literal)) == (if v == literal then [] else [row])
      && Filtered([row], Comparison(Lt, literal)) == (if v < literal then [row] else [])
      && Filtered([row], Comparison(Le, literal)) == (if v <= literal then [row] else [])
      && Filtered([row], Comparison(Gt, literal)) == (if v > literal then [row] else [])
      && Filtered([row], Comparison(Ge, literal)) == (if v >= literal then [row] else [])
  {
    forall p: Predicate
      ensures Filtered([row], p) == if p.Matches(row) then [row] else []
    {
      assert [row][1..] == [];
    }
  }

  /** Filtering goes row by row, in order. */
  lemma {:induction false} FilterOfConcat(a: seq<Row>, b: seq<Row>, p: Predicate)
    ensures Filtered(a + b, p) == Filtered(a, p) + Filtered(b, p)
    decreases |a|
  {
    hide Predicate.Matches;
    if a == [] {
      assert a + b == b && Filtered(b, p) == [] + Filtered(b, p);
    } else {
      assert (a + b)[0] == a[0] && (a + b)[1..] == a[1..] + b;
      FilterOfConcat(a[1..], b, p);
      Associates(if p.Matches(a[0]) then [a[0]] else [], Filtered(a[1..], p), Filtered(b, p));
    }
  }

  // ---------- ordering and taking ----------

  /** `a` may stand before `b` in the output of an ordered SELECT. */
  predicate InOrder(direction: Order.Direction, nullOrder: Order.NullOrder, a: Row, b: Row) {
    if a == None then b == None || nullOrder == Order.First
    else if b == None then nullOrder == Order.Last
    else if direction == Order.Asc then a.value <= b.value
    else a.value >= b.value
  }

  ghost predicate AllInOrder(direction: Order.Direction, nullOrder: Order.NullOrder, values: seq<Row>) {
    forall i, j :: 0 <= i < j < |values| ==> InOrder(direction, nullOrder, values[i], values[j])
  }

  predicate InBounds(rows: seq<nat>, n: nat) {
    forall k :: 0 <= k < |rows| ==> rows[k] < n
  }

  /** Every position once. */
  ghost predicate IsPermutation(rows: seq<nat>, n: nat) {
    && |rows| == n
    && (forall i: nat :: i < n ==> i in rows)
    && InBounds(rows, n)
    && (forall k, m :: 0 <= k < m < |rows| ==> rows[k] != rows[m])
  }

  lemma AtWithout(values: seq<Row>, rows: seq<nat>, k: nat)
    requires InBounds(rows, |values|) && k < |rows|
    ensures InBounds(rows[..k] + rows[k + 1..], |values|)
    ensures multiset(At(values, rows)) == multiset(At(values, rows[..k] + rows[k + 1..])) + multiset{values[rows[k]]}
  {
    var found := At(values, rows);
    assert found == found[..k] + [found[k]] + found[k + 1..];
    assert At(values, rows[..k] + rows[k + 1..]) == found[..k] + found[k + 1..];
  }

  lemma {:induction false} PermutedValues(values: seq<Row>, rows: seq<nat>)
    requires IsPermutation(rows, |values|)
    ensures multiset(At(values, rows)) == multiset(values)
    decreases |values|
  {
    if values == [] {
      assert At(values, rows) == [];
    } else {
      var last: nat := |values| - 1;
      assert last in rows;
      var k :| 0 <= k < |rows| && rows[k] == last;
      var rest, init := rows[..k] + rows[k + 1..], values[..last];
      AtWithout(values, rows, k);
      LeaveOut(rows, k, last);
      PermutedValues(init, rest);
      assert At(init, rest) == At(values, rest);
      assert values == init + [values[last]];
    }
  }

  lemma LeaveOut(rows: seq<nat>, k: nat, last: nat)
    requires k < |rows| && rows[k] == last && IsPermutation(rows, last + 1)
    ensures IsPermutation(rows[..k] + rows[k + 1..], last)
  {
    var rest := rows[..k] + rows[k + 1..];
    forall i: nat | i < last
      ensures i in rest
    {
      assert i in rows;
      var m :| 0 <= m < |rows| && rows[m] == i;
      assert rest[if m < k then m else m - 1] == i;
    }
    forall m | 0 <= m < |rest|
      ensures rest[m] < last
    {
      assert rest[m] == rows[if m < k then m else m + 1];
    }
  }

  lemma StableOrderPermutes(direction: Order.Direction, nullOrder: Order.NullOrder, values: seq<Row>)
    ensures IsPermutation(Order.StableOrder(direction, nullOrder, values), |values|)
  {
    var rows := Order.StableOrder(direction, nullOrder, values);
    Order.StableOrderMeans(direction, nullOrder, values);
    OrderInBounds(direction, nullOrder, values);
  }

  /** The ordered values are the values, each as often, in the order of the clause. */
  lemma OrderedMeans(direction: Order.Direction, nullOrder: Order.NullOrder, values: seq<Row>)
    ensures multiset(Ordered(direction, nullOrder, values)) == multiset(values)
    ensures AllInOrder(direction, nullOrder, Ordered(direction, nullOrder, values))
  {
    var rows := Order.StableOrder(direction, nullOrder, values);
    StableOrderPermutes(direction, nullOrder, values);
    PermutedValues(values, rows);
    Order.StableOrderMeans(direction, nullOrder, values);
    forall i, j | 0 <= i < j < |values|
      ensures InOrder(direction, nullOrder, values[rows[i]], values[rows[j]])
    {
      assert Order.RowBefore(direction, nullOrder, values, rows[i], rows[j]);
    }
  }

  // ---------- SELECT ----------

  /** Whether a row passes the condition of a statement. */
  predicate Passes(statement: SelectStatement, row: Row) {
    statement.condition.Some? ==> Filtered([row], statement.condition.value.condition) == [row]
  }

  lemma {:induction false} FilteredCounts(values: seq<Row>, p: Predicate, row: Row)
    ensures multiset(Filtered(values, p))[row] == if Filtered([row], p) == [row] then multiset(values)[row] else 0
    decreases |values|
  {
    assert [row][1..] == [];
    if values != [] {
      FilteredCounts(values[1..], p, row);
      FirstAndRest(values);
      var head := if p.Matches(values[0]) then [values[0]] else [];
      assert multiset(Filtered(values, p)) == multiset(head) + multiset(Filtered(values[1..], p));
      assert multiset(values) == multiset([values[0]]) + multiset(values[1..]);
    }
  }

  /** The result holds no more rows than the limit, only rows that pass, and all of them unless
      the limit is reached; under an ORDER BY they are in order, and every passing row that the
      limit cut off may stand behind each of them. */
  lemma SelectMeans(values: seq<Row>, statement: SelectStatement, row: Row)
    ensures var result := SelectMeaning(values, statement);
      && (statement.limit.Some? ==> |result| <= statement.limit.value)
      && (statement.limit.None? || |result| < statement.limit.value ==>
            multiset(result)[row] == if Passes(statement, row) then multiset(values)[row] else 0)
      && multiset(result)[row] <= (if Passes(statement, row) then multiset(values)[row] else 0)
    ensures statement.orderBy.Some? ==>
      var result, clause := SelectMeaning(values, statement), statement.orderBy.value;
      && AllInOrder(clause.direction, clause.nullOrder, result)
      && (Passes(statement, row) && multiset(result)[row] < multiset(values)[row] ==>
            forall i :: 0 <= i < |result| ==> InOrder(clause.direction, clause.nullOrder, result[i], row))
    ensures statement.orderBy.None? ==> SelectMeaning(values, statement) <= Passing(values, statement)
  {
    var passing, result := Passing(values, statement), SelectMeaning(values, statement);
    if statement.condition.Some? {
      FilteredCounts(values, statement.condition.value.condition, row);
    }
    if statement.orderBy.Some? {
      var clause := statement.orderBy.value;
      var ordered := Ordered(clause.direction, clause.nullOrder, passing);
      OrderedMeans(clause.direction, clause.nullOrder, passing);
      CutOffComesAfter(clause.direction, clause.nullOrder, ordered, |result|, row);
      assert ordered == result + ordered[|result|..];
    } else {
      assert passing == result + passing[|result|..];
    }
  }

  lemma CutOffComesAfter(direction: Order.Direction, nullOrder: Order.NullOrder, ordered: seq<Row>, n: nat, row: Row)
    requires n <= |ordered| && AllInOrder(direction, nullOrder, ordered)
    ensures multiset(ordered[..n])[row] < multiset(ordered)[row] ==>
      forall i :: 0 <= i < n ==> InOrder(direction, nullOrder, ordered[i], row)
  {
    assert ordered == ordered[..n] + ordered[n..];
    if multiset(ordered[..n])[row] < multiset(ordered)[row] {
      assert row in ordered[n..];
      var j :| 0 <= j < |ordered[n..]| && ordered[n..][j] == row;
      assert ordered[n + j] == row;
    }
  }

  // ---------- COUNT and SUM ----------

  /** What is counted and summed, value by value. */
  lemma TotalsOfConcat(a: seq<Row>, b: seq<Row>, row: Row)
    ensures Present(a + b) == Present(a) + Present(b) && Total(a + b) == Total(a) + Total(b)
    ensures Present([row]) == (if row == None then 0 else 1)
    ensures Total([row]) == if row == None then 0 else row.value
    decreases |a|
  {
    assert [row][1..] == [];
    if a == [] {
      assert a + b == b;
    } else {
      assert (a + b)[1..] == a[1..] + b;
      TotalsOfConcat(a[1..], b, row);
    }
  }

  /** `SUM` is `NULL` without a present value, otherwise the exact sum, and it overflows exactly
      when that is no signed 64-bit number. */
  lemma SumDecides(values: seq<Row>)
    ensures SumOutcome(values) == Ok(None) <==> Present(values) == 0
    ensures forall sum: i64 :: SumOutcome(values) == Ok(Some(sum)) <==> Present(values) > 0 && Total(values) == sum
    ensures SumOutcome(values).Err? <==>
      Present(values) > 0 && !(-9223372036854775808 <= Total(values) <= 9223372036854775807)
  {
  }

  // ---------- bounds ----------

  /** A SELECT stays within its bounds exactly when the rows it reads, the rows that pass and the
      limit it asks for do; the scan is bounded under a condition only, and the order under an
      ORDER BY only. */
  lemma SelectBoundsDecide(values: seq<Row>, statement: SelectStatement, scan: ScanLimits, order: Order.OrderLimits)
    ensures ScanFault(values, statement, scan) == None <==>
      (statement.condition != None ==>
        |values| <= scan.maxInputRows && |Passing(values, statement)| <= scan.maxResultRows)
    ensures OrderFault(values, statement, order) == None <==>
      (statement.orderBy != None ==>
        && |Passing(values, statement)| <= order.maxInputRows
        && (if statement.limit != None then statement.limit.value else |values|) <= order.maxLimit)
  {
  }

  /** The same of a COUNT or SUM: what it scans under a condition, and what it aggregates. */
  lemma ScalarBoundsDecide(values: seq<Row>, statement: ScalarStatement, scan: ScanLimits,
                           limits: Aggregate.AggregateLimits)
    ensures ScalarScanFault(values, statement, scan) == None <==>
      (statement.condition != None ==>
        |values| <= scan.maxInputRows && |Aggregated(values, statement)| <= scan.maxResultRows)
    ensures AggregateFault(values, statement, limits) == None <==>
      |values| <= limits.maxInputRows && |Aggregated(values, statement)| <= limits.maxSelectedRows
  {
    if statement.condition != None {
      ScanIsFilter(values, statement.condition.value.Condition());
    }
  }

  // ---------- names ----------

  /** A SELECT is refused for a name exactly when one of its names is not the table's; it is a
      wrong table name first, and otherwise a wrong column name that it holds. */
  lemma SelectNamesDecide(expected: Name, schema: Schema, statement: SelectStatement)
    ensures UnknownName(expected, schema, statement) == None <==>
      && statement.table == expected && statement.column == schema.name
      && (statement.condition != None ==> statement.condition.value.column == schema.name)
      && (statement.orderBy != None ==> statement.orderBy.value.column == schema.name)
    ensures statement.table != expected ==>
      UnknownName(expected, schema, statement) == Some(UnknownTable(statement.table))
    ensures statement.table == expected && UnknownName(expected, schema, statement) != None ==>
      exists wrong: Name :: wrong != schema.name
        && UnknownName(expected, schema, statement) == Some(UnknownColumn(wrong))
        && (wrong == statement.column
            || (statement.condition != None && wrong == statement.condition.value.column)
            || (statement.orderBy != None && wrong == statement.orderBy.value.column))
  {
  }

  lemma ScalarNamesDecide(expected: Name, schema: Schema, statement: ScalarStatement)
    ensures UnknownScalarName(expected, schema, statement) == None <==>
      && statement.table == expected
      && (statement.column != None ==> statement.column.value == schema.name)
      && (statement.condition != None ==> statement.condition.value.column == schema.name)
    ensures statement.table != expected ==>
      UnknownScalarName(expected, schema, statement) == Some(UnknownTable(statement.table))
    ensures statement.table == expected && UnknownScalarName(expected, schema, statement) != None ==>
      exists wrong: Name :: wrong != schema.name
        && UnknownScalarName(expected, schema, statement) == Some(UnknownColumn(wrong))
        && ((statement.column != None && wrong == statement.column.value)
            || (statement.condition != None && wrong == statement.condition.value.column))
  {
  }

  /** The projected column belongs to the left table in an inner join and to the right one in a
      left join. */
  lemma JoinNamesDecide(expectedLeft: Name, expectedRight: Name, left: Schema, right: Schema, statement: JoinStatement)
    ensures forall inner ::
      UnknownJoinName(expectedLeft, expectedRight, left, right, statement, inner) == None <==>
        && statement.leftTable == expectedLeft && statement.rightTable == expectedRight
        && statement.leftColumn == left.name && statement.rightColumn == right.name
        && statement.projected == if inner then left.name else right.name
    ensures forall inner :: statement.leftTable != expectedLeft ==>
      UnknownJoinName(expectedLeft, expectedRight, left, right, statement, inner)
      == Some(UnknownJoinTable(statement.leftTable))
    ensures forall inner :: statement.leftTable == expectedLeft && statement.rightTable != expectedRight ==>
      UnknownJoinName(expectedLeft, expectedRight, left, right, statement, inner)
      == Some(UnknownJoinTable(statement.rightTable))
  {
  }
}
