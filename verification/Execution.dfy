/** Query execution over one-column tables (`src/execution.rs`). */
module Execution {
  import opened Words
  import opened Storage
  import opened Scan
  import Aggregate
  import GlobalSumAvg
  import Join
  import Order

  type Name = seq<byte>

  /** A condition with the column it names. */
  datatype Where = Where(column: Name, condition: Predicate)

  datatype OrderBy = OrderBy(column: Name, direction: Order.Direction, nullOrder: Order.NullOrder)

  datatype SelectStatement = SelectStatement(
    table: Name, column: Name, condition: Option<Where>, orderBy: Option<OrderBy>, limit: Option<nat>)

  /** Scalar aggregates filter by comparisons only. */
  datatype CompareWhere = CompareWhere(column: Name, operator: ComparisonOperator, literal: i64) {
    function Condition(): (r: Predicate) { Comparison(operator, literal) }
  }

  /** `COUNT(*)` names no column. */
  datatype ScalarStatement = ScalarStatement(table: Name, column: Option<Name>, condition: Option<CompareWhere>)

  datatype SelectExecutionError =
    | UnknownTable(name: Name)
    | UnknownColumn(name: Name)
    | ScanFailed(scan: ScanError)
    | OrderFailed(order: Order.OrderError)
    | AggregateFailed(aggregate: Aggregate.AggregateError)

  // ---------- the declarative meaning of SELECT ----------

  /** The matching values in source order. */
  function Filtered(values: seq<Row>, p: Predicate): (r: seq<Row>) {
    if values == [] then []
    else (if p.Matches(values[0]) then [values[0]] else []) + Filtered(values[1..], p)
  }

  function At(values: seq<Row>, rows: seq<nat>): (r: seq<Row>)
    requires forall k :: 0 <= k < |rows| ==> rows[k] < |values|
    ensures |r| == |rows|
  {
    seq(|rows|, k requires 0 <= k < |rows| => values[rows[k]])
  }

  lemma MatchingInBounds(values: seq<Row>, p: Predicate)
    ensures forall k :: 0 <= k < |Matching(values, p)| ==> Matching(values, p)[k] < |values|
  {
    MatchingMeans(values, p);
    forall k | 0 <= k < |Matching(values, p)|
      ensures Matching(values, p)[k] < |values|
    {
      var row: nat := Matching(values, p)[k];
      assert row in Matching(values, p);
    }
  }

  lemma OrderInBounds(direction: Order.Direction, nullOrder: Order.NullOrder, values: seq<Row>)
    ensures forall k :: 0 <= k < |values| ==> Order.StableOrder(direction, nullOrder, values)[k] < |values|
  {
    var rows := Order.StableOrder(direction, nullOrder, values);
    Order.StableOrderMeans(direction, nullOrder, values);
    forall k | 0 <= k < |values|
      ensures rows[k] < |values|
    {
      var row: nat := rows[k];
      assert row in rows;
    }
  }

  /** The values in the stable order of the clause. */
  function Ordered(direction: Order.Direction, nullOrder: Order.NullOrder, values: seq<Row>): (r: seq<Row>)
    ensures |r| == |values|
  {
    OrderInBounds(direction, nullOrder, values);
    At(values, Order.StableOrder(direction, nullOrder, values))
  }

  function Taken(values: seq<Row>, limit: Option<nat>): (r: seq<Row>) {
    if limit.Some? && limit.value < |values| then values[..limit.value] else values
  }

  /** Filter, then stable sort, then take. */
  function SelectMeaning(values: seq<Row>, statement: SelectStatement): (r: seq<Row>) {
    var filtered := Passing(values, statement);
    var ordered :=
      if statement.orderBy.Some? then Ordered(statement.orderBy.value.direction, statement.orderBy.value.nullOrder,
          filtered)
      else filtered;
    Taken(ordered, statement.limit)
  }

  lemma {:induction false} MatchingIsFiltered(values: seq<Row>, p: Predicate, i: nat)
    requires i <= |values|
    ensures forall k :: 0 <= k < |MatchingFrom(values, p, i)| ==> MatchingFrom(values, p, i)[k] < |values|
    ensures At(values, MatchingFrom(values, p, i)) == Filtered(values[i..], p)
    decreases |values| - i
  {
    if i < |values| {
      MatchingIsFiltered(values, p, i + 1);
      assert values[i..][1..] == values[i + 1..];
      var head: seq<nat> := if p.Matches(values[i]) then [i] else [];
      assert head + MatchingFrom(values, p, i + 1) == MatchingFrom(values, p, i);
      assert At(values, head) == if p.Matches(values[i]) then [values[i]] else [];
    }
  }

  /** The scan's rows hold the filtered values. */
  lemma ScanIsFilter(values: seq<Row>, p: Predicate)
    ensures forall k :: 0 <= k < |Matching(values, p)| ==> Matching(values, p)[k] < |values|
    ensures At(values, Matching(values, p)) == Filtered(values, p)
  {
    MatchingIsFiltered(values, p, 0);
    assert values[0..] == values;
  }

  // ---------- SELECT ----------

  /** The first name in the statement that is not the table's. */
  function UnknownName(expected: Name, schema: Schema, statement: SelectStatement): (r: Option<SelectExecutionError>) {
    if statement.table != expected then Some(UnknownTable(statement.table))
    else if statement.column != schema.name then Some(UnknownColumn(statement.column))
    else if statement.condition.Some? && statement.condition.value.column != schema.name then
      Some(UnknownColumn(statement.condition.value.column))
    else if statement.orderBy.Some? && statement.orderBy.value.column != schema.name then
      Some(UnknownColumn(statement.orderBy.value.column))
    else None
  }

  /** The values that pass the condition, if there is one. */
  function Passing(values: seq<Row>, statement: SelectStatement): (r: seq<Row>) {
    if statement.condition.Some? then Filtered(values, statement.condition.value.condition) else values
  }

  /** The scan bound that execution runs into, if any. */
  function ScanFault(values: seq<Row>, statement: SelectStatement, limits: ScanLimits)
      : (r: Option<SelectExecutionError>)
  {
    if statement.condition.None? then None
    else if |values| > limits.maxInputRows
        then Some(ScanFailed(ScanError.InputLimitExceeded(|values|, limits.maxInputRows)))
    else if |Passing(values, statement)| > limits.maxResultRows then
      Some(ScanFailed(ResultLimitExceeded(SaturatingAdd(limits.maxResultRows, 1), limits.maxResultRows)))
    else None
  }

  /** The order bound, over the values that pass the condition. */
  function OrderFault(values: seq<Row>, statement: SelectStatement, limits: Order.OrderLimits)
      : (r: Option<SelectExecutionError>)
  {
    var rows := |Passing(values, statement)|;
    if statement.orderBy.None? then None
    else if rows > limits.maxInputRows then Some(OrderFailed(Order.InputLimitExceeded(rows, limits.maxInputRows)))
    else if Limit(values, statement) > limits.maxLimit then
      Some(OrderFailed(Order.LimitExceeded(Limit(values, statement), limits.maxLimit)))
    else None
  }

  /** The statement's limit, or the number of stored rows. */
  function Limit(values: seq<Row>, statement: SelectStatement): (r: nat) {
    if statement.limit.Some? then statement.limit.value else |values|
  }

  lemma PassingIsShorter(values: seq<Row>, statement: SelectStatement)
    ensures |Passing(values, statement)| <= |values|
  {
    if statement.condition.Some? {
      ScanIsFilter(values, statement.condition.value.condition);
    }
  }

  /** Takes the first ordered rows and looks their values up. */
  lemma OrderedTake(orderBy: OrderBy, values: seq<Row>, k: nat)
    requires k <= |values|
    ensures var rows := Order.StableOrder(orderBy.direction, orderBy.nullOrder, values)[..k];
      && (forall j :: 0 <= j < k ==> rows[j] < |values|)
      && At(values, rows) == Ordered(orderBy.direction, orderBy.nullOrder, values)[..k]
  {
    OrderInBounds(orderBy.direction, orderBy.nullOrder, values);
  }

  /** The values that pass, by way of the bounded scan. */
  method ScanSelect(values: seq<Row>, statement: SelectStatement, limits: ScanLimits)
    returns (r: Result<seq<Row>, SelectExecutionError>)
    ensures match ScanFault(values, statement, limits)
            case Some(error) => r == Err(error)
            case None => r == Ok(Passing(values, statement))
  {
    if statement.condition.None? {
      return Ok(values);
    }
    var p := statement.condition.value.condition;
    ScanIsFilter(values, p);
    var scanned := ScanMatchingRows(values, p, limits);
    match scanned {
      case Err(error) =>
        return Err(ScanFailed(error));
      case Ok(rows) =>
        return Ok(At(values, rows));
    }
  }

  lemma TakingIsTaken(values: seq<Row>, statement: SelectStatement, selected: seq<Row>)
    requires |selected| <= |values|
    ensures selected[..Min(Limit(values, statement), |selected|)] == Taken(selected, statement.limit)
  {
  }

  /** `execute_select_with_order_limits`: filter, then stable sort, then take, within the bounds. */
  method ExecuteSelect(expected: Name, table: Contents, statement: SelectStatement,
                       scanLimits: ScanLimits, orderLimits: Order.OrderLimits)
      returns (r: Result<seq<Row>, SelectExecutionError>)
    ensures match UnknownName(expected, table.schema, statement)
            case Some(error) => r == Err(error)
            case None =>
              match ScanFault(table.rows, statement, scanLimits)
              case Some(error) => r == Err(error)
              case None =>
                match OrderFault(table.rows, statement, orderLimits)
                case Some(error) => r == Err(error)
                case None => r == Ok(SelectMeaning(table.rows, statement))
  {
    if statement.table != expected {
      return Err(UnknownTable(statement.table));
    }
    if statement.column != table.schema.name {
      return Err(UnknownColumn(statement.column));
    }
    if statement.condition.Some? && statement.condition.value.column != table.schema.name {
      return Err(UnknownColumn(statement.condition.value.column));
    }
    if statement.orderBy.Some? && statement.orderBy.value.column != table.schema.name {
      return Err(UnknownColumn(statement.orderBy.value.column));
    }
    var passing := ScanSelect(table.rows, statement, scanLimits);
    if passing.Err? {
      return passing;
    }
    PassingIsShorter(table.rows, statement);
    var limit := Limit(table.rows, statement);
    if statement.orderBy.Some? {
      TakingIsTaken(table.rows, statement,
                    Ordered(statement.orderBy.value.direction, statement.orderBy.value.nullOrder, passing.value));
      r := OrderAndTake(passing.value, statement.orderBy.value, limit, orderLimits);
    } else {
      TakingIsTaken(table.rows, statement, passing.value);
      r := Ok(passing.value[..Min(limit, |passing.value|)]);
    }
  }

  method OrderAndTake(input: seq<Row>, orderBy: OrderBy, limit: nat, limits: Order.OrderLimits)
      returns (r: Result<seq<Row>, SelectExecutionError>)
    ensures match Order.OrderOutcome(orderBy.direction, orderBy.nullOrder, input, limit, limits)
            case Err(error) => r == Err(OrderFailed(error))
            case Ok(rows) => r == Ok(Ordered(orderBy.direction, orderBy.nullOrder, input)[..Min(limit, |input|)])
  {
    var ordered := Order.OrderNullableI64(orderBy.direction, orderBy.nullOrder, input, limit, limits);
    match ordered {
      case Err(error) =>
        return Err(OrderFailed(error));
      case Ok(rows) =>
        OrderedTake(orderBy, input, Min(limit, |input|));
        return Ok(At(input, rows));
    }
  }

  /** With the default bounds a statement fails only on a name. */
  lemma DefaultBoundsSuffice(values: seq<Row>, statement: SelectStatement)
    requires |values| < U64_LIMIT && (statement.limit.Some? ==> statement.limit.value < U64_LIMIT)
    ensures ScanFault(values, statement, ScanLimits(|values|, |values|)).None?
    ensures OrderFault(values, statement, Order.OrderLimits(|values|, Limit(values, statement))).None?
  {
    PassingIsShorter(values, statement);
  }

  // ---------- COUNT and SUM ----------

  /** The first name in the statement that is not the table's. */
  function UnknownScalarName(expected: Name, schema: Schema, statement: ScalarStatement)
      : (r: Option<SelectExecutionError>)
  {
    if statement.table != expected then Some(UnknownTable(statement.table))
    else if statement.column.Some? && statement.column.value != schema.name
        then Some(UnknownColumn(statement.column.value))
    else if statement.condition.Some? && statement.condition.value.column != schema.name then
      Some(UnknownColumn(statement.condition.value.column))
    else None
  }

  /** The selection that the scan hands to the aggregate. */
  function Selection(values: seq<Row>, statement: ScalarStatement): (r: Aggregate.RowSelection) {
    if statement.condition.Some? then Aggregate.Indices(Matching(values, statement.condition.value.Condition()))
    else Aggregate.All
  }

  function ScalarScanFault(values: seq<Row>, statement: ScalarStatement, limits: ScanLimits)
      : (r: Option<SelectExecutionError>)
  {
    if statement.condition.None? then None
    else
      match ScanOutcome(values, statement.condition.value.Condition(), limits)
      case Err(error) => Some(ScanFailed(error))
      case Ok(rows) => None
  }

  predicate IsBound(error: Aggregate.AggregateError) {
    error.InputLimitExceeded? || error.SelectionLimitExceeded?
  }

  /** What the scan selects, the aggregate always accepts: no filtered aggregate reports a
      selection out of order or out of bounds, and a selection over its bound is all that is left. */
  lemma ScannedSelectionIsValid(values: seq<Row>, statement: ScalarStatement, limits: Aggregate.AggregateLimits)
    ensures var fault := Aggregate.InputFault(|values|, Selection(values, statement), limits);
      fault.Some? ==> IsBound(fault.value)
    ensures statement.condition.Some? ==>
      Aggregate.SelectionFault(Matching(values, statement.condition.value.Condition()), |values|, 0).None?
  {
    if statement.condition.Some? {
      MatchingMeans(values, statement.condition.value.Condition());
      MatchingInBounds(values, statement.condition.value.Condition());
      Aggregate.ValidSelections(Matching(values, statement.condition.value.Condition()), |values|);
    }
  }

  method ScanSelection(values: seq<Row>, statement: ScalarStatement, limits: ScanLimits)
      returns (r: Result<Aggregate.RowSelection, SelectExecutionError>)
    ensures match ScalarScanFault(values, statement, limits)
            case Some(error) => r == Err(error)
            case None => r == Ok(Selection(values, statement))
  {
    if statement.condition.None? {
      return Ok(Aggregate.All);
    }
    var scanned := ScanMatchingRows(values, statement.condition.value.Condition(), limits);
    match scanned {
      case Err(error) => return Err(ScanFailed(error));
      case Ok(rows) => return Ok(Aggregate.Indices(rows));
    }
  }

  /** The values a scalar statement aggregates. */
  function Aggregated(values: seq<Row>, statement: ScalarStatement): (r: seq<Row>) {
    if statement.condition.Some? then Filtered(values, statement.condition.value.Condition()) else values
  }

  function Present(values: seq<Row>): (r: nat) {
    if values == [] then 0 else (if values[0].Some? then 1 else 0) + Present(values[1..])
  }

  function Total(values: seq<Row>): (r: int) {
    if values == [] then 0 else (if values[0].Some? then values[0].value else 0) + Total(values[1..])
  }

  lemma {:induction false} TotalsAppend(values: seq<Row>, row: Row)
    ensures Present(values + [row]) == Present(values) + (if row.Some? then 1 else 0)
    ensures Total(values + [row]) == Total(values) + (if row.Some? then row.value else 0)
    decreases |values|
  {
    if values == [] {
      assert values + [row] == [row] && [row][1..] == [];
    } else {
      assert (values + [row])[1..] == values[1..] + [row];
      TotalsAppend(values[1..], row);
    }
  }

  lemma {:induction false} TotalsOfRows(values: seq<Row>, rows: seq<nat>)
    requires forall k :: 0 <= k < |rows| ==> rows[k] < |values|
    ensures GlobalSumAvg.PresentCount(Aggregate.Column(values), rows) == Present(At(values, rows))
    ensures GlobalSumAvg.ExactSum(Aggregate.Column(values), rows) == Total(At(values, rows))
    decreases |rows|
  {
    if rows != [] {
      var before, last := rows[..|rows| - 1], rows[|rows| - 1];
      TotalsOfRows(values, before);
      TotalsAppend(At(values, before), values[last]);
      assert At(values, rows) == At(values, before) + [values[last]];
    }
  }

  /** The selected rows hold the aggregated values. */
  lemma SelectionHoldsAggregated(values: seq<Row>, statement: ScalarStatement)
    ensures var rows := Aggregate.SelectedRows(|values|, Selection(values, statement));
      && |rows| == |Aggregated(values, statement)|
      && GlobalSumAvg.PresentCount(Aggregate.Column(values), rows) == Present(Aggregated(values, statement))
      && GlobalSumAvg.ExactSum(Aggregate.Column(values), rows) == Total(Aggregated(values, statement))
  {
    var rows := Aggregate.SelectedRows(|values|, Selection(values, statement));
    if statement.condition.Some? {
      ScanIsFilter(values, statement.condition.value.Condition());
    } else {
      assert At(values, rows) == values;
    }
    TotalsOfRows(values, rows);
  }

  /** The aggregate bound that execution runs into, if any. */
  function AggregateFault(values: seq<Row>, statement: ScalarStatement, limits: Aggregate.AggregateLimits):
      (r: Option<SelectExecutionError>)
  {
    var selected := |Aggregated(values, statement)|;
    if |values| > limits.maxInputRows then
      Some(AggregateFailed(Aggregate.InputLimitExceeded(|values|, limits.maxInputRows)))
    else if selected > limits.maxSelectedRows then
      Some(AggregateFailed(Aggregate.SelectionLimitExceeded(selected, limits.maxSelectedRows)))
    else None
  }

  lemma FaultsAgree(values: seq<Row>, statement: ScalarStatement, limits: Aggregate.AggregateLimits)
    ensures var fault := Aggregate.InputFault(|values|, Selection(values, statement), limits);
      AggregateFault(values, statement, limits) == if fault.Some? then Some(AggregateFailed(fault.value)) else None
  {
    ScannedSelectionIsValid(values, statement, limits);
    SelectionHoldsAggregated(values, statement);
  }

  /** `execute_scalar_count_with_limits`. */
  method ExecuteScalarCount(expected: Name, table: Contents, statement: ScalarStatement,
                            scanLimits: ScanLimits, limits: Aggregate.AggregateLimits)
      returns (r: Result<nat, SelectExecutionError>)
    ensures match UnknownScalarName(expected, table.schema, statement)
            case Some(error) => r == Err(error)
            case None =>
              match ScalarScanFault(table.rows, statement, scanLimits)
              case Some(error) => r == Err(error)
              case None =>
                match AggregateFault(table.rows, statement, limits)
                case Some(error) => r == Err(error)
                case None =>
                  var values := Aggregated(table.rows, statement);
                  r == Ok(if statement.column.Some? then Present(values) else |values|)
  {
    if statement.table != expected {
      return Err(UnknownTable(statement.table));
    }
    if statement.column.Some? && statement.column.value != table.schema.name {
      return Err(UnknownColumn(statement.column.value));
    }
    if statement.condition.Some? && statement.condition.value.column != table.schema.name {
      return Err(UnknownColumn(statement.condition.value.column));
    }
    var selection := ScanSelection(table.rows, statement, scanLimits);
    if selection.Err? {
      return Err(selection.error);
    }
    FaultsAgree(table.rows, statement, limits);
    SelectionHoldsAggregated(table.rows, statement);
    var counted := Aggregate.CountNullableI64(table.rows, selection.value, limits);
    match counted {
      case Err(error) =>
        return Err(AggregateFailed(error));
      case Ok((countStar, countColumn)) =>
        return Ok(if statement.column.Some? then countColumn else countStar);
    }
  }

  /** What `SUM` yields for the aggregated values: `NULL` without a present one, and overflow
      exactly when the exact sum is no `Int64`. */
  function SumOutcome(values: seq<Row>): (r: Result<Row, SelectExecutionError>) {
    if Present(values) == 0 then Ok(None)
    else if Aggregate.FitsI64(Total(values)) then Ok(Some(Total(values)))
    else Err(AggregateFailed(Aggregate.SumOverflow(Total(values))))
  }

  /** `execute_scalar_sum_with_limits`. */
  method ExecuteScalarSum(expected: Name, table: Contents, statement: ScalarStatement,
                          scanLimits: ScanLimits, limits: Aggregate.AggregateLimits)
      returns (r: Result<Row, SelectExecutionError>)
    requires statement.column.Some? && |table.rows| <= ISIZE_MAX
    ensures match UnknownScalarName(expected, table.schema, statement)
            case Some(error) => r == Err(error)
            case None =>
              match ScalarScanFault(table.rows, statement, scanLimits)
              case Some(error) => r == Err(error)
              case None =>
                match AggregateFault(table.rows, statement, limits)
                case Some(error) => r == Err(error)
                case None => r == SumOutcome(Aggregated(table.rows, statement))
  {
    if statement.table != expected {
      return Err(UnknownTable(statement.table));
    }
    if statement.column.value != table.schema.name {
      return Err(UnknownColumn(statement.column.value));
    }
    if statement.condition.Some? && statement.condition.value.column != table.schema.name {
      return Err(UnknownColumn(statement.condition.value.column));
    }
    var selection := ScanSelection(table.rows, statement, scanLimits);
    if selection.Err? {
      return Err(selection.error);
    }
    FaultsAgree(table.rows, statement, limits);
    SelectionHoldsAggregated(table.rows, statement);
    var aggregates := Aggregate.AggregateNullableI64(table.rows, selection.value, limits);
    match aggregates {
      case Err(error) =>
        return Err(AggregateFailed(error));
      case Ok(found) =>
        return Ok(found.sum);
    }
  }

  /** Filtering by a comparison leaves no `NULL`, so both counts of it agree. */
  lemma {:induction false} FilteredCountsAgree(values: seq<Row>, operator: ComparisonOperator, literal: i64)
    ensures Present(Filtered(values, Comparison(operator, literal)))
        == |Filtered(values, Comparison(operator, literal))|
    decreases |values|
  {
    if values != [] {
      var p := Comparison(operator, literal);
      var rest := Filtered(values[1..], p);
      FilteredCountsAgree(values[1..], operator, literal);
      if p.Matches(values[0]) {
        assert ([values[0]] + rest)[1..] == rest;
      } else {
        assert [] + rest == rest;
      }
    }
  }

  // ---------- joins ----------

  datatype JoinStatement = JoinStatement(
    leftTable: Name, rightTable: Name, projected: Name, leftColumn: Name, rightColumn: Name)

  datatype JoinExecutionError =
    | UnknownJoinTable(name: Name)
    | UnknownJoinColumn(name: Name)
    | JoinFailed(join: Join.JoinError)

  /** The first name that is not that of its table; the projected column is a left one for an
      inner join and a right one for a left join. */
  function UnknownJoinName(expectedLeft: Name, expectedRight: Name, left: Schema, right: Schema,
                           statement: JoinStatement, inner: bool): (r: Option<JoinExecutionError>)
  {
    if statement.leftTable != expectedLeft then Some(UnknownJoinTable(statement.leftTable))
    else if statement.rightTable != expectedRight then Some(UnknownJoinTable(statement.rightTable))
    else if inner && statement.projected != left.name then Some(UnknownJoinColumn(statement.projected))
    else if statement.leftColumn != left.name then Some(UnknownJoinColumn(statement.leftColumn))
    else if !inner && statement.projected != right.name then Some(UnknownJoinColumn(statement.projected))
    else if statement.rightColumn != right.name then Some(UnknownJoinColumn(statement.rightColumn))
    else None
  }

  /** The left values of the inner pairs. */
  function InnerProjection(left: seq<Row>, pairs: seq<(nat, nat)>): (r: seq<Row>)
    requires forall k :: 0 <= k < |pairs| ==> pairs[k].0 < |left|
  {
    seq(|pairs|, k requires 0 <= k < |pairs| => left[pairs[k].0])
  }

  /** The right values of the outer pairs, `NULL` where a left row has no match. */
  function OuterProjection(right: seq<Row>, pairs: seq<Join.OuterPair>): (r: seq<Row>)
    requires forall k :: 0 <= k < |pairs| && pairs[k].right.Some? ==> pairs[k].right.value < |right|
    ensures |r| == |pairs|
  {
    seq(|pairs|, k requires 0 <= k < |pairs| => if pairs[k].right.Some? then right[pairs[k].right.value] else None)
  }

  lemma InnerInBounds(left: seq<Row>, right: seq<Row>)
    ensures forall k :: 0 <= k < |Join.Inner(left, right)| ==> PairJoins(left, right, Join.Inner(left, right)[k])
  {
    Join.InnerMeans(left, right);
    forall k | 0 <= k < |Join.Inner(left, right)|
      ensures PairJoins(left, right, Join.Inner(left, right)[k])
    {
      var pair := Join.Inner(left, right)[k];
      assert (pair.0, pair.1) in Join.Inner(left, right);
    }
  }

  predicate PairJoins(left: seq<Row>, right: seq<Row>, pair: (nat, nat)) {
    pair.0 < |left| && pair.1 < |right| && left[pair.0].Some? && left[pair.0] == right[pair.1]
  }

  predicate OuterJoins(left: seq<Row>, right: seq<Row>, pair: Join.OuterPair) {
    pair.right.Some? ==> PairJoins(left, right, (pair.left, pair.right.value))
  }

  predicate AllJoin(left: seq<Row>, right: seq<Row>, pairs: seq<(nat, nat)>) {
    forall k :: 0 <= k < |pairs| ==> PairJoins(left, right, pairs[k])
  }

  lemma {:induction false} OuterInBounds(left: seq<Row>, right: seq<Row>, pairs: seq<Join.OuterPair>)
    requires AllJoin(left, right, Join.Matched(pairs))
    ensures forall k :: 0 <= k < |pairs| ==> OuterJoins(left, right, pairs[k])
    ensures forall k :: 0 <= k < |pairs| && pairs[k].right.Some? ==> pairs[k].right.value < |right|
    decreases |pairs|
  {
    if pairs != [] {
      var rest := Join.Matched(pairs[1..]);
      if pairs[0].right.Some? {
        assert PairJoins(left, right, Join.Matched(pairs)[0]);
        assert ([(pairs[0].left, pairs[0].right.value)] + rest)[1..] == rest;
        forall k | 0 <= k < |rest|
          ensures PairJoins(left, right, rest[k])
        {
          assert PairJoins(left, right, Join.Matched(pairs)[k + 1]);
        }
      }
      OuterInBounds(left, right, pairs[1..]);
      forall k | 0 < k < |pairs|
        ensures OuterJoins(left, right, pairs[k])
      {
        assert pairs[1..][k - 1] == pairs[k];
      }
    }
  }

  /** `execute_inner_join`. */
  method ExecuteInnerJoin(expectedLeft: Name, left: Contents, expectedRight: Name, right: Contents,
                          statement: JoinStatement, limits: Join.JoinLimits)
      returns (r: Result<seq<Row>, JoinExecutionError>)
    ensures AllJoin(left.rows, right.rows, Join.Inner(left.rows, right.rows))
    ensures match UnknownJoinName(expectedLeft, expectedRight, left.schema, right.schema, statement, true)
            case Some(error) => r == Err(error)
            case None =>
              match Join.InputFault(|left.rows|, |right.rows|, limits.maxInputRows)
              case Some(fault) => r == Err(JoinFailed(fault))
              case None =>
                var pairs := Join.Inner(left.rows, right.rows);
                r == if |pairs| > limits.maxOutputPairs then Err(JoinFailed(Join.OutputLimit(limits.maxOutputPairs)))
                     else Ok(InnerProjection(left.rows, pairs))
  {
    InnerInBounds(left.rows, right.rows);
    var unknown := UnknownJoinName(expectedLeft, expectedRight, left.schema, right.schema, statement, true);
    if unknown.Some? {
      return Err(unknown.value);
    }
    var joined := Join.InnerEquiJoin(left.rows, right.rows, limits);
    match joined {
      case Err(error) => return Err(JoinFailed(error));
      case Ok(pairs) => return Ok(InnerProjection(left.rows, pairs));
    }
  }

  lemma LeftOuterInBounds(left: seq<Row>, right: seq<Row>)
    ensures forall k :: 0 <= k < |Join.LeftOuter(left, right)| && Join.LeftOuter(left, right)[k].right.Some?
                   ==> Join.LeftOuter(left, right)[k].right.value < |right|
  {
    InnerInBounds(left, right);
    Join.LeftOuterWithoutUnmatched(left, right);
    OuterInBounds(left, right, Join.LeftOuter(left, right));
  }

  /** `execute_left_join`. */
  method ExecuteLeftJoin(expectedLeft: Name, left: Contents, expectedRight: Name, right: Contents,
                         statement: JoinStatement, limits: Join.JoinLimits)
      returns (r: Result<seq<Row>, JoinExecutionError>)
    ensures forall k :: 0 <= k < |Join.LeftOuter(left.rows, right.rows)|
                   && Join.LeftOuter(left.rows, right.rows)[k].right.Some?
                   ==> Join.LeftOuter(left.rows, right.rows)[k].right.value < |right.rows|
    ensures match UnknownJoinName(expectedLeft, expectedRight, left.schema, right.schema, statement, false)
            case Some(error) => r == Err(error)
            case None =>
              match Join.InputFault(|left.rows|, |right.rows|, limits.maxInputRows)
              case Some(fault) => r == Err(JoinFailed(fault))
              case None =>
                var pairs := Join.LeftOuter(left.rows, right.rows);
                r == if |pairs| > limits.maxOutputPairs then Err(JoinFailed(Join.OutputLimit(limits.maxOutputPairs)))
                     else Ok(OuterProjection(right.rows, pairs))
  {
    LeftOuterInBounds(left.rows, right.rows);
    var unknown := UnknownJoinName(expectedLeft, expectedRight, left.schema, right.schema, statement, false);
    if unknown.Some? {
      return Err(unknown.value);
    }
    var joined := Join.LeftOuterEquiJoin(left.rows, right.rows, limits);
    match joined {
      case Err(error) => return Err(JoinFailed(error));
      case Ok(pairs) => return Ok(OuterProjection(right.rows, pairs));
    }
  }

  lemma {:induction false} ProjectionsAgree(left: seq<Row>, right: seq<Row>, pairs: seq<Join.OuterPair>)
    requires AllJoin(left, right, Join.Matched(pairs))
    requires forall k :: 0 <= k < |pairs| ==> OuterJoins(left, right, pairs[k])
    requires forall k :: 0 <= k < |pairs| && pairs[k].right.Some? ==> pairs[k].right.value < |right|
    ensures Filtered(OuterProjection(right, pairs), IsNotNull) == InnerProjection(left, Join.Matched(pairs))
    decreases |pairs|
  {
    if pairs != [] {
      var rest := pairs[1..];
      var matched := Join.Matched(rest);
      assert OuterProjection(right, pairs)[1..] == OuterProjection(right, rest);
      assert forall k :: 0 <= k < |rest| ==> rest[k] == pairs[k + 1];
      if pairs[0].right.Some? {
        var first := (pairs[0].left, pairs[0].right.value);
        assert PairJoins(left, right, first);
        forall k | 0 <= k < |matched|
          ensures PairJoins(left, right, matched[k])
        {
          assert matched[k] == Join.Matched(pairs)[k + 1];
        }
        ProjectionsAgree(left, right, rest);
        assert InnerProjection(left, [first] + matched) == [left[first.0]] + InnerProjection(left, matched);
      } else {
        ProjectionsAgree(left, right, rest);
        assert [] + Filtered(OuterProjection(right, rest), IsNotNull)
            == Filtered(OuterProjection(right, rest), IsNotNull);
      }
    }
  }

  /** Without its `NULL` rows, the column that a left join projects from the right table is the
      column that the inner join projects from the left one. */
  lemma LeftJoinWithoutNulls(left: seq<Row>, right: seq<Row>)
    ensures AllJoin(left, right, Join.Inner(left, right))
    ensures forall k :: 0 <= k < |Join.LeftOuter(left, right)| && Join.LeftOuter(left, right)[k].right.Some?
                   ==> Join.LeftOuter(left, right)[k].right.value < |right|
    ensures Filtered(OuterProjection(right, Join.LeftOuter(left, right)), IsNotNull)
         == InnerProjection(left, Join.Inner(left, right))
  {
    InnerInBounds(left, right);
    Join.LeftOuterWithoutUnmatched(left, right);
    OuterInBounds(left, right, Join.LeftOuter(left, right));
    ProjectionsAgree(left, right, Join.LeftOuter(left, right));
  }
}
