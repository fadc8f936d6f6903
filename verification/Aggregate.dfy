/** `COUNT` and `SUM` over an optional row selection (`src/aggregate.rs`). */
module Aggregate {
  import opened Words
  import opened Scan
  import opened GlobalSumAvg

  datatype RowSelection = All | Indices(rows: seq<nat>)

  datatype AggregateLimits = AggregateLimits(maxInputRows: usize, maxSelectedRows: usize)

  datatype AggregateError =
    | InputLimitExceeded(rows: nat, maxRows: nat)
    | SelectionLimitExceeded(rows: nat, maxRows: nat)
    | SelectionIndexOutOfBounds(selectionPosition: nat, rowIndex: nat, inputRows: nat)
    | SelectionNotStrictlyIncreasing(selectionPosition: nat, previousRowIndex: nat, rowIndex: nat)
    | SumOverflow(sum: int)

  datatype Aggregates = Aggregates(countStar: nat, countColumn: nat, sum: Row)

  // ---------- selections ----------

  /** The first fault of a selection from the position `i` on. */
  function SelectionFault(indices: seq<nat>, inputRows: nat, i: nat): (r: Option<AggregateError>)
    requires i <= |indices|
    decreases |indices| - i, indices
  {
    if i == |indices| then None
    else if indices[i] >= inputRows then Some(SelectionIndexOutOfBounds(i, indices[i], inputRows))
    else if i > 0 && indices[i] <= indices[i - 1] then
      Some(SelectionNotStrictlyIncreasing(i, indices[i - 1], indices[i]))
    else SelectionFault(indices, inputRows, i + 1)
  }

  /** `validate_selection`. */
  method ValidateSelection(indices: seq<nat>, inputRows: nat) returns (r: Option<AggregateError>)
    ensures r == SelectionFault(indices, inputRows, 0)
  {
    var previous: Option<nat> := None;
    for selectionPosition := 0 to |indices|
      invariant SelectionFault(indices, inputRows, 0) == SelectionFault(indices, inputRows, selectionPosition)
      invariant previous == if selectionPosition == 0 then None else Some(indices[selectionPosition - 1])
    {
      var rowIndex := indices[selectionPosition];
      if rowIndex >= inputRows {
        return Some(SelectionIndexOutOfBounds(selectionPosition, rowIndex, inputRows));
      }
      if previous.Some? && rowIndex <= previous.value {
        return Some(SelectionNotStrictlyIncreasing(selectionPosition, previous.value, rowIndex));
      }
      previous := Some(rowIndex);
    }
    return None;
  }

  predicate StepsUp(indices: seq<nat>, i: nat)
    requires i <= |indices|
  {
    forall k :: i <= k < |indices| && 0 < k ==> indices[k - 1] < indices[k]
  }

  lemma {:induction false} SelectionFaultMeans(indices: seq<nat>, inputRows: nat, i: nat)
    requires i <= |indices|
    ensures SelectionFault(indices, inputRows, i).None?
       <==> StepsUp(indices, i) && forall k :: i <= k < |indices| ==> indices[k] < inputRows
    decreases |indices| - i
  {
    if i < |indices| {
      SelectionFaultMeans(indices, inputRows, i + 1);
    }
  }

  lemma {:induction false} StepsReach(indices: seq<nat>, a: nat, b: nat)
    requires StepsUp(indices, 0) && a < b < |indices|
    ensures indices[a] < indices[b]
    decreases b
  {
    if a < b - 1 {
      StepsReach(indices, a, b - 1);
    }
  }

  /** Validation accepts exactly the strictly increasing selections of existing rows. */
  lemma ValidSelections(indices: seq<nat>, inputRows: nat)
    ensures SelectionFault(indices, inputRows, 0).None?
       <==> StrictlyIncreasing(indices) && forall k :: 0 <= k < |indices| ==> indices[k] < inputRows
  {
    SelectionFaultMeans(indices, inputRows, 0);
    if StepsUp(indices, 0) {
      forall a, b | 0 <= a < b < |indices|
        ensures indices[a] < indices[b]
      {
        StepsReach(indices, a, b);
      }
    }
  }

  /** The fault reported is the first: every earlier position is in bounds and above the one before
      it, and what is reported is what stands there. */
  lemma {:induction false} FirstFault(indices: seq<nat>, inputRows: nat, i: nat, k: nat)
    requires i <= |indices|
    ensures var fault := SelectionFault(indices, inputRows, i);
      fault.Some? ==>
        && (fault.value.SelectionIndexOutOfBounds? || fault.value.SelectionNotStrictlyIncreasing?)
        && var at := fault.value.selectionPosition;
        && i <= at < |indices|
        && (i <= k < at ==> indices[k] < inputRows && (k > 0 ==> indices[k - 1] < indices[k]))
        && (indices[at] >= inputRows ==> fault.value == SelectionIndexOutOfBounds(at, indices[at], inputRows))
        && (indices[at] < inputRows ==>
              at > 0 && indices[at] <= indices[at - 1]
              && fault.value == SelectionNotStrictlyIncreasing(at, indices[at - 1], indices[at]))
    decreases |indices| - i
  {
    if i < |indices| {
      FirstFault(indices, inputRows, i + 1, k);
    }
  }

  // ---------- input validation ----------

  function SelectedRows(inputRows: nat, selection: RowSelection): (r: seq<nat>)
    ensures |r| == if selection.All? then inputRows else |selection.rows|
  {
    if selection.All? then seq(inputRows, i => i) else selection.rows
  }

  function InputFault(inputRows: nat, selection: RowSelection, limits: AggregateLimits): (r: Option<AggregateError>) {
    var selected := |SelectedRows(inputRows, selection)|;
    if inputRows > limits.maxInputRows then Some(AggregateError.InputLimitExceeded(inputRows, limits.maxInputRows))
    else if selected > limits.maxSelectedRows then Some(SelectionLimitExceeded(selected, limits.maxSelectedRows))
    else if selection.Indices? then SelectionFault(selection.rows, inputRows, 0)
    else None
  }

  /** `validate_aggregate_input`. */
  method ValidateAggregateInput(inputRows: nat, selection: RowSelection, limits: AggregateLimits)
      returns (r: Option<AggregateError>)
    ensures r == InputFault(inputRows, selection, limits)
  {
    if inputRows > limits.maxInputRows {
      return Some(AggregateError.InputLimitExceeded(inputRows, limits.maxInputRows));
    }
    var selectedRows := if selection.All? then inputRows else |selection.rows|;
    if selectedRows > limits.maxSelectedRows {
      return Some(SelectionLimitExceeded(selectedRows, limits.maxSelectedRows));
    }
    if selection.Indices? {
      r := ValidateSelection(selection.rows, inputRows);
    } else {
      r := None;
    }
  }

  // ---------- aggregation ----------

  /** The column as a function of the row; a validated selection never leaves it. */
  function Column(values: seq<Row>): (r: nat -> Row) {
    (i: nat) => if i < |values| then values[i] else None
  }

  predicate FitsI64(sum: int) {
    -(I64_LIMIT as int) <= sum < I64_LIMIT
  }

  /** The aggregates of the selected rows, from their exact sum and present count. */
  function AggregateOutcome(values: seq<Row>, rows: seq<nat>): (r: Result<Aggregates, AggregateError>) {
    var sum, count := ExactSum(Column(values), rows), PresentCount(Column(values), rows);
    if count == 0 then Ok(Aggregates(|rows|, 0, None))
    else if FitsI64(sum) then Ok(Aggregates(|rows|, count, Some(sum)))
    else Err(SumOverflow(sum))
  }

  /** `aggregate_values`; neither the `i128` sum nor the `u64` count can overflow on the way. */
  method AggregateValues(values: seq<Row>, rows: seq<nat>) returns (r: Result<Aggregates, AggregateError>)
    requires |rows| <= ISIZE_MAX && forall k :: 0 <= k < |rows| ==> rows[k] < |values|
    ensures r == AggregateOutcome(values, rows)
  {
    var countColumn: u64, sum: int := 0, 0;
    for k := 0 to |rows|
      invariant countColumn == PresentCount(Column(values), rows[..k]) <= k
      invariant sum == ExactSum(Column(values), rows[..k]) && FitsI128(sum)
    {
      assert rows[..k + 1][..k] == rows[..k];
      ExactIsBounded(Column(values), rows[..k + 1]);
      var value := values[rows[k]];
      if value.Some? {
        countColumn := countColumn + 1;
        sum := sum + value.value;
      }
    }
    assert rows[..|rows|] == rows;
    if countColumn == 0 {
      return Ok(Aggregates(|rows|, 0, None));
    }
    if !FitsI64(sum) {
      return Err(SumOverflow(sum));
    }
    return Ok(Aggregates(|rows|, countColumn, Some(sum)));
  }

  /** `aggregate_nullable_i64`. */
  method AggregateNullableI64(values: seq<Row>, selection: RowSelection, limits: AggregateLimits)
      returns (r: Result<Aggregates, AggregateError>)
    requires |values| <= ISIZE_MAX && (selection.Indices? ==> |selection.rows| <= ISIZE_MAX)
    ensures match InputFault(|values|, selection, limits)
            case Some(fault) => r == Err(fault)
            case None => r == AggregateOutcome(values, SelectedRows(|values|, selection))
  {
    var fault := ValidateAggregateInput(|values|, selection, limits);
    if fault.Some? {
      return Err(fault.value);
    }
    if selection.Indices? {
      ValidSelections(selection.rows, |values|);
    }
    r := AggregateValues(values, SelectedRows(|values|, selection));
  }

  /** How many of the selected rows are present. */
  method CountPresent(values: seq<Row>, rows: seq<nat>) returns (countColumn: nat)
    requires forall k :: 0 <= k < |rows| ==> rows[k] < |values|
    ensures countColumn == PresentCount(Column(values), rows)
  {
    countColumn := 0;
    for k := 0 to |rows|
      invariant countColumn == PresentCount(Column(values), rows[..k])
    {
      assert rows[..k + 1][..k] == rows[..k];
      if values[rows[k]].Some? {
        countColumn := countColumn + 1;
      }
    }
    assert rows[..|rows|] == rows;
  }

  /** `count_nullable_i64`: the counts alone, which no sum can make fail. */
  method CountNullableI64(values: seq<Row>, selection: RowSelection, limits: AggregateLimits)
      returns (r: Result<(nat, nat), AggregateError>)
    ensures match InputFault(|values|, selection, limits)
            case Some(fault) => r == Err(fault)
            case None =>
              var rows := SelectedRows(|values|, selection);
              r == Ok((|rows|, PresentCount(Column(values), rows)))
  {
    var fault := ValidateAggregateInput(|values|, selection, limits);
    if fault.Some? {
      return Err(fault.value);
    }
    if selection.Indices? {
      ValidSelections(selection.rows, |values|);
    }
    var rows := SelectedRows(|values|, selection);
    var countColumn := CountPresent(values, rows);
    return Ok((|rows|, countColumn));
  }
}
