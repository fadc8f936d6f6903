/** Bounded predicate scans (`src/scan.rs`). */
module Scan {
  import opened Words

  datatype ComparisonOperator = Eq | Ne | Lt | Le | Gt | Ge {
    predicate Matches(left: i64, right: i64) {
      match this
      case Eq => left == right
      case Ne => left != right
      case Lt => left < right
      case Le => left <= right
      case Gt => left > right
      case Ge => left >= right
    }

    /** The operator that holds exactly where this one does not. */
    function Complement(): (r: ComparisonOperator) {
      match this
      case Eq => Ne
      case Ne => Eq
      case Lt => Ge
      case Ge => Lt
      case Gt => Le
      case Le => Gt
    }
  }

  datatype Predicate =
    | Comparison(operator: ComparisonOperator, literal: i64)
    | IsNull
    | IsNotNull
  {
    /** A comparison with `NULL` is unknown, so `NULL` rows match none. */
    predicate Matches(row: Row) {
      match this
      case Comparison(operator, literal) => row.Some? && operator.Matches(row.value, literal)
      case IsNull => row.None?
      case IsNotNull => row.Some?
    }
  }

  datatype ScanLimits = ScanLimits(maxInputRows: usize, maxResultRows: usize)

  datatype ScanError =
    | InputLimitExceeded(rows: nat, maxRows: nat)
    | ResultLimitExceeded(rows: nat, maxRows: nat)

  // ---------- the matching rows ----------

  /** The matching row indices from `i` on, ascending. */
  function MatchingFrom(values: seq<Row>, p: Predicate, i: nat): (r: seq<nat>)
    requires i <= |values|
    ensures |r| <= |values| - i
    decreases |values| - i, values
  {
    if i == |values| then []
    else if p.Matches(values[i]) then [i] + MatchingFrom(values, p, i + 1)
    else MatchingFrom(values, p, i + 1)
  }

  function Matching(values: seq<Row>, p: Predicate): (r: seq<nat>) {
    MatchingFrom(values, p, 0)
  }

  predicate StrictlyIncreasing(rows: seq<nat>) {
    forall i, j :: 0 <= i < j < |rows| ==> rows[i] < rows[j]
  }

  lemma {:induction false} MatchingFromMeans(values: seq<Row>, p: Predicate, i: nat)
    requires i <= |values|
    ensures StrictlyIncreasing(MatchingFrom(values, p, i))
    ensures forall k: nat :: k in MatchingFrom(values, p, i) <==> i <= k < |values| && p.Matches(values[k])
    decreases |values| - i
  {
    if i < |values| {
      var rest := MatchingFrom(values, p, i + 1);
      MatchingFromMeans(values, p, i + 1);
      forall j | 0 <= j < |rest|
        ensures i < rest[j]
      {
        var k: nat := rest[j];
        assert k in rest;
      }
    }
  }

  /** The matching rows in source order, each once, and only those. */
  lemma MatchingMeans(values: seq<Row>, p: Predicate)
    ensures StrictlyIncreasing(Matching(values, p))
    ensures forall k: nat :: k in Matching(values, p) <==> k < |values| && p.Matches(values[k])
  {
    MatchingFromMeans(values, p, 0);
  }

  /** Every row matches exactly one of an operator, its complement and `IS NULL`; `IS NOT NULL`
      covers the first two. */
  lemma OperatorsPartitionRows(values: seq<Row>, operator: ComparisonOperator, literal: i64, row: nat)
    requires row < |values|
    ensures var yes := row in Matching(values, Comparison(operator, literal));
            var no := row in Matching(values, Comparison(operator.Complement(), literal));
            var unknown := row in Matching(values, IsNull);
      && (yes || no || unknown) && !(yes && no) && !(yes && unknown) && !(no && unknown)
      && (row in Matching(values, IsNotNull) <==> yes || no)
  {
    MatchingMeans(values, Comparison(operator, literal));
    MatchingMeans(values, Comparison(operator.Complement(), literal));
    MatchingMeans(values, IsNull);
    MatchingMeans(values, IsNotNull);
  }

  /** What each predicate selects, in terms of the order of the integers alone. */
  lemma SelectedByOrder(values: seq<Row>, literal: i64, row: nat)
    requires row < |values|
    ensures values[row].None? ==>
      forall operator :: row !in Matching(values, Comparison(operator, literal))
    ensures values[row].Some? ==>
      var v := values[row].value;
      && (row in Matching(values, Comparison(Eq, literal)) <==> v == literal)
      && (row in Matching(values, Comparison(Ne, literal)) <==> v < literal || literal < v)
      && (row in Matching(values, Comparison(Lt, literal)) <==> v < literal)
      && (row in Matching(values, Comparison(Le, literal)) <==> v < literal || v == literal)
      && (row in Matching(values, Comparison(Gt, literal)) <==> literal < v)
      && (row in Matching(values, Comparison(Ge, literal)) <==> literal < v || v == literal)
    ensures row in Matching(values, IsNull) <==> values[row].None?
    ensures row in Matching(values, IsNotNull) <==> values[row].Some?
  {
    MatchingMeans(values, IsNull);
    MatchingMeans(values, IsNotNull);
    forall operator
      ensures row in Matching(values, Comparison(operator, literal))
         <==> Comparison(operator, literal).Matches(values[row])
    {
      MatchingMeans(values, Comparison(operator, literal));
    }
  }

  /** `<` and `<=` select everything below what they select, `>` and `>=` everything above, and
      the literal itself is selected by `=`, `<=` and `>=` alone. */
  lemma SelectionsAreClosed(values: seq<Row>, operator: ComparisonOperator, literal: i64, i: nat, j: nat)
    requires i < |values| && j < |values| && values[i].Some? && values[j].Some?
    requires j in Matching(values, Comparison(operator, literal))
    ensures (operator.Lt? || operator.Le?) && values[i].value <= values[j].value ==>
      i in Matching(values, Comparison(operator, literal))
    ensures (operator.Gt? || operator.Ge?) && values[i].value >= values[j].value ==>
      i in Matching(values, Comparison(operator, literal))
    ensures values[j].value == literal ==> operator.Eq? || operator.Le? || operator.Ge?
  {
    SelectedByOrder(values, literal, i);
    SelectedByOrder(values, literal, j);
  }

  // ---------- the bounded scan ----------

  function ScanOutcome(values: seq<Row>, p: Predicate, limits: ScanLimits): (r: Result<seq<nat>, ScanError>) {
    if |values| > limits.maxInputRows then Err(InputLimitExceeded(|values|, limits.maxInputRows))
    else if |Matching(values, p)| > limits.maxResultRows then
      Err(ResultLimitExceeded(SaturatingAdd(limits.maxResultRows, 1), limits.maxResultRows))
    else Ok(Matching(values, p))
  }

  /** `scan_matching_rows`: it stops at the first match over the bound. */
  method ScanMatchingRows(values: seq<Row>, p: Predicate, limits: ScanLimits) returns (r: Result<seq<nat>, ScanError>)
    ensures r == ScanOutcome(values, p, limits)
  {
    if |values| > limits.maxInputRows {
      return Err(InputLimitExceeded(|values|, limits.maxInputRows));
    }
    var matchingRows: seq<nat> := [];
    for rowIndex := 0 to |values|
      invariant Matching(values, p) == matchingRows + MatchingFrom(values, p, rowIndex)
      invariant |matchingRows| <= limits.maxResultRows
    {
      if p.Matches(values[rowIndex]) {
        if |matchingRows| == limits.maxResultRows {
          return Err(ResultLimitExceeded(SaturatingAdd(|matchingRows|, 1), limits.maxResultRows));
        }
        Associates(matchingRows, [rowIndex], MatchingFrom(values, p, rowIndex + 1));
        matchingRows := matchingRows + [rowIndex];
      }
    }
    assert matchingRows + [] == matchingRows;
    return Ok(matchingRows);
  }
}
