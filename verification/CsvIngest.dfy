/** Typed CSV ingestion: `parse_data_rows` of `src/batch/csv.rs`. */
module CsvIngest {
  import opened Words
  import opened Cells
  import opened CsvGrammar
  import opened CsvReader
  import opened CsvScanning
  import opened CsvSplitting

  /** `nullable` marks the physical `Nullable(Int64)` columns. */
  datatype Column = Column(dataType: DataType, nullable: bool)

  datatype Limits = Limits(maxRows: usize, maxValues: usize)

  /** `str::replace("\"\"", "\"")`. */
  function Undoubled(s: string): (r: string)
    decreases |s|
  {
    if s == "" then ""
    else if |s| > 1 && s[0] == '"' && s[1] == '"' then QUOTE + Undoubled(s[2..])
    else [s[0]] + Undoubled(s[1..])
  }

  function Decoded(field: Field): (r: string) {
    if field.quoted then Undoubled(field.raw) else field.raw
  }

  /** The cell a field stands for; only the bare token `NULL` is null. */
  function Cell<N>(parse: (string, DataType) -> Option<N>, column: Column, field: Field): (r: Option<Value<N>>) {
    if !field.quoted && field.raw == "NULL" && column.nullable then Some(Null)
    else if column.dataType == String then Some(Text(Decoded(field)))
    else
      match parse(Decoded(field), column.dataType)
      case None => None
      case Some(n) => Some(Scalar(n))
  }

  /** The cells of `fields[i..]`, or the first invalid one. */
  function RowCells<N>(parse: (string, DataType) -> Option<N>, columns: seq<Column>, fields: seq<Field>, i: nat,
      line: nat):
      (r: Result<seq<Value<N>>, CsvError>)
    requires i <= |fields| == |columns|
    ensures r.Ok? ==> |r.value| == |fields| - i
    decreases |fields| - i, fields
  {
    if i == |fields| then Ok([])
    else
      match Cell(parse, columns[i], fields[i])
      case None => Err(InvalidValue(line, i + 1))
      case Some(cell) => CellThen(cell, RowCells(parse, columns, fields, i + 1, line))
  }

  function CellThen<N>(cell: Value<N>, rest: Result<seq<Value<N>>, CsvError>): (r: Result<seq<Value<N>>, CsvError>) {
    match rest
    case Err(error) => Err(error)
    case Ok(cells) => Ok([cell] + cells)
  }

  /** The row of one record, after `rows` rows and `values` values. */
  function RowOf<N>(parse: (string, DataType) -> Option<N>, columns: seq<Column>, limits: Limits,
                    record: string, line: nat, rows: nat, values: nat): (r: Result<seq<Value<N>>, CsvError>)
  {
    if rows + 1 > limits.maxRows then Err(RowLimitExceeded(line, rows + 1, limits.maxRows))
    else
      match ScanFields(record, 0, 1, line)
      case Err(error) => Err(error)
      case Ok(fields) =>
        if values + |fields| > limits.maxValues then
          Err(ValueLimitExceeded(line, values + |fields|, limits.maxValues))
        else if |fields| != |columns| then Err(WrongColumnCount(line, |columns|, |fields|))
        else RowCells(parse, columns, fields, 0, line)
  }

  function RowThen<N>(row: seq<Value<N>>, rest: Result<seq<seq<Value<N>>>, CsvError>)
      : (r: Result<seq<seq<Value<N>>>, CsvError>)
  {
    match rest
    case Err(error) => Err(error)
    case Ok(rows) => Ok([row] + rows)
  }

  /** The row that starts at `offset`, with the cut behind it. */
  function RowAt<N>(parse: (string, DataType) -> Option<N>, columns: seq<Column>, limits: Limits,
                    input: string, offset: nat, line: nat, rows: nat, values: nat)
      : (r: Result<(seq<Value<N>>, Cut), CsvError>)
    requires offset <= |input|
    ensures r.Ok? ==> offset <= r.value.1.end <= r.value.1.next <= |input|
    ensures r.Ok? && offset < |input| ==> offset < r.value.1.next
  {
    match Split(input, offset, line, true, false)
    case Err(error) => Err(error)
    case Ok(cut) =>
      match RowOf(parse, columns, limits, input[offset..cut.end], line, rows, values)
      case Err(error) => Err(error)
      case Ok(row) => Ok((row, cut))
  }

  /** The rows of `input[offset..]`, with records cut, checked and converted one at a time. */
  function Ingest<N>(parse: (string, DataType) -> Option<N>, columns: seq<Column>, limits: Limits,
                     input: string, offset: nat, line: nat, rows: nat, values: nat)
      : (r: Result<seq<seq<Value<N>>>, CsvError>)
    requires offset <= |input|
    decreases |input| - offset, input
  {
    if offset == |input| then Ok([])
    else
      match RowAt(parse, columns, limits, input, offset, line, rows, values)
      case Err(error) => Err(error)
      case Ok((row, cut)) =>
        RowThen(row, Ingest(parse, columns, limits, input, cut.next, cut.line, rows + 1, values + |columns|))
  }

  // ---------- the ingesting loop ----------

  lemma {:induction false} FieldCount(record: string, start: nat, column: nat, line: nat)
    requires start <= |record| && ScanFields(record, start, column, line).Ok?
    ensures |ScanFields(record, start, column, line).value| <= |record| - start + 1
    decreases |record| - start
  {
    var (field, end) := FieldAt(record, start, column, line).value;
    if end < |record| {
      FieldCount(record, end + 1, SaturatingAdd(column, 1), line);
    }
  }

  function CellsAfter<N>(cells: seq<Value<N>>, rest: Result<seq<Value<N>>, CsvError>)
      : (r: Result<seq<Value<N>>, CsvError>)
  {
    match rest
    case Err(error) => Err(error)
    case Ok(more) => Ok(cells + more)
  }

  lemma CellsAfterThen<N>(cells: seq<Value<N>>, cell: Value<N>, rest: Result<seq<Value<N>>, CsvError>)
    ensures CellsAfter(cells, CellThen(cell, rest)) == CellsAfter(cells + [cell], rest)
  {
    if rest.Ok? {
      assert cells + ([cell] + rest.value) == (cells + [cell]) + rest.value;
    }
  }

  lemma CellsAfterNone<N>(rest: Result<seq<Value<N>>, CsvError>)
    ensures CellsAfter([], rest) == rest
  {
    if rest.Ok? {
      assert [] + rest.value == rest.value;
    }
  }

  method ConvertRow<N>(parse: (string, DataType) -> Option<N>, columns: seq<Column>, fields: seq<Field>, line: nat)
      returns (r: Result<seq<Value<N>>, CsvError>)
    requires |fields| == |columns|
    ensures r == RowCells(parse, columns, fields, 0, line)
  {
    var row := [];
    CellsAfterNone(RowCells(parse, columns, fields, 0, line));
    for i := 0 to |fields|
      invariant RowCells(parse, columns, fields, 0, line) == CellsAfter(row, RowCells(parse, columns, fields, i, line))
    {
      var column, field := columns[i], fields[i];
      ghost var rest := RowCells(parse, columns, fields, i + 1, line);
      var cell: Value<N> := Null;
      if !field.quoted && field.raw == "NULL" && column.nullable {
      } else if field.quoted && column.dataType == String {
        cell := Text(Undoubled(field.raw));
      } else if column.dataType == String {
        cell := Text(field.raw);
      } else {
        var n := parse(if field.quoted then Undoubled(field.raw) else field.raw, column.dataType);
        if n.None? {
          return Err(InvalidValue(line, i + 1));
        }
        cell := Scalar(n.value);
      }
      CellsAfterThen(row, cell, rest);
      row := row + [cell];
    }
    assert row + [] == row;
    return Ok(row);
  }

  function RowsAfter<N>(rows: seq<seq<Value<N>>>, rest: Result<seq<seq<Value<N>>>, CsvError>)
      : (r: Result<seq<seq<Value<N>>>, CsvError>)
  {
    match rest
    case Err(error) => Err(error)
    case Ok(more) => Ok(rows + more)
  }

  lemma RowsAfterThen<N>(rows: seq<seq<Value<N>>>, row: seq<Value<N>>, rest: Result<seq<seq<Value<N>>>, CsvError>)
    ensures RowsAfter(rows, RowThen(row, rest)) == RowsAfter(rows + [row], rest)
  {
    if rest.Ok? {
      assert rows + ([row] + rest.value) == (rows + [row]) + rest.value;
    }
  }

  lemma RowsAfterNone<N>(rest: Result<seq<seq<Value<N>>>, CsvError>)
    ensures RowsAfter([], rest) == rest
  {
    if rest.Ok? {
      assert [] + rest.value == rest.value;
    }
  }

  /** One record of the loop: the row limit before the syntax, the syntax before the value
      limit, and both limits before any conversion. */
  method ParseRecord<N>(parse: (string, DataType) -> Option<N>, columns: seq<Column>, limits: Limits,
                        record: string, line: nat, rows: nat, values: nat) returns (r: Result<seq<Value<N>>, CsvError>)
    requires rows + 1 < U64_LIMIT && values + |record| + 1 < U64_LIMIT
    ensures r == RowOf(parse, columns, limits, record, line, rows, values)
    ensures r.Ok? ==> |columns| <= |record| + 1
  {
    var rowCount := SaturatingAdd(rows, 1);
    if rowCount > limits.maxRows {
      return Err(RowLimitExceeded(line, rowCount, limits.maxRows));
    }
    var scanned := ScanRecord(record, line);
    if scanned.Err? {
      return Err(scanned.error);
    }
    var fields := scanned.value;
    FieldCount(record, 0, 1, line);
    var nextValueCount := SaturatingAdd(values, |fields|);
    if nextValueCount > limits.maxValues {
      return Err(ValueLimitExceeded(line, nextValueCount, limits.maxValues));
    }
    if |fields| != |columns| {
      return Err(WrongColumnCount(line, |columns|, |fields|));
    }
    r := ConvertRow(parse, columns, fields, line);
  }

  /** The next record of `records`, converted. */
  method NextRow<N>(parse: (string, DataType) -> Option<N>, columns: seq<Column>, limits: Limits,
                    records: DataRecords, rows: nat, values: nat) returns (r: Result<seq<Value<N>>, CsvError>)
    requires records.Valid() && records.offset < |records.input| <= ISIZE_MAX
    requires rows <= records.offset && values <= records.offset
    modifies records
    ensures records.Valid()
    ensures match RowAt(parse, columns, limits, records.input, old(records.offset), old(records.nextLine), rows, values)
            case Err(error) => r == Err(error)
            case Ok((row, cut)) =>
              && r == Ok(row) && records.offset == cut.next && records.nextLine == cut.line
              && |columns| <= cut.end - old(records.offset) + 1
              && (cut.next < |records.input| ==> cut.end < cut.next)
  {
    var next := records.Next();
    match next.value {
      case Err(error) =>
        return Err(error);
      case Ok((record, line)) =>
        r := ParseRecord(parse, columns, limits, record, line, rows, values);
    }
  }

  method ParseDataRows<N>(parse: (string, DataType) -> Option<N>, columns: seq<Column>, limits: Limits,
                          input: string, firstLine: nat) returns (r: Result<seq<seq<Value<N>>>, CsvError>)
    requires |input| <= ISIZE_MAX
    ensures r == Ingest(parse, columns, limits, input, 0, firstLine, 0, 0)
  {
    hide RowAt;
    var rows: seq<seq<Value<N>>>, valueCount: nat := [], 0;
    var records := new DataRecords(input, firstLine);
    RowsAfterNone(Ingest(parse, columns, limits, input, 0, firstLine, 0, 0));
    while records.offset < |input|
      invariant records.Valid() && records.input == input && fresh(records)
      invariant |rows| <= records.offset
      invariant records.offset < |input| ==> valueCount <= records.offset
      invariant Ingest(parse, columns, limits, input, 0, firstLine, 0, 0)
             == RowsAfter(rows, Ingest(parse, columns, limits, input, records.offset, records.nextLine, |rows|,
                 valueCount))
      decreases |input| - records.offset
    {
      var row := NextRow(parse, columns, limits, records, |rows|, valueCount);
      if row.Err? {
        return Err(row.error);
      }
      valueCount := valueCount + |columns|;
      RowsAfterThen(rows, row.value,
                    Ingest(parse, columns, limits, input, records.offset, records.nextLine, |rows| + 1, valueCount));
      rows := rows + [row.value];
    }
    assert rows + [] == rows;
    return Ok(rows);
  }
}
