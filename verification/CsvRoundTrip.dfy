/** The CSV writer and the two-stage CSV reader undo each other. */
module CsvRoundTrip {
  import opened Words
  import opened Cells
  import opened CsvGrammar
  import opened CsvReader
  import opened CsvScanning
  import opened CsvSplitting
  import opened CsvIngest
  import opened CsvWriter

  // ---------- ingestion is reading, then limits, then conversion ----------

  predicate CellsMatch<N(==)>(parse: (string, DataType) -> Option<N>, columns: seq<Column>, fields: seq<Field>,
      row: seq<Value<N>>)
  {
    && |fields| == |columns| == |row|
    && forall i :: 0 <= i < |row| ==> Cell(parse, columns[i], fields[i]) == Some(row[i])
  }

  lemma {:induction false} CellsMean<N>(parse: (string, DataType) -> Option<N>, columns: seq<Column>,
      fields: seq<Field>, i: nat, line: nat, row: seq<Value<N>>)
    requires i <= |fields| == |columns| == |row|
    ensures RowCells(parse, columns, fields, i, line) == Ok(row[i..])
       <==> forall k :: i <= k < |row| ==> Cell(parse, columns[k], fields[k]) == Some(row[k])
    decreases |fields| - i
  {
    if i < |fields| {
      CellsMean(parse, columns, fields, i + 1, line, row);
      var cell := Cell(parse, columns[i], fields[i]);
      if cell.Some? {
        CellThenMeans(cell.value, RowCells(parse, columns, fields, i + 1, line), row, i);
      }
    } else {
      assert row[i..] == [];
    }
  }

  lemma CellThenMeans<N>(cell: Value<N>, rest: Result<seq<Value<N>>, CsvError>, row: seq<Value<N>>, i: nat)
    requires i < |row|
    ensures CellThen(cell, rest) == Ok(row[i..]) <==> cell == row[i] && rest == Ok(row[i + 1..])
  {
    assert row[i..] == [row[i]] + row[i + 1..];
    if rest.Ok? {
      assert ([cell] + rest.value)[0] == cell && ([cell] + rest.value)[1..] == rest.value;
      assert row[i..][0] == row[i] && row[i..][1..] == row[i + 1..];
    }
  }

  predicate Converts<N(==)>(parse: (string, DataType) -> Option<N>, columns: seq<Column>,
                            lines: seq<Line<seq<Field>>>, rows: seq<seq<Value<N>>>)
  {
    if lines == [] then rows == []
    else
      && rows != [] && CellsMatch(parse, columns, lines[0].fields, rows[0])
      && Converts(parse, columns, lines[1..], rows[1..])
  }

  /** `n` further rows of `width` values stay within the limits. */
  predicate Within(limits: Limits, rows: nat, values: nat, n: nat, width: nat) {
    n == 0 || (rows + n <= limits.maxRows && values + n * width <= limits.maxValues)
  }

  lemma RowOfMeans<N>(parse: (string, DataType) -> Option<N>, columns: seq<Column>, limits: Limits,
                      record: string, line: nat, rows: nat, values: nat, row: seq<Value<N>>)
    ensures RowOf(parse, columns, limits, record, line, rows, values) == Ok(row)
       <==> (rows + 1 <= limits.maxRows && values + |columns| <= limits.maxValues
             && ScanFields(record, 0, 1, line).Ok?
             && CellsMatch(parse, columns, ScanFields(record, 0, 1, line).value, row))
  {
    if ScanFields(record, 0, 1, line).Ok? {
      var fields := ScanFields(record, 0, 1, line).value;
      if |fields| == |columns| == |row| {
        CellsMean(parse, columns, fields, 0, line, row);
        assert row[0..] == row;
      }
    }
  }

  lemma RowThenMeans<N>(row: seq<Value<N>>, rest: Result<seq<seq<Value<N>>>, CsvError>, rows: seq<seq<Value<N>>>)
    ensures RowThen(row, rest) == Ok(rows) <==> rows != [] && row == rows[0] && rest == Ok(rows[1..])
  {
    if rows != [] {
      assert rows == [rows[0]] + rows[1..];
    }
    if rest.Ok? {
      assert ([row] + rest.value)[0] == row && ([row] + rest.value)[1..] == rest.value;
    }
  }

  lemma IngestFirst<N>(parse: (string, DataType) -> Option<N>, columns: seq<Column>, limits: Limits,
                       input: string, offset: nat, line: nat, r: nat, v: nat, rows: seq<seq<Value<N>>>, cut: Cut)
    requires offset < |input| && Split(input, offset, line, true, false) == Ok(cut)
    ensures Ingest(parse, columns, limits, input, offset, line, r, v) == Ok(rows)
       <==> (rows != []
             && RowOf(parse, columns, limits, input[offset..cut.end], line, r, v) == Ok(rows[0])
             && Ingest(parse, columns, limits, input, cut.next, cut.line, r + 1, v + |columns|) == Ok(rows[1..]))
  {
    var row := RowOf(parse, columns, limits, input[offset..cut.end], line, r, v);
    if row.Ok? {
      var rest := Ingest(parse, columns, limits, input, cut.next, cut.line, r + 1, v + |columns|);
      RowThenMeans(row.value, rest, rows);
      assert Ingest(parse, columns, limits, input, offset, line, r, v) == RowThen(row.value, rest);
    }
  }

  lemma ReadFirst<N>(parse: (string, DataType) -> Option<N>, columns: seq<Column>,
                     input: string, offset: nat, line: nat, rows: seq<seq<Value<N>>>, cut: Cut)
    requires offset < |input| && Split(input, offset, line, true, false) == Ok(cut)
    ensures ReadsTo(parse, columns, input, offset, line, rows)
       <==> (rows != []
             && ScanFields(input[offset..cut.end], 0, 1, line).Ok?
             && CellsMatch(parse, columns, ScanFields(input[offset..cut.end], 0, 1, line).value, rows[0])
             && ReadsTo(parse, columns, input, cut.next, cut.line, rows[1..]))
  {
    if ScanFields(input[offset..cut.end], 0, 1, line).Ok? && ReadLines(input, cut.next, cut.line).Ok? {
      var first := Line(ScanFields(input[offset..cut.end], 0, 1, line).value, EndingAt(cut));
      ConsParts(first, ReadLines(input, cut.next, cut.line).value);
    }
  }

  /** The lines read from `offset` on convert to `rows`. */
  predicate ReadsTo<N(==)>(parse: (string, DataType) -> Option<N>, columns: seq<Column>,
                           input: string, offset: nat, line: nat, rows: seq<seq<Value<N>>>)
    requires offset <= |input|
  {
    var lines := ReadLines(input, offset, line);
    lines.Ok? && Converts(parse, columns, lines.value, rows)
  }

  lemma IngestStep<N>(parse: (string, DataType) -> Option<N>, columns: seq<Column>, limits: Limits,
                      input: string, offset: nat, line: nat, r: nat, v: nat, rows: seq<seq<Value<N>>>, cut: Cut)
    requires offset < |input| && Split(input, offset, line, true, false) == Ok(cut) && rows != []
    requires Ingest(parse, columns, limits, input, cut.next, cut.line, r + 1, v + |columns|) == Ok(rows[1..])
        <==> (ReadsTo(parse, columns, input, cut.next, cut.line, rows[1..])
              && Within(limits, r + 1, v + |columns|, |rows| - 1, |columns|))
    ensures Ingest(parse, columns, limits, input, offset, line, r, v) == Ok(rows)
       <==> ReadsTo(parse, columns, input, offset, line, rows) && Within(limits, r, v, |rows|, |columns|)
  {
    IngestFirst(parse, columns, limits, input, offset, line, r, v, rows, cut);
    ReadFirst(parse, columns, input, offset, line, rows, cut);
    RowOfMeans(parse, columns, limits, input[offset..cut.end], line, r, v, rows[0]);
  }

  lemma IngestNothing<N>(parse: (string, DataType) -> Option<N>, columns: seq<Column>, limits: Limits,
                         input: string, offset: nat, line: nat, r: nat, v: nat, rows: seq<seq<Value<N>>>)
    requires offset <= |input|
    requires rows == [] || offset == |input| || Split(input, offset, line, true, false).Err?
    ensures Ingest(parse, columns, limits, input, offset, line, r, v) == Ok(rows)
       <==> offset == |input| && rows == []
    ensures ReadsTo(parse, columns, input, offset, line, rows) <==> offset == |input| && rows == []
  {
    if offset < |input| && Split(input, offset, line, true, false).Ok? {
      var cut := Split(input, offset, line, true, false).value;
      IngestFirst(parse, columns, limits, input, offset, line, r, v, rows, cut);
      ReadFirst(parse, columns, input, offset, line, rows, cut);
    }
  }

  /** Ingestion yields given rows exactly when the lines of the input convert to them within the limits. */
  lemma {:induction false} IngestIsRead<N>(parse: (string, DataType) -> Option<N>, columns: seq<Column>, limits: Limits,
                                           input: string, offset: nat, line: nat, r: nat, v: nat,
                                           rows: seq<seq<Value<N>>>)
    requires offset <= |input|
    ensures Ingest(parse, columns, limits, input, offset, line, r, v) == Ok(rows)
       <==> ReadsTo(parse, columns, input, offset, line, rows) && Within(limits, r, v, |rows|, |columns|)
    decreases |input| - offset
  {
    if rows == [] || offset == |input| || Split(input, offset, line, true, false).Err? {
      IngestNothing(parse, columns, limits, input, offset, line, r, v, rows);
    } else {
      var cut := Split(input, offset, line, true, false).value;
      IngestIsRead(parse, columns, limits, input, cut.next, cut.line, r + 1, v + |columns|, rows[1..]);
      IngestStep(parse, columns, limits, input, offset, line, r, v, rows, cut);
    }
  }

  // ---------- texts ----------

  lemma {:induction false} DoubledScans(s: string)
    ensures PairedQuotes(Doubled(s)) && Undoubled(Doubled(s)) == s
    decreases |s|
  {
    if s != "" {
      DoubledScans(s[1..]);
      var rest := Doubled(s[1..]);
      if s[0] == '"' {
        assert (QUOTE + QUOTE + rest)[2..] == rest;
      } else {
        assert ([s[0]] + rest)[1..] == rest;
      }
      assert s == [s[0]] + s[1..];
    }
  }

  lemma {:induction false} DoubledReturns(s: string)
    ensures PairedReturns(Doubled(s)) <==> PairedReturns(s)
    decreases |s|
  {
    if s != "" {
      DoubledReturns(s[1..]);
      var rest := Doubled(s[1..]);
      if s[0] == '"' {
        assert (QUOTE + QUOTE + rest)[1..] == QUOTE + rest;
        assert (QUOTE + rest)[1..] == rest;
      } else {
        assert ([s[0]] + rest)[1..] == rest;
        if |s| > 1 {
          assert s[1..][0] == s[1];
        }
      }
    }
  }

  lemma {:induction false} UndoubledReturns(s: string)
    requires PairedReturns(s)
    ensures PairedReturns(Undoubled(s))
    decreases |s|
  {
    if s != "" {
      if |s| > 1 && s[0] == '"' && s[1] == '"' {
        assert s[1..][1..] == s[2..];
        UndoubledReturns(s[2..]);
        assert (QUOTE + Undoubled(s[2..]))[1..] == Undoubled(s[2..]);
      } else {
        UndoubledReturns(s[1..]);
        assert ([s[0]] + Undoubled(s[1..]))[1..] == Undoubled(s[1..]);
      }
    }
  }

  lemma {:induction false} UnbrokenReturns(s: string)
    requires Without(s, "\r\n")
    ensures PairedReturns(s)
  {
    if s != "" {
      UnbrokenReturns(s[1..]);
    }
  }

  lemma WithoutAll(s: string)
    requires !NeedsQuoting(s)
    ensures Without(s, ",\"") && Without(s, "\r\n")
  {
    WithoutMeans(s, ",\"");
    WithoutMeans(s, "\r\n");
  }

  /** The writer's field for a text is of the grammar exactly when every carriage return in the
      text is followed by a line feed, and it always decodes to the text. */
  lemma FieldForText(s: string)
    ensures Scannable(FieldFor(s)) && Decoded(FieldFor(s)) == s
    ensures Unbroken(FieldFor(s)) <==> PairedReturns(s)
  {
    DoubledScans(s);
    DoubledReturns(s);
    if !NeedsQuoting(s) {
      WithoutAll(s);
      UnbrokenReturns(s);
    }
  }

  lemma DecodedReturns(field: Field)
    requires Unbroken(field)
    ensures PairedReturns(Decoded(field))
  {
    if field.quoted {
      UndoubledReturns(field.raw);
    } else {
      UnbrokenReturns(field.raw);
    }
  }

  // ---------- round trips ----------

  /** A cell that the writer's text can carry through a column. */
  predicate Carried<N(==)>(parse: (string, DataType) -> Option<N>, show: N -> string, column: Column, cell: Value<N>) {
    match cell
    case Null => column.nullable
    case Text(text) => column.dataType == String && !column.nullable && PairedReturns(text)
    case Scalar(n) =>
      && column.dataType != String && parse(show(n), column.dataType) == Some(n)
      && PairedReturns(show(n)) && (column.nullable ==> show(n) != "NULL")
  }

  predicate RowCarried<N(==)>(parse: (string, DataType) -> Option<N>, show: N -> string, columns: seq<Column>,
      row: seq<Value<N>>)
  {
    |row| == |columns| && forall i :: 0 <= i < |row| ==> Carried(parse, show, columns[i], row[i])
  }

  predicate RowsCarried<N(==)>(parse: (string, DataType) -> Option<N>, show: N -> string, columns: seq<Column>,
      rows: seq<seq<Value<N>>>)
  {
    rows == [] || (RowCarried(parse, show, columns, rows[0]) && RowsCarried(parse, show, columns, rows[1..]))
  }

  lemma CellCarried<N>(parse: (string, DataType) -> Option<N>, show: N -> string, column: Column, cell: Value<N>)
    requires Carried(parse, show, column, cell)
    ensures var field := CellField(show, cell);
      Scannable(field) && Unbroken(field) && Cell(parse, column, field) == Some(cell)
  {
    match cell
    case Null =>
      WithoutAll("NULL");
    case Text(text) =>
      FieldForText(text);
    case Scalar(n) =>
      FieldForText(show(n));
  }

  lemma {:induction false} AllFields(fields: seq<Field>)
    requires forall i :: 0 <= i < |fields| ==> Scannable(fields[i]) && Unbroken(fields[i])
    ensures AllScannable(fields) && AllUnbroken(fields)
    decreases |fields|
  {
    if fields != [] {
      AllFields(fields[1..]);
    }
  }

  lemma RowIsCarried<N>(parse: (string, DataType) -> Option<N>, show: N -> string, columns: seq<Column>,
      row: seq<Value<N>>)
    requires columns != [] && RowCarried(parse, show, columns, row)
    ensures WellFormedRecord(RowFields(show, row)) && CellsMatch(parse, columns, RowFields(show, row), row)
  {
    var fields := RowFields(show, row);
    forall i | 0 <= i < |row|
      ensures Scannable(fields[i]) && Unbroken(fields[i]) && Cell(parse, columns[i], fields[i]) == Some(row[i])
    {
      CellCarried(parse, show, columns[i], row[i]);
    }
    AllFields(fields);
  }

  lemma {:induction false} RowsAreCarried<N>(parse: (string, DataType) -> Option<N>, show: N -> string,
      columns: seq<Column>, rows: seq<seq<Value<N>>>)
    requires columns != [] && RowsCarried(parse, show, columns, rows)
    ensures WellFormed(RowLines(show, rows)) && Converts(parse, columns, RowLines(show, rows), rows)
    decreases |rows|
  {
    if rows != [] {
      RowIsCarried(parse, show, columns, rows[0]);
      RowsAreCarried(parse, show, columns, rows[1..]);
      ConsParts(Line(RowFields(show, rows[0]), Lf), RowLines(show, rows[1..]));
    }
  }

  /** Reading back what the writer emits yields the rows, wherever the limits admit them. */
  lemma WrittenRowsAreReadBack<N>(parse: (string, DataType) -> Option<N>, show: N -> string, columns: seq<Column>,
      limits: Limits, rows: seq<seq<Value<N>>>, firstLine: nat)
    requires columns != [] && RowsCarried(parse, show, columns, rows)
    requires Within(limits, 0, 0, |rows|, |columns|)
    ensures Ingest(parse, columns, limits, Written(show, rows), 0, firstLine, 0, 0) == Ok(rows)
  {
    RowsAreCarried(parse, show, columns, rows);
    ReadInvertsText(Written(show, rows), RowLines(show, rows), firstLine);
    IngestIsRead(parse, columns, limits, Written(show, rows), 0, firstLine, 0, 0, rows);
  }

  /** Rendering a parsed scalar and parsing it again gives the scalar, and no rendering is
      `NULL` or holds a lone carriage return. */
  ghost predicate Faithful<N(!new)>(parse: (string, DataType) -> Option<N>, show: N -> string) {
    forall text, dataType :: parse(text, dataType).Some? ==>
      var n := parse(text, dataType).value;
      parse(show(n), dataType) == Some(n) && PairedReturns(show(n)) && show(n) != "NULL"
  }

  /** Only `Int64` columns are nullable. */
  predicate Physical(columns: seq<Column>) {
    forall i :: 0 <= i < |columns| ==> columns[i].nullable ==> columns[i].dataType == Int64
  }

  lemma {:induction false} EachUnbroken(fields: seq<Field>, i: nat)
    requires AllUnbroken(fields) && i < |fields|
    ensures Unbroken(fields[i])
    decreases i
  {
    if i > 0 {
      EachUnbroken(fields[1..], i - 1);
    }
  }

  lemma ConvertedRowIsCarried<N(!new)>(parse: (string, DataType) -> Option<N>, show: N -> string, columns: seq<Column>,
                                       fields: seq<Field>, row: seq<Value<N>>)
    requires Faithful(parse, show) && Physical(columns)
    requires AllUnbroken(fields) && CellsMatch(parse, columns, fields, row)
    ensures RowCarried(parse, show, columns, row)
  {
    forall i | 0 <= i < |row|
      ensures Carried(parse, show, columns[i], row[i])
    {
      EachUnbroken(fields, i);
      DecodedReturns(fields[i]);
    }
  }

  lemma {:induction false} ConvertedRowsAreCarried<N(!new)>(parse: (string, DataType) -> Option<N>, show: N -> string,
                                                            columns: seq<Column>, lines: seq<Line<seq<Field>>>,
                                                            rows: seq<seq<Value<N>>>)
    requires Faithful(parse, show) && Physical(columns)
    requires WellFormed(lines) && Converts(parse, columns, lines, rows)
    ensures RowsCarried(parse, show, columns, rows) && (lines != [] ==> columns != [])
    decreases |lines|
  {
    if lines != [] {
      ConvertedRowIsCarried(parse, show, columns, lines[0].fields, rows[0]);
      ConvertedRowsAreCarried(parse, show, columns, lines[1..], rows[1..]);
    }
  }

  /** Parsing, writing and parsing again is parsing: for any input at all that ingestion accepts,
      what the writer emits for its rows is accepted with the same rows. */
  lemma ParseWriteParse<N(!new)>(parse: (string, DataType) -> Option<N>, show: N -> string, columns: seq<Column>,
      limits: Limits, input: string, firstLine: nat, rows: seq<seq<Value<N>>>)
    requires Faithful(parse, show) && Physical(columns)
    requires Ingest(parse, columns, limits, input, 0, firstLine, 0, 0) == Ok(rows)
    ensures Ingest(parse, columns, limits, Written(show, rows), 0, firstLine, 0, 0) == Ok(rows)
  {
    IngestIsRead(parse, columns, limits, input, 0, firstLine, 0, 0, rows);
    var lines := ReadLines(input, 0, firstLine).value;
    ReadInvertsText(input, lines, firstLine);
    ConvertedRowsAreCarried(parse, show, columns, lines, rows);
    if rows != [] {
      WrittenRowsAreReadBack(parse, show, columns, limits, rows, firstLine);
    }
  }

  predicate TextRow<N>(row: seq<Value<N>>, width: nat) {
    |row| == width && forall i :: 0 <= i < |row| ==> row[i].Text?
  }

  predicate TextRows<N>(rows: seq<seq<Value<N>>>, width: nat) {
    rows == [] || (TextRow(rows[0], width) && TextRows(rows[1..], width))
  }

  predicate PairedRow<N>(row: seq<Value<N>>) {
    forall i :: 0 <= i < |row| && row[i].Text? ==> PairedReturns(row[i].text)
  }

  predicate PairedRows<N>(rows: seq<seq<Value<N>>>) {
    rows == [] || (PairedRow(rows[0]) && PairedRows(rows[1..]))
  }

  predicate TextColumns(columns: seq<Column>) {
    forall i :: 0 <= i < |columns| ==> columns[i] == Column(String, false)
  }

  lemma {:induction false} PairedTextIsCarried<N>(parse: (string, DataType) -> Option<N>, show: N -> string,
      columns: seq<Column>, rows: seq<seq<Value<N>>>)
    requires TextColumns(columns) && TextRows(rows, |columns|) && PairedRows(rows)
    ensures RowsCarried(parse, show, columns, rows)
    decreases |rows|
  {
    if rows != [] {
      PairedTextIsCarried(parse, show, columns, rows[1..]);
    }
  }

  lemma {:induction false} ConvertedTextIsPaired<N>(parse: (string, DataType) -> Option<N>, columns: seq<Column>,
                                                    lines: seq<Line<seq<Field>>>, rows: seq<seq<Value<N>>>)
    requires WellFormed(lines) && Converts(parse, columns, lines, rows)
    ensures PairedRows(rows) && (rows != [] ==> columns != [])
    decreases |lines|
  {
    if lines != [] {
      forall i | 0 <= i < |rows[0]| && rows[0][i].Text?
        ensures PairedReturns(rows[0][i].text)
      {
        EachUnbroken(lines[0].fields, i);
        DecodedReturns(lines[0].fields[i]);
      }
      ConvertedTextIsPaired(parse, columns, lines[1..], rows[1..]);
    }
  }

  /** Text rows survive writing and reading exactly when they have at least one column and every
      carriage return in them is followed by a line feed. */
  lemma TextSurvivesExactly<N>(parse: (string, DataType) -> Option<N>, show: N -> string, columns: seq<Column>,
      limits: Limits, rows: seq<seq<Value<N>>>, firstLine: nat)
    requires TextColumns(columns) && TextRows(rows, |columns|) && Within(limits, 0, 0, |rows|, |columns|)
    ensures Ingest(parse, columns, limits, Written(show, rows), 0, firstLine, 0, 0) == Ok(rows)
       <==> rows == [] || (columns != [] && PairedRows(rows))
  {
    if rows != [] {
      if columns != [] && PairedRows(rows) {
        PairedTextIsCarried(parse, show, columns, rows);
        WrittenRowsAreReadBack(parse, show, columns, limits, rows, firstLine);
      }
      var text := Written(show, rows);
      IngestIsRead(parse, columns, limits, text, 0, firstLine, 0, 0, rows);
      if ReadsTo(parse, columns, text, 0, firstLine, rows) {
        var lines := ReadLines(text, 0, firstLine).value;
        ReadInvertsText(text, lines, firstLine);
        ConvertedTextIsPaired(parse, columns, lines, rows);
      }
    }
  }

  /** One row holding a lone carriage return is written and does not come back. */
  lemma LoneReturnIsLost<N>(parse: (string, DataType) -> Option<N>, show: N -> string, limits: Limits, firstLine: nat)
    requires Within(limits, 0, 0, 1, 1)
    ensures var rows: seq<seq<Value<N>>> := [[Text("\r")]];
      Ingest(parse, [Column(String, false)], limits, Written(show, rows), 0, firstLine, 0, 0) != Ok(rows)
  {
    hide Ingest, Written;
    var rows: seq<seq<Value<N>>> := [[Text("\r")]];
    assert !PairedRow(rows[0]) by {
      assert rows[0][0] == Text("\r");
    }
    assert TextRows(rows[1..], 1);
    TextSurvivesExactly(parse, show, [Column(String, false)], limits, rows, firstLine);
  }
}
