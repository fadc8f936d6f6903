/** What single fields, lines and faults of the CSV dialect of `src/batch/csv.rs` mean. */
module CsvLaws {
  import opened Words
  import opened Cells
  import opened CsvGrammar
  import opened CsvReader
  import opened CsvScanning
  import opened CsvIngest
  import opened CsvWriter
  import opened CsvRoundTrip

  // ---------- cells ----------

  /** Only the bare token stands for NULL, and only in a nullable column: a quoted one never does. */
  lemma OnlyBareNullIsNull<N>(parse: (string, DataType) -> Option<N>, column: Column, field: Field)
    ensures Cell(parse, column, field) == Some(Null) <==> field == Field("NULL", false) && column.nullable
  {
  }

  /** A text column takes a bare field as it is and a quoted one with its quotes halved. */
  lemma TextCells<N>(parse: (string, DataType) -> Option<N>, nullable: bool, s: string)
    ensures Cell(parse, Column(String, nullable), Field(Doubled(s), true)) == Some(Text(s))
    ensures s != "NULL" || !nullable ==> Cell(parse, Column(String, nullable), Field(s, false)) == Some(Text(s))
  {
    DoubledScans(s);
  }

  /** Any other column parses the same text, and has no cell where that fails. */
  lemma ScalarCells<N>(parse: (string, DataType) -> Option<N>, column: Column, s: string)
    requires column.dataType != String
    ensures var quoted := Cell(parse, column, Field(Doubled(s), true));
      quoted == if parse(s, column.dataType) == None then None else Some(Scalar(parse(s, column.dataType).value))
    ensures s != "NULL" || !column.nullable ==>
      Cell(parse, column, Field(s, false)) == Cell(parse, column, Field(Doubled(s), true))
  {
    DoubledScans(s);
  }

  /** A text is written bare exactly when it holds no comma, quote or line break. */
  lemma BareWhenPossible(s: string)
    ensures FieldText(FieldFor(s)) == s <==> ',' !in s && '"' !in s && '\n' !in s && '\r' !in s
  {
    if NeedsQuoting(s) {
      DoubledIsLonger(s);
    }
  }

  lemma {:induction false} DoubledIsLonger(s: string)
    ensures |Doubled(s)| >= |s|
    decreases |s|
  {
    if s != "" {
      DoubledIsLonger(s[1..]);
    }
  }

  /** One written row: a text with a comma and a quote, NULL, and a plain text. */
  lemma RowWrittenOut<N>(show: N -> string)
    ensures Written(show, [[Text("a,\"b"), Null, Text("x")]]) == "\"a,\"\"b\"" + "," + ("NULL" + "," + "x") + "\n"
  {
    var row: seq<Value<N>> := [Text("a,\"b"), Null, Text("x")];
    var fields := [Field("a,\"\"b", true), Field("NULL", false), Field("x", false)];
    FieldsWrittenOut(show);
    assert RowFields(show, row) == fields;
    var lines := RowLines(show, [row]);
    assert [row][1..] == [] && lines == [Line(fields, Lf)] && lines[1..] == [];
    assert fields[1..] == [fields[1], fields[2]] && fields[1..][1..] == [fields[2]];
    hide RowFields;
    assert Joined(fields[1..]) == "NULL" + "," + "x";
    assert Joined(fields) == FieldText(fields[0]) + "," + Joined(fields[1..]);
    assert DocumentText(lines) == Joined(fields) + "\n" + "";
    assert Joined(fields) + "\n" + "" == Joined(fields) + "\n";
    assert FieldText(fields[0]) == "\"a,\"\"b\"";
  }

  lemma FieldsWrittenOut<N>(show: N -> string)
    ensures CellField(show, Text("a,\"b")) == Field("a,\"\"b", true)
    ensures CellField(show, Text("x")) == Field("x", false)
  {
    FourDoubled();
    assert "a,\"b"[1] == ',';
  }

  lemma FourDoubled()
    ensures Doubled("a,\"b") == "a,\"\"b"
  {
    assert "a,\"b"[1..] == ",\"b" && ",\"b"[1..] == "\"b" && "\"b"[1..] == "b" && "b"[1..] == "";
    assert Doubled("b") == "b" + "" && Doubled("\"b") == "\"\"" + Doubled("b");
  }

  // ---------- lines and faults ----------

  function LineFeeds(s: string): (r: nat) {
    if s == "" then 0 else (if s[0] == '\n' then 1 else 0) + LineFeeds(s[1..])
  }

  predicate LoneReturn(input: string, at: nat) {
    at < |input| && input[at] == '\r' && (at + 1 == |input| || input[at + 1] != '\n')
  }

  /** The next record's line, or the line of a fault, is `line` and the line feeds passed on the way. */
  ghost predicate Counted(input: string, cursor: nat, line: nat, r: Result<Cut, CsvError>) {
    match r
    case Ok(cut) => cursor <= cut.next <= |input| && cut.line == line + LineFeeds(input[cursor..cut.next])
    case Err(error) =>
      exists at: nat :: cursor <= at && LoneReturn(input, at)
        && error == InvalidLineEnding(line + LineFeeds(input[cursor..at]))
  }

  lemma {:induction false} FeedsOfConcat(a: string, b: string)
    ensures LineFeeds(a + b) == LineFeeds(a) + LineFeeds(b)
    decreases |a|
  {
    if a == "" {
      assert a + b == b;
    } else {
      assert (a + b)[1..] == a[1..] + b;
      FeedsOfConcat(a[1..], b);
    }
  }

  lemma FeedsBetween(input: string, cursor: nat, next: nat, at: nat)
    requires cursor <= next <= at <= |input|
    ensures LineFeeds(input[cursor..at]) == LineFeeds(input[cursor..next]) + LineFeeds(input[next..at])
  {
    assert input[cursor..at] == input[cursor..next] + input[next..at];
    FeedsOfConcat(input[cursor..next], input[next..at]);
  }

  lemma CountedFurther(input: string, cursor: nat, next: nat, line: nat, r: Result<Cut, CsvError>)
    requires cursor <= next <= |input| && Counted(input, next, line + LineFeeds(input[cursor..next]), r)
    ensures Counted(input, cursor, line, r)
  {
    match r
    case Ok(cut) => FeedsBetween(input, cursor, next, cut.next);
    case Err(error) =>
      var at: nat :| next <= at && LoneReturn(input, at)
        && error == InvalidLineEnding(line + LineFeeds(input[cursor..next]) + LineFeeds(input[next..at]));
      FeedsBetween(input, cursor, next, at);
  }

  lemma OneOrTwo(input: string, cursor: nat)
    requires cursor < |input|
    ensures LineFeeds(input[cursor..cursor]) == 0
    ensures LineFeeds(input[cursor..cursor + 1]) == if input[cursor] == '\n' then 1 else 0
    ensures cursor + 1 < |input| ==>
      LineFeeds(input[cursor..cursor + 2])
      == (if input[cursor] == '\n' then 1 else 0) + (if input[cursor + 1] == '\n' then 1 else 0)
  {
    assert input[cursor..cursor + 1][1..] == "";
    if cursor + 1 < |input| {
      assert input[cursor + 1..cursor + 2][1..] == "";
      FeedsBetween(input, cursor, cursor + 1, cursor + 2);
    }
  }

  /** Where the splitter goes on from a place at which it neither stops nor fails. */
  lemma SplitGoesOn(input: string, cursor: nat, line: nat, atFieldStart: bool, inQuotes: bool)
      returns (next: nat, start: bool, quotes: bool)
    requires cursor < |input| && line + 1 < U64_LIMIT
    requires !LoneReturn(input, cursor) && (inQuotes || (input[cursor] != '\n' && input[cursor] != '\r'))
    ensures cursor < next <= |input| && LineFeeds(input[cursor..next]) <= 1
    ensures Split(input, cursor, line, atFieldStart, inQuotes)
      == Split(input, next, line + LineFeeds(input[cursor..next]), start, quotes)
  {
    hide LineFeeds, EndsRecord;
    OneOrTwo(input, cursor);
    var c := input[cursor];
    if c == '\r' {
      next, start, quotes := cursor + 2, atFieldStart, inQuotes;
    } else if c == '\n' {
      next, start, quotes := cursor + 1, atFieldStart, inQuotes;
    } else if c == '"' && inQuotes {
      if cursor + 1 < |input| && input[cursor + 1] == '"' {
        next, start, quotes := cursor + 2, atFieldStart, true;
      } else {
        next, start, quotes := cursor + 1, atFieldStart, false;
      }
    } else if c == '"' && atFieldStart {
      next, start, quotes := cursor + 1, false, true;
    } else if c == ',' && !inQuotes {
      next, start, quotes := cursor + 1, true, false;
    } else {
      next, start, quotes := cursor + 1, atFieldStart && inQuotes, inQuotes;
    }
  }

  /** Where it does stop or fail. */
  lemma SplitStops(input: string, cursor: nat, line: nat, atFieldStart: bool, inQuotes: bool)
    requires cursor <= |input| && line + 1 < U64_LIMIT
    requires cursor < |input| ==>
      LoneReturn(input, cursor) || (!inQuotes && (input[cursor] == '\n' || input[cursor] == '\r'))
    ensures Counted(input, cursor, line, Split(input, cursor, line, atFieldStart, inQuotes))
  {
    hide LineFeeds, EndsRecord;
    if cursor == |input| {
      NoFeeds(input, cursor);
    } else if LoneReturn(input, cursor) {
      LoneReturnIsCounted(input, cursor, line);
    } else {
      OneOrTwo(input, cursor);
    }
  }

  /** The splitter counts every line feed it passes, quoted ones included; a lone carriage return
      is reported on the line it stands in. */
  lemma {:induction false} LinesAreCounted(input: string, cursor: nat, line: nat, atFieldStart: bool, inQuotes: bool)
    requires cursor <= |input| && line + |input| - cursor + 1 < U64_LIMIT
    ensures Counted(input, cursor, line, Split(input, cursor, line, atFieldStart, inQuotes))
    decreases |input| - cursor
  {
    hide LineFeeds, EndsRecord, Split, Counted;
    if cursor == |input| || LoneReturn(input, cursor)
        || (!inQuotes && (input[cursor] == '\n' || input[cursor] == '\r')) {
      SplitStops(input, cursor, line, atFieldStart, inQuotes);
    } else {
      var next, start, quotes := SplitGoesOn(input, cursor, line, atFieldStart, inQuotes);
      var passed := line + LineFeeds(input[cursor..next]);
      LinesAreCounted(input, next, passed, start, quotes);
      CountedFurther(input, cursor, next, line, Split(input, next, passed, start, quotes));
    }
  }

  lemma NoFeeds(input: string, cursor: nat)
    requires cursor <= |input|
    ensures LineFeeds(input[cursor..cursor]) == 0
  {
    assert input[cursor..cursor] == "";
  }

  lemma LoneReturnIsCounted(input: string, cursor: nat, line: nat)
    requires LoneReturn(input, cursor)
    ensures Counted(input, cursor, line, Err(InvalidLineEnding(line)))
  {
    NoFeeds(input, cursor);
    assert line == line + LineFeeds(input[cursor..cursor]);
  }

  // ---------- rows ----------

  /** Either every field from `i` on has a cell, or `r` names the line and the first one that has none. */
  ghost predicate FirstInvalid<N>(parse: (string, DataType) -> Option<N>, columns: seq<Column>, fields: seq<Field>,
      i: nat, line: nat, r: Result<seq<Value<N>>, CsvError>)
    requires i <= |fields| == |columns|
  {
    match r
    case Ok(cells) => forall k :: i <= k < |fields| ==> Cell(parse, columns[k], fields[k]).Some?
    case Err(error) => exists k: nat :: i <= k < |fields| && InvalidAt(parse, columns, fields, i, k, line, error)
  }

  ghost predicate InvalidAt<N>(parse: (string, DataType) -> Option<N>, columns: seq<Column>, fields: seq<Field>,
      i: nat, k: nat, line: nat, error: CsvError)
    requires i <= k < |fields| == |columns|
  {
    && error == InvalidValue(line, k + 1)
    && Cell(parse, columns[k], fields[k]).None?
    && forall m :: i <= m < k ==> Cell(parse, columns[m], fields[m]).Some?
  }

  /** A row that does not convert is reported with its line and the first field that has no cell. */
  lemma {:induction false} FirstInvalidIsNamed<N>(parse: (string, DataType) -> Option<N>, columns: seq<Column>,
      fields: seq<Field>, i: nat, line: nat)
    requires i <= |fields| == |columns|
    ensures FirstInvalid(parse, columns, fields, i, line, RowCells(parse, columns, fields, i, line))
    decreases |fields| - i
  {
    hide Cell;
    if i < |fields| {
      if Cell(parse, columns[i], fields[i]).Some? {
        var rest := RowCells(parse, columns, fields, i + 1, line);
        FirstInvalidIsNamed(parse, columns, fields, i + 1, line);
        if rest.Err? {
          var k: nat :| i + 1 <= k < |fields| && InvalidAt(parse, columns, fields, i + 1, k, line, rest.error);
          assert InvalidAt(parse, columns, fields, i, k, line, rest.error);
        }
      } else {
        assert InvalidAt(parse, columns, fields, i, i, line, InvalidValue(line, i + 1));
      }
    }
  }

  /** The faults of a record in the order in which they are looked for: the row limit before the
      syntax, the syntax before the value limit, and that before the number of columns. */
  lemma FaultsInOrder<N>(parse: (string, DataType) -> Option<N>, columns: seq<Column>, limits: Limits, record: string,
                         line: nat, rows: nat, values: nat)
    ensures var r, scanned := RowOf(parse, columns, limits, record, line, rows, values), ScanFields(record, 0, 1, line);
      if rows >= limits.maxRows then r == Err(RowLimitExceeded(line, rows + 1, limits.maxRows))
      else if scanned.Err? then r == Err(scanned.error)
      else
        var n := |scanned.value|;
        && (values + n > limits.maxValues ==> r == Err(ValueLimitExceeded(line, values + n, limits.maxValues)))
        && (values + n <= limits.maxValues && n != |columns| ==> r == Err(WrongColumnCount(line, |columns|, n)))
  {
  }

  /** A field stands at `start` and ends at a comma or at the end of the record. */
  predicate Begins(record: string, start: nat, field: Field) {
    && Scannable(field) && HoldsAt(record, start, FieldText(field))
    && var end := start + |FieldText(field)|; end == |record| || (end < |record| && record[end] == ',')
  }

  /** The fields, each closed by a comma. */
  function Closed(fields: seq<Field>): (r: string) {
    if fields == [] then "" else FieldText(fields[0]) + COMMA + Closed(fields[1..])
  }

  ghost predicate NoneBegins(record: string, start: nat) {
    forall field :: !Begins(record, start, field)
  }

  lemma FaultyField(record: string, start: nat, column: nat, line: nat)
    requires start <= |record| && FieldAt(record, start, column, line).Err?
    ensures FieldAt(record, start, column, line) == Err(MalformedQuoting(line, column)) && NoneBegins(record, start)
  {
    forall field
      ensures !Begins(record, start, field)
    {
      if Begins(record, start, field) {
        FieldIsTaken(record, start, field, column, line);
      }
    }
  }

  /** A record that does not scan is reported with its line and the number of the first field that
      is none: whole fields precede it, and no field begins there. */
  lemma {:induction false} ScanFaultIsNamed(record: string, start: nat, column: nat, line: nat)
      returns (before: seq<Field>)
    requires start <= |record| && ScanFields(record, start, column, line).Err?
    requires column + |record| - start < U64_LIMIT
    ensures AllScannable(before) && HoldsAt(record, start, Closed(before))
    ensures ScanFields(record, start, column, line) == Err(MalformedQuoting(line, column + |before|))
    ensures NoneBegins(record, start + |Closed(before)|)
    decreases |record| - start
  {
    hide Scannable, FieldText, FieldAt, NoneBegins;
    match FieldAt(record, start, column, line)
    case Err(error) =>
      before := [];
      FaultyField(record, start, column, line);
    case Ok((first, end)) =>
      var rest := ScanFaultIsNamed(record, end + 1, column + 1, line);
      before := [first] + rest;
      ConsParts(first, rest);
      TakenIsField(record, start, column, line, first, end);
      EndsAtComma(record, start, column, line);
      HoldsAtConcat(record, start, FieldText(first) + COMMA, Closed(rest));
      HoldsAtConcat(record, start, FieldText(first), COMMA);
  }

  lemma EndsAtComma(record: string, start: nat, column: nat, line: nat)
    requires start <= |record| && FieldAt(record, start, column, line).Ok?
    ensures var end := FieldAt(record, start, column, line).value.1;
      end <= |record| && (end < |record| ==> record[end] == ',')
  {
  }
}
