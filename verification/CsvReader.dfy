/** The two-stage CSV reader of `src/batch/csv.rs`: a splitter that cuts logical records and a
    scanner that cuts a record into fields. */
module CsvReader {
  import opened Words
  import opened CsvGrammar

  datatype CsvError =
    | InvalidLineEnding(line: nat)
    | MalformedQuoting(line: nat, column: nat)
    | RowLimitExceeded(line: nat, rows: nat, maxRows: nat)
    | ValueLimitExceeded(line: nat, values: nat, maxValues: nat)
    | WrongColumnCount(line: nat, expected: nat, actual: nat)
    | InvalidValue(line: nat, column: nat)

  // ---------- the record splitter ----------

  /** Where a record ends, where the next one starts, and the line number there. */
  datatype Cut = Cut(end: nat, next: nat, line: nat)

  /** A cut skips exactly one line ending, or none at the end of the input. */
  predicate EndsRecord(input: string, cut: Cut) {
    && cut.end <= cut.next <= |input|
    && if cut.end == |input| then cut.next == cut.end
       else if input[cut.end] == '\n' then cut.next == cut.end + 1
       else input[cut.end] == '\r' && cut.next == cut.end + 2 && input[cut.end + 1] == '\n'
  }

  /** The splitter from `cursor` on; quotes open only at the start of a field. */
  function Split(input: string, cursor: nat, line: nat, atFieldStart: bool, inQuotes: bool): (r: Result<Cut, CsvError>)
    requires cursor <= |input|
    ensures r.Ok? ==> cursor <= r.value.end <= r.value.next <= |input|
    ensures r.Ok? && cursor < |input| ==> cursor < r.value.next
    ensures r.Ok? ==> EndsRecord(input, r.value)
    decreases |input| - cursor, input
  {
    if cursor == |input| then Ok(Cut(cursor, cursor, line))
    else if input[cursor] == '\r' then
      if cursor + 1 == |input| || input[cursor + 1] != '\n' then Err(InvalidLineEnding(line))
      else if inQuotes then Split(input, cursor + 2, SaturatingAdd(line, 1), atFieldStart, inQuotes)
      else Ok(Cut(cursor, cursor + 2, SaturatingAdd(line, 1)))
    else if input[cursor] == '\n' then
      if inQuotes then Split(input, cursor + 1, SaturatingAdd(line, 1), atFieldStart, inQuotes)
      else Ok(Cut(cursor, cursor + 1, SaturatingAdd(line, 1)))
    else if input[cursor] == '"' && inQuotes then
      if cursor + 1 < |input| && input[cursor + 1] == '"' then Split(input, cursor + 2, line, atFieldStart, true)
      else Split(input, cursor + 1, line, atFieldStart, false)
    else if input[cursor] == '"' && atFieldStart then Split(input, cursor + 1, line, false, true)
    else if input[cursor] == ',' && !inQuotes then Split(input, cursor + 1, line, true, false)
    else Split(input, cursor + 1, line, atFieldStart && inQuotes, inQuotes)
  }

  class DataRecords {
    const input: string
    var offset: nat
    var nextLine: nat

    ghost predicate Valid()
      reads this
    {
      offset <= |input|
    }

    constructor (input: string, firstLine: nat)
      ensures Valid() && this.input == input && offset == 0 && nextLine == firstLine
    {
      this.input := input;
      offset := 0;
      nextLine := firstLine;
    }

    /** The next record and the number of its first line. */
    method Next() returns (r: Option<Result<(string, nat), CsvError>>)
      requires Valid() && |input| <= ISIZE_MAX
      modifies this
      ensures Valid()
      ensures r.None? <==> old(offset) == |input|
      ensures r.None? ==> offset == old(offset) && nextLine == old(nextLine)
      ensures r.Some? ==>
        match Split(input, old(offset), old(nextLine), true, false)
        case Err(error) => r.value == Err(error)
        case Ok(cut) =>
          && r.value == Ok((input[old(offset)..cut.end], old(nextLine)))
          && offset == cut.next && nextLine == cut.line
    {
      if offset == |input| {
        return None;
      }
      var recordStart, recordLine := offset, nextLine;
      var cursor, atFieldStart, inQuotes := recordStart, true, false;
      ghost var cut := Split(input, recordStart, recordLine, true, false);
      while cursor < |input|
        invariant recordStart <= cursor <= |input| && offset == recordStart
        invariant cut == Split(input, cursor, nextLine, atFieldStart, inQuotes)
      {
        if input[cursor] == '\r' {
          if cursor + 1 == |input| || input[cursor + 1] != '\n' {
            return Some(Err(InvalidLineEnding(nextLine)));
          }
          nextLine := SaturatingAdd(nextLine, 1);
          if inQuotes {
            cursor := cursor + 2;
          } else {
            offset := cursor + 2;
            return Some(Ok((input[recordStart..cursor], recordLine)));
          }
        } else if input[cursor] == '\n' {
          nextLine := SaturatingAdd(nextLine, 1);
          if inQuotes {
            cursor := cursor + 1;
          } else {
            offset := cursor + 1;
            return Some(Ok((input[recordStart..cursor], recordLine)));
          }
        } else if input[cursor] == '"' && inQuotes && cursor + 1 < |input| && input[cursor + 1] == '"' {
          cursor := cursor + 2;
        } else if input[cursor] == '"' && inQuotes {
          inQuotes := false;
          cursor := cursor + 1;
        } else if input[cursor] == '"' && atFieldStart {
          inQuotes := true;
          atFieldStart := false;
          cursor := cursor + 1;
        } else if input[cursor] == ',' && !inQuotes {
          atFieldStart := true;
          cursor := cursor + 1;
        } else {
          if !inQuotes {
            atFieldStart := false;
          }
          cursor := cursor + 1;
        }
      }
      offset := |input|;
      return Some(Ok((input[recordStart..|input|], recordLine)));
    }
  }

  // ---------- the field scanner ----------

  /** The first quote from `cursor` on that is not one of a pair. */
  function ClosingQuote(record: string, cursor: nat): (r: Option<nat>)
    ensures r.Some? ==> cursor <= r.value < |record| && record[r.value] == '"'
    decreases |record| - cursor, record
  {
    if cursor >= |record| then None
    else if record[cursor] != '"' then ClosingQuote(record, cursor + 1)
    else if cursor + 1 < |record| && record[cursor + 1] == '"' then ClosingQuote(record, cursor + 2)
    else Some(cursor)
  }

  /** The first comma from `cursor` on, or the end of the record. */
  function FieldEnd(record: string, cursor: nat): (r: nat)
    requires cursor <= |record|
    ensures cursor <= r <= |record| && (r < |record| ==> record[r] == ',')
    decreases |record| - cursor, record
  {
    if cursor == |record| || record[cursor] == ',' then cursor else FieldEnd(record, cursor + 1)
  }

  /** The field at `start` and where it ends: at a comma or at the end of the record. */
  function FieldAt(record: string, start: nat, column: nat, line: nat): (r: Result<(Field, nat), CsvError>)
    requires start <= |record|
    ensures r.Ok? ==> start <= r.value.1 <= |record| && (r.value.1 < |record| ==> record[r.value.1] == ',')
  {
    if start < |record| && record[start] == '"' then
      match ClosingQuote(record, start + 1)
      case None => Err(MalformedQuoting(line, column))
      case Some(close) =>
        if close + 1 < |record| && record[close + 1] != ',' then Err(MalformedQuoting(line, column))
        else Ok((Field(record[start + 1..close], true), close + 1))
    else
      var end := FieldEnd(record, start);
      if '"' in record[start..end] then Err(MalformedQuoting(line, column))
      else Ok((Field(record[start..end], false), end))
  }

  function Prepend(field: Field, rest: Result<seq<Field>, CsvError>): (r: Result<seq<Field>, CsvError>) {
    match rest
    case Err(error) => Err(error)
    case Ok(fields) => Ok([field] + fields)
  }

  /** The fields of `record[start..]`, the first of them in column `column`. */
  function ScanFields(record: string, start: nat, column: nat, line: nat): (r: Result<seq<Field>, CsvError>)
    requires start <= |record|
    decreases |record| - start, record
  {
    match FieldAt(record, start, column, line)
    case Err(error) => Err(error)
    case Ok((field, end)) =>
      if end == |record| then Ok([field])
      else Prepend(field, ScanFields(record, end + 1, SaturatingAdd(column, 1), line))
  }

  function Prefixed(fields: seq<Field>, rest: Result<seq<Field>, CsvError>): (r: Result<seq<Field>, CsvError>) {
    match rest
    case Err(error) => Err(error)
    case Ok(more) => Ok(fields + more)
  }

  lemma PrefixedStep(fields: seq<Field>, field: Field, rest: Result<seq<Field>, CsvError>)
    ensures Prefixed(fields, Prepend(field, rest)) == Prefixed(fields + [field], rest)
  {
    if rest.Ok? {
      assert fields + ([field] + rest.value) == (fields + [field]) + rest.value;
    }
  }

  lemma PrefixedNone(rest: Result<seq<Field>, CsvError>)
    ensures Prefixed([], rest) == rest
  {
    if rest.Ok? {
      assert [] + rest.value == rest.value;
    }
  }

  /** The closing quote, or the end of the record when there is none. */
  method FindClosingQuote(record: string, start: nat) returns (cursor: nat)
    requires start <= |record|
    ensures ClosingQuote(record, start) == if cursor < |record| then Some(cursor) else None
  {
    cursor := start;
    while cursor < |record| && !(record[cursor] == '"' && (cursor + 1 == |record| || record[cursor + 1] != '"'))
      invariant ClosingQuote(record, cursor) == ClosingQuote(record, start)
    {
      cursor := cursor + if record[cursor] == '"' then 2 else 1;
    }
  }

  method FindComma(record: string, start: nat) returns (cursor: nat)
    requires start <= |record|
    ensures cursor == FieldEnd(record, start)
  {
    cursor := start;
    while cursor < |record| && record[cursor] != ','
      invariant start <= cursor <= |record|
      invariant FieldEnd(record, cursor) == FieldEnd(record, start)
    {
      cursor := cursor + 1;
    }
  }

  method ScanField(record: string, fieldStart: nat, column: nat, line: nat) returns (r: Result<(Field, nat), CsvError>)
    requires fieldStart <= |record|
    ensures r == FieldAt(record, fieldStart, column, line)
  {
    if fieldStart < |record| && record[fieldStart] == '"' {
      var contentsStart := fieldStart + 1;
      var cursor := FindClosingQuote(record, contentsStart);
      if cursor >= |record| {
        return Err(MalformedQuoting(line, column));
      }
      var delimiter := cursor + 1;
      if delimiter < |record| && record[delimiter] != ',' {
        return Err(MalformedQuoting(line, column));
      }
      return Ok((Field(record[contentsStart..cursor], true), delimiter));
    } else {
      var fieldEnd := FindComma(record, fieldStart);
      var field := record[fieldStart..fieldEnd];
      if '"' in field {
        return Err(MalformedQuoting(line, column));
      }
      return Ok((Field(field, false), fieldEnd));
    }
  }

  /** `scan_record`, with the visited fields collected in order. */
  method ScanRecord(record: string, line: nat) returns (r: Result<seq<Field>, CsvError>)
    ensures r == ScanFields(record, 0, 1, line)
  {
    var fields, fieldStart, column := [], 0, 0;
    PrefixedNone(ScanFields(record, 0, 1, line));
    while true
      invariant fieldStart <= |record|
      invariant ScanFields(record, 0, 1, line)
             == Prefixed(fields, ScanFields(record, fieldStart, SaturatingAdd(column, 1), line))
      decreases |record| - fieldStart
    {
      column := SaturatingAdd(column, 1);
      var scanned := ScanField(record, fieldStart, column, line);
      match scanned {
        case Err(error) =>
          return Err(error);
        case Ok((field, end)) =>
          if end == |record| {
            return Ok(fields + [field]);
          }
          PrefixedStep(fields, field, ScanFields(record, end + 1, SaturatingAdd(column, 1), line));
          fields := fields + [field];
          fieldStart := end + 1;
      }
    }
  }

  // ---------- the lines of a text ----------

  function EndingAt(cut: Cut): (r: Ending) {
    if cut.next == cut.end then EndOfInput else if cut.next == cut.end + 1 then Lf else CrLf
  }

  /** One line through both stages, with its cut. */
  function ReadLine(input: string, offset: nat, line: nat): (r: Result<(Line<seq<Field>>, Cut), CsvError>)
    requires offset <= |input|
    ensures r.Ok? ==> EndsRecord(input, r.value.1) && offset <= r.value.1.end
    ensures r.Ok? && offset < |input| ==> offset < r.value.1.next
  {
    match Split(input, offset, line, true, false)
    case Err(error) => Err(error)
    case Ok(cut) =>
      match ScanFields(input[offset..cut.end], 0, 1, line)
      case Err(error) => Err(error)
      case Ok(fields) => Ok((Line(fields, EndingAt(cut)), cut))
  }

  /** The lines of `input[offset..]`. */
  function ReadLines(input: string, offset: nat, line: nat): (r: Result<seq<Line<seq<Field>>>, CsvError>)
    requires offset <= |input|
    decreases |input| - offset, input
  {
    if offset == |input| then Ok([])
    else
      match ReadLine(input, offset, line)
      case Err(error) => Err(error)
      case Ok((first, cut)) => LineThen(first, ReadLines(input, cut.next, cut.line))
  }

  function LineThen(line: Line<seq<Field>>, rest: Result<seq<Line<seq<Field>>>, CsvError>)
      : (r: Result<seq<Line<seq<Field>>>, CsvError>)
  {
    match rest
    case Err(error) => Err(error)
    case Ok(lines) => Ok([line] + lines)
  }
}
