/** The CSV writer of `src/batch/format.rs`. */
module CsvWriter {
  import opened Words
  import opened Cells
  import opened CsvGrammar
  import opened CsvIngest

  // ---------- the writer ----------

  /** Every quote twice. */
  function Doubled(s: string): (r: string) {
    if s == "" then "" else (if s[0] == '"' then QUOTE + QUOTE else [s[0]]) + Doubled(s[1..])
  }

  predicate NeedsQuoting(s: string) {
    ',' in s || '"' in s || '\n' in s || '\r' in s
  }

  /** The field that the writer emits for a text. */
  function FieldFor(s: string): (r: Field) {
    if NeedsQuoting(s) then Field(Doubled(s), true) else Field(s, false)
  }

  /** `str::split('"')`. */
  function Segments(s: string): (r: seq<string>)
    ensures r != []
  {
    if s == "" then [""]
    else
      var rest := Segments(s[1..]);
      if s[0] == '"' then [""] + rest else [[s[0]] + rest[0]] + rest[1..]
  }

  /** The pieces, each behind the separator. */
  function Tail(separator: string, pieces: seq<string>): (r: string) {
    if pieces == [] then "" else separator + pieces[0] + Tail(separator, pieces[1..])
  }

  /** What a loop has yet to write before piece `i`, with the separator between each two. */
  function Rest(separator: string, pieces: seq<string>, i: nat): (r: string)
    requires i <= |pieces|
  {
    if pieces == [] then ""
    else if i == 0 then pieces[0] + Tail(separator, pieces[1..])
    else Tail(separator, pieces[i..])
  }

  lemma RestStep(separator: string, pieces: seq<string>, i: nat)
    requires i < |pieces|
    ensures Rest(separator, pieces, i)
         == (if i > 0 then separator + pieces[i] else pieces[i]) + Rest(separator, pieces, i + 1)
  {
    if i > 0 {
      assert pieces[i..][0] == pieces[i] && pieces[i..][1..] == pieces[i + 1..];
    }
  }

  lemma {:induction false} SegmentsAreDoubled(s: string)
    ensures Rest(QUOTE + QUOTE, Segments(s), 0) == Doubled(s)
    decreases |s|
  {
    if s != "" {
      var rest := Segments(s[1..]);
      SegmentsAreDoubled(s[1..]);
      var tail := Tail(QUOTE + QUOTE, rest[1..]);
      if s[0] == '"' {
        assert ([""] + rest)[1..] == rest;
        Associates(QUOTE + QUOTE, rest[0], tail);
        assert "" + Tail(QUOTE + QUOTE, rest) == Tail(QUOTE + QUOTE, rest);
      } else {
        assert ([[s[0]] + rest[0]] + rest[1..])[1..] == rest[1..];
        Associates([s[0]], rest[0], tail);
      }
    } else {
      assert [""][1..] == [];
    }
  }

  /** `write_csv_field`. */
  method WriteCsvField(output: string, value: string) returns (r: string)
    ensures r == output + FieldText(FieldFor(value))
  {
    if !NeedsQuoting(value) {
      return output + value;
    }
    r := output + "\"";
    var segments := Segments(value);
    ghost var all := Rest(QUOTE + QUOTE, segments, 0);
    for index := 0 to |segments|
      invariant r + Rest(QUOTE + QUOTE, segments, index) == output + QUOTE + all
    {
      RestStep(QUOTE + QUOTE, segments, index);
      ghost var rest := Rest(QUOTE + QUOTE, segments, index + 1);
      Associates(r, if index > 0 then QUOTE + QUOTE + segments[index] else segments[index], rest);
      Associates(r, QUOTE + QUOTE, segments[index]);
      if index > 0 {
        r := r + "\"\"";
      }
      r := r + segments[index];
    }
    SegmentsAreDoubled(value);
    Associates(output, QUOTE + Doubled(value), QUOTE);
    Associates(output, QUOTE, Doubled(value));
    r := r + "\"";
  }

  /** The field for a cell, given the text of its scalars. */
  function CellField<N>(show: N -> string, cell: Value<N>): (r: Field) {
    match cell
    case Null => Field("NULL", false)
    case Text(text) => FieldFor(text)
    case Scalar(value) => FieldFor(show(value))
  }

  function RowFields<N>(show: N -> string, row: seq<Value<N>>): (r: seq<Field>)
    ensures |r| == |row|
    ensures forall i :: 0 <= i < |row| ==> r[i] == CellField(show, row[i])
  {
    seq(|row|, i requires 0 <= i < |row| => CellField(show, row[i]))
  }

  function RowLines<N>(show: N -> string, rows: seq<seq<Value<N>>>): (r: seq<Line<seq<Field>>>)
    ensures |r| == |rows|
  {
    if rows == [] then [] else [Line(RowFields(show, rows[0]), Lf)] + RowLines(show, rows[1..])
  }

  /** What the writer emits for a result. */
  function Written<N>(show: N -> string, rows: seq<seq<Value<N>>>): (r: string) {
    DocumentText(RowLines(show, rows))
  }

  function Texts(fields: seq<Field>): (r: seq<string>)
    ensures |r| == |fields|
    ensures forall i :: 0 <= i < |fields| ==> r[i] == FieldText(fields[i])
  {
    seq(|fields|, i requires 0 <= i < |fields| => FieldText(fields[i]))
  }

  lemma {:induction false} TextsAreJoined(fields: seq<Field>)
    ensures Rest(COMMA, Texts(fields), 0) == Joined(fields)
    decreases |fields|
  {
    if fields != [] {
      assert Texts(fields)[1..] == Texts(fields[1..]);
      if |fields| > 1 {
        TextsAreJoined(fields[1..]);
        Associates(COMMA, Texts(fields)[1], Tail(COMMA, Texts(fields)[2..]));
        Associates(Texts(fields)[0], COMMA, Joined(fields[1..]));
        assert Texts(fields[1..])[1..] == Texts(fields)[2..];
      }
    }
  }

  method WriteCell<N>(show: N -> string, output: string, cell: Value<N>) returns (r: string)
    ensures r == output + FieldText(CellField(show, cell))
  {
    match cell {
      case Text(value) =>
        r := WriteCsvField(output, value);
      case Null =>
        r := output + "NULL";
      case Scalar(value) =>
        r := WriteCsvField(output, show(value));
    }
  }

  /** One output row of `write_csv_rows`. */
  method WriteCsvRow<N>(show: N -> string, output: string, row: seq<Value<N>>) returns (r: string)
    ensures r == output + (Joined(RowFields(show, row)) + "\n")
  {
    ghost var texts := Texts(RowFields(show, row));
    ghost var all := Rest(COMMA, texts, 0);
    r := output;
    for index := 0 to |row|
      invariant r + Rest(COMMA, texts, index) == output + all
    {
      RestStep(COMMA, texts, index);
      Associates(r, if index > 0 then COMMA + texts[index] else texts[index], Rest(COMMA, texts, index + 1));
      Associates(r, COMMA, texts[index]);
      if index > 0 {
        r := r + ",";
      }
      r := WriteCell(show, r, row[index]);
    }
    TextsAreJoined(RowFields(show, row));
    Associates(output, all, "\n");
    r := r + "\n";
  }

  /** `write_csv_rows`. */
  method WriteCsvRows<N>(show: N -> string, output: string, rows: seq<seq<Value<N>>>) returns (r: string)
    ensures r == output + Written(show, rows)
  {
    r := output;
    assert rows[0..] == rows;
    for index := 0 to |rows|
      invariant r + Written(show, rows[index..]) == output + Written(show, rows)
    {
      Associates(r, Joined(RowFields(show, rows[index])) + "\n", Written(show, rows[index + 1..]));
      r := WriteCsvRow(show, r, rows[index]);
    }
    assert rows[|rows|..] == [];
    assert r + "" == r;
  }
}
