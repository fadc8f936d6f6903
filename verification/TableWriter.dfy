/** The sizing pass and the streaming pass of the table writer of `src/batch/format.rs`. */
module TableWriter {
  import opened Words
  import opened Escaping
  import opened TableText

  // ---------- column widths ----------

  function Max(a: nat, b: nat): (r: nat) {
    if a >= b then a else b
  }

  /** Every row has a cell for each column. */
  predicate Wide(names: seq<string>, rows: seq<seq<string>>) {
    forall i :: 0 <= i < |rows| ==> |rows[i]| >= |names|
  }

  /** The widest of a column's name and its cells. */
  function ColumnWidth(names: seq<string>, rows: seq<seq<string>>, column: nat): (r: nat)
    requires column < |names| && Wide(names, rows)
    decreases |rows|, names
  {
    if rows == [] then |Shown(names[column])|
    else Max(ColumnWidth(names, rows[..|rows| - 1], column), |Shown(rows[|rows| - 1][column])|)
  }

  function Widths(names: seq<string>, rows: seq<seq<string>>): (r: seq<nat>)
    requires Wide(names, rows)
  {
    seq(|names|, c requires 0 <= c < |names| => ColumnWidth(names, rows, c))
  }

  lemma {:induction false} ColumnWidthCovers(names: seq<string>, rows: seq<seq<string>>, column: nat)
    requires column < |names| && Wide(names, rows)
    ensures |Shown(names[column])| <= ColumnWidth(names, rows, column)
    ensures forall i :: 0 <= i < |rows| ==> |Shown(rows[i][column])| <= ColumnWidth(names, rows, column)
    decreases |rows|
  {
    if rows != [] {
      var before := rows[..|rows| - 1];
      ColumnWidthCovers(names, before, column);
      forall i | 0 <= i < |rows|
        ensures |Shown(rows[i][column])| <= ColumnWidth(names, rows, column)
      {
        if i < |rows| - 1 {
          assert before[i] == rows[i];
        }
      }
    }
  }

  lemma {:induction false} EachFits(rows: seq<seq<string>>, widths: seq<nat>)
    requires forall i :: 0 <= i < |rows| ==> Fits(rows[i], widths)
    ensures AllFit(rows, widths)
    decreases |rows|
  {
    if rows != [] {
      EachFits(rows[1..], widths);
    }
  }

  lemma WidthsFit(names: seq<string>, rows: seq<seq<string>>)
    requires Wide(names, rows)
    ensures Fits(names, Widths(names, rows)) && AllFit(rows, Widths(names, rows))
  {
    var widths := Widths(names, rows);
    forall c | 0 <= c < |names|
      ensures |Shown(names[c])| <= widths[c] && forall i :: 0 <= i < |rows| ==> |Shown(rows[i][c])| <= widths[c]
    {
      ColumnWidthCovers(names, rows, c);
    }
    EachFits(rows, widths);
  }

  // ---------- byte counts ----------

  function BorderBytes(widths: seq<nat>): (r: nat) {
    LineWidth(widths, 0)
  }

  function CellBytes(cell: string, width: nat): (r: nat)
    requires |Shown(cell)| <= width
  {
    1 + Utf8Bytes(Shown(cell)) + (width - |Shown(cell)| + 1) + 1
  }

  function CellsBytes(cells: seq<string>, widths: seq<nat>, i: nat): (r: nat)
    requires i <= |widths| && Fits(cells, widths)
    decreases |widths| - i, widths
  {
    if i == |widths| then 0 else CellBytes(cells[i], widths[i]) + CellsBytes(cells, widths, i + 1)
  }

  function RowBytes(cells: seq<string>, widths: seq<nat>): (r: nat)
    requires Fits(cells, widths)
  {
    1 + CellsBytes(cells, widths, 0) + 1
  }

  function RowsBytes(rows: seq<seq<string>>, widths: seq<nat>): (r: nat)
    requires AllFit(rows, widths)
  {
    if rows == [] then 0 else RowBytes(rows[0], widths) + RowsBytes(rows[1..], widths)
  }

  function TableBytes(names: seq<string>, rows: seq<seq<string>>, widths: seq<nat>): (r: nat)
    requires Fits(names, widths) && AllFit(rows, widths)
  {
    BorderBytes(widths) + 1 + RowBytes(names, widths) + BorderBytes(widths) + 1 + RowsBytes(rows, widths)
        + BorderBytes(widths)
  }

  lemma RepeatBytes(c: char, n: nat)
    requires (c as int) < 0x80
    ensures Utf8Bytes(Repeat(c, n)) == n
  {
    RepeatAscii(Repeat(c, n));
    AsciiBytes(Repeat(c, n));
  }

  lemma {:induction false} BorderFromBytes(widths: seq<nat>, i: nat)
    requires i <= |widths|
    ensures Utf8Bytes(BorderFrom(widths, i)) + 1 == LineWidth(widths, i)
    decreases |widths| - i
  {
    if i < |widths| {
      var dashes := Repeat('-', widths[i] + 2);
      BorderFromBytes(widths, i + 1);
      RepeatBytes('-', widths[i] + 2);
      Utf8Concat(dashes, "+");
      Utf8Concat(dashes + "+", BorderFrom(widths, i + 1));
    }
  }

  lemma BorderLineBytes(widths: seq<nat>)
    ensures Utf8Bytes(BorderLine(widths)) == BorderBytes(widths)
  {
    BorderFromBytes(widths, 0);
    Utf8Concat("+", BorderFrom(widths, 0));
  }

  lemma CellStringBytes(cell: string, width: nat)
    requires |Shown(cell)| <= width
    ensures Utf8Bytes(CellString(cell, width)) == CellBytes(cell, width)
  {
    var padding := Repeat(' ', width - |Shown(cell)| + 1);
    RepeatBytes(' ', width - |Shown(cell)| + 1);
    Utf8Concat(" ", Shown(cell));
    Utf8Concat(" " + Shown(cell), padding);
    Utf8Concat(" " + Shown(cell) + padding, "|");
  }

  lemma {:induction false} CellsFromBytes(cells: seq<string>, widths: seq<nat>, i: nat)
    requires i <= |widths| && Fits(cells, widths)
    ensures Utf8Bytes(CellsFrom(cells, widths, i)) == CellsBytes(cells, widths, i)
    decreases |widths| - i
  {
    if i < |widths| {
      CellsFromBytes(cells, widths, i + 1);
      CellStringBytes(cells[i], widths[i]);
      Utf8Concat(CellString(cells[i], widths[i]), CellsFrom(cells, widths, i + 1));
    }
  }

  lemma RowLineBytes(cells: seq<string>, widths: seq<nat>)
    requires Fits(cells, widths)
    ensures Utf8Bytes(RowLine(cells, widths) + "\n") == RowBytes(cells, widths)
  {
    CellsFromBytes(cells, widths, 0);
    Utf8Concat("|", CellsFrom(cells, widths, 0));
    Utf8Concat(RowLine(cells, widths), "\n");
  }

  lemma {:induction false} RowsStringBytes(rows: seq<seq<string>>, widths: seq<nat>)
    requires AllFit(rows, widths)
    ensures Utf8Bytes(RowsString(rows, widths)) == RowsBytes(rows, widths)
    decreases |rows|
  {
    if rows != [] {
      RowsStringBytes(rows[1..], widths);
      RowLineBytes(rows[0], widths);
      Utf8Concat(RowLine(rows[0], widths) + "\n", RowsString(rows[1..], widths));
    }
  }

  /** The byte counts add up to the bytes of the text. */
  lemma TableStringBytes(names: seq<string>, rows: seq<seq<string>>, widths: seq<nat>)
    requires Fits(names, widths) && AllFit(rows, widths)
    ensures Utf8Bytes(TableString(names, rows, widths)) == TableBytes(names, rows, widths)
  {
    var border, header, body := BorderLine(widths), RowLine(names, widths), RowsString(rows, widths);
    BorderLineBytes(widths);
    RowLineBytes(names, widths);
    RowsStringBytes(rows, widths);
    Utf8Concat(border, "\n");
    Utf8Concat(border + "\n", header + "\n");
    Utf8Concat(border + "\n" + (header + "\n"), border + "\n");
    Utf8Concat(border + "\n" + (header + "\n") + (border + "\n"), body);
    Utf8Concat(border + "\n" + (header + "\n") + (border + "\n") + body, border);
  }

  // ---------- the sizing pass ----------

  /** The fold step of `table_row_bytes`. */
  function AddCell(bytes: usize, cell: string, width: usize): (r: Option<usize>)
    ensures |Shown(cell)| <= width ==> r == Exact(bytes + CellBytes(cell, width))
  {
    match TextMetrics(cell)
    case None => None
    case Some(metrics) =>
      if width < metrics.characters then None
      else Plus(Plus(Plus(CheckedAdd(bytes, 1), Some(metrics.bytes)), CheckedAdd(width - metrics.characters, 1)),
          Some(1))
  }

  /** `table_row_bytes` from the cell `i` on, after `bytes` counted bytes. */
  function RowFold(cells: seq<string>, widths: seq<usize>, i: nat, bytes: usize): (r: Option<usize>)
    requires i <= |widths| && |cells| >= |widths|
    ensures Fits(cells, widths) ==> r == Exact(bytes + CellsBytes(cells, widths, i))
    decreases |widths| - i, widths
  {
    if i == |widths| then Some(bytes)
    else
      match AddCell(bytes, cells[i], widths[i])
      case None => None
      case Some(next) => RowFold(cells, widths, i + 1, next)
  }

  function TableRowBytes(cells: seq<string>, widths: seq<usize>): (r: Option<usize>)
    requires |cells| >= |widths|
    ensures Fits(cells, widths) ==> r == Exact(RowBytes(cells, widths))
  {
    var sum := RowFold(cells, widths, 0, 1);
    if sum.None? then None else CheckedAdd(sum.value, 1)
  }

  /** The border fold of `table_rendered_bytes`. */
  function BorderFold(widths: seq<usize>, i: nat, bytes: usize): (r: Option<usize>)
    requires i <= |widths|
    ensures r == Exact(bytes + LineWidth(widths, i) - 1)
    decreases |widths| - i, widths
  {
    if i == |widths| then Some(bytes)
    else
      var next := Plus(Some(bytes), CheckedAdd(widths[i], 3));
      if next.None? then None else BorderFold(widths, i + 1, next.value)
  }

  lemma {:induction false} CellIsCounted(cells: seq<string>, widths: seq<nat>, i: nat, c: nat)
    requires i <= c < |widths| && Fits(cells, widths)
    ensures Utf8Bytes(Shown(cells[c])) < CellsBytes(cells, widths, i)
    decreases c - i
  {
    if i < c {
      CellIsCounted(cells, widths, i + 1, c);
    }
  }

  lemma {:induction false} RowIsCounted(rows: seq<seq<string>>, widths: seq<nat>, i: nat)
    requires i < |rows| && AllFit(rows, widths)
    ensures Fits(rows[i], widths) && RowBytes(rows[i], widths) <= RowsBytes(rows, widths)
    decreases i
  {
    if i > 0 {
      RowIsCounted(rows[1..], widths, i - 1);
    }
  }

  /** The true size of a table. */
  function Size(names: seq<string>, rows: seq<seq<string>>): (r: nat)
    requires Wide(names, rows)
  {
    WidthsFit(names, rows);
    TableBytes(names, rows, Widths(names, rows))
  }

  lemma NameTooLong(names: seq<string>, rows: seq<seq<string>>, c: nat)
    requires Wide(names, rows) && c < |names| && TextMetrics(names[c]).None?
    ensures Size(names, rows) >= U64_LIMIT
  {
    WidthsFit(names, rows);
    CellIsCounted(names, Widths(names, rows), 0, c);
  }

  lemma CellTooLong(names: seq<string>, rows: seq<seq<string>>, i: nat, c: nat)
    requires Wide(names, rows) && i < |rows| && c < |names| && TextMetrics(rows[i][c]).None?
    ensures Size(names, rows) >= U64_LIMIT
  {
    WidthsFit(names, rows);
    RowIsCounted(rows, Widths(names, rows), i);
    CellIsCounted(rows[i], Widths(names, rows), 0, c);
  }

  method NameWidths(names: seq<string>, ghost rows: seq<seq<string>>) returns (r: Option<seq<usize>>)
    requires Wide(names, rows)
    ensures r.None? ==> Size(names, rows) >= U64_LIMIT
    ensures r.Some? ==> |r.value| == |names| && forall c :: 0 <= c < |names| ==> r.value[c] == |Shown(names[c])|
  {
    hide Size, Wide, Shown;
    var widths: seq<usize> := [];
    for column := 0 to |names|
      invariant |widths| == column && forall c :: 0 <= c < column ==> widths[c] == |Shown(names[c])|
    {
      var metrics := MeasureText(names[column]);
      if metrics.None? {
        NameTooLong(names, rows, column);
        return None;
      }
      widths := widths + [metrics.value.characters];
    }
    return Some(widths);
  }

  /** The row loop body of `table_widths`. */
  method Widen(widths: seq<usize>, cells: seq<string>) returns (r: Option<seq<usize>>)
    requires |cells| >= |widths|
    ensures r.None? ==> exists c :: 0 <= c < |widths| && TextMetrics(cells[c]).None?
    ensures r.Some? ==>
      |r.value| == |widths| && forall c :: 0 <= c < |widths| ==> r.value[c] == Max(widths[c], |Shown(cells[c])|)
  {
    var widened: seq<usize> := [];
    for column := 0 to |widths|
      invariant |widened| == column
      invariant forall c :: 0 <= c < column ==> widened[c] == Max(widths[c], |Shown(cells[c])|)
    {
      var metrics := MeasureText(cells[column]);
      if metrics.None? {
        return None;
      }
      widened := widened + [Max(widths[column], metrics.value.characters)];
    }
    return Some(widened);
  }

  lemma ColumnWidthStep(names: seq<string>, rows: seq<seq<string>>, i: nat, c: nat)
    requires Wide(names, rows) && i < |rows| && c < |names|
    ensures ColumnWidth(names, rows[..i + 1], c) == Max(ColumnWidth(names, rows[..i], c), |Shown(rows[i][c])|)
  {
    assert rows[..i + 1][..i] == rows[..i];
  }

  /** `table_widths`. */
  method TableWidths(names: seq<string>, rows: seq<seq<string>>) returns (r: Option<seq<usize>>)
    requires Wide(names, rows)
    ensures r.None? ==> Size(names, rows) >= U64_LIMIT
    ensures r.Some? ==> r.value == Widths(names, rows)
  {
    var widths := NameWidths(names, rows);
    if widths.None? {
      return None;
    }
    r := widths;
    for i := 0 to |rows|
      invariant r.Some? && |r.value| == |names|
      invariant forall c :: 0 <= c < |names| ==> r.value[c] == ColumnWidth(names, rows[..i], c)
    {
      var widened := Widen(r.value, rows[i]);
      if widened.None? {
        ghost var c :| 0 <= c < |names| && TextMetrics(rows[i][c]).None?;
        CellTooLong(names, rows, i, c);
        return None;
      }
      forall c | 0 <= c < |names|
        ensures widened.value[c] == ColumnWidth(names, rows[..i + 1], c)
      {
        ColumnWidthStep(names, rows, i, c);
      }
      r := widened;
    }
    assert rows[..|rows|] == rows;
  }

  lemma RowsFrom(rows: seq<seq<string>>, widths: seq<nat>, i: nat)
    requires i < |rows| && AllFit(rows[i..], widths)
    ensures Fits(rows[i], widths) && AllFit(rows[i + 1..], widths)
    ensures RowsBytes(rows[i..], widths) == RowBytes(rows[i], widths) + RowsBytes(rows[i + 1..], widths)
    ensures RowsString(rows[i..], widths) == RowLine(rows[i], widths) + "\n" + RowsString(rows[i + 1..], widths)
  {
    assert rows[i..][0] == rows[i] && rows[i..][1..] == rows[i + 1..];
  }

  function AddRow(bytes: usize, cells: seq<string>, widths: seq<usize>): (r: Option<usize>)
    requires Fits(cells, widths)
    ensures r == Exact(bytes + RowBytes(cells, widths))
  {
    Plus(Some(bytes), TableRowBytes(cells, widths))
  }

  /** The row loop of `table_rendered_bytes`. */
  method AddRows(bytes: usize, rows: seq<seq<string>>, widths: seq<usize>) returns (r: Option<usize>)
    requires AllFit(rows, widths)
    ensures r == Exact(bytes + RowsBytes(rows, widths))
  {
    var total: usize := bytes;
    assert rows[0..] == rows;
    for i := 0 to |rows|
      invariant AllFit(rows[i..], widths)
      invariant total + RowsBytes(rows[i..], widths) == bytes + RowsBytes(rows, widths)
    {
      RowsFrom(rows, widths, i);
      var next := AddRow(total, rows[i], widths);
      if next.None? {
        return None;
      }
      total := next.value;
    }
    assert rows[|rows|..] == [];
    return Some(total);
  }

  /** The lines of a table above its closing border. */
  method OpenBytes(border: usize, names: seq<string>, rows: seq<seq<string>>, widths: seq<usize>)
    returns (r: Option<usize>)
    requires Fits(names, widths) && AllFit(rows, widths)
    ensures r == Exact(border + 1 + RowBytes(names, widths) + border + 1 + RowsBytes(rows, widths))
  {
    var fixedBytes := Plus(Plus(Plus(CheckedAdd(border, 1), TableRowBytes(names, widths)), Some(border)), Some(1));
    if fixedBytes.None? {
      return None;
    }
    r := AddRows(fixedBytes.value, rows, widths);
  }

  /** `table_rendered_bytes`. */
  method TableRenderedBytes(names: seq<string>, rows: seq<seq<string>>, widths: seq<usize>) returns (r: Option<usize>)
    requires Fits(names, widths) && AllFit(rows, widths)
    ensures r == Exact(TableBytes(names, rows, widths))
  {
    var border := BorderFold(widths, 0, 1);
    if border.None? {
      return None;
    }
    var bytes := OpenBytes(border.value, names, rows, widths);
    if bytes.None? {
      return None;
    }
    return CheckedAdd(bytes.value, border.value);
  }

  // ---------- the streaming pass ----------

  /** `write_repeated`, in chunks of 1024. */
  method WriteRepeated(output: string, c: char, count: nat) returns (r: string)
    ensures r == output + Repeat(c, count)
  {
    r := output;
    var left: nat := count;
    while left >= 1024
      invariant left <= count && r == output + Repeat(c, count - left)
    {
      r := r + Repeat(c, 1024);
      left := left - 1024;
    }
    r := r + Repeat(c, left);
  }

  method WriteBorder(output: string, widths: seq<nat>) returns (r: string)
    ensures r == output + BorderLine(widths)
  {
    r := output + "+";
    for i := 0 to |widths|
      invariant r + BorderFrom(widths, i) == output + BorderLine(widths)
    {
      var dashes := Repeat('-', widths[i] + 2);
      Associates(r, dashes, "+");
      Associates(r, dashes + "+", BorderFrom(widths, i + 1));
      r := WriteRepeated(r, '-', widths[i] + 2);
      r := r + "+";
    }
    assert r + "" == r;
  }

  method WriteCell(output: string, cell: string, width: nat) returns (r: string)
    requires |Shown(cell)| <= width && Utf8Bytes(Shown(cell)) < U64_LIMIT
    ensures r == output + CellString(cell, width)
  {
    var metrics := MeasureText(cell);
    r := output + " ";
    r := WriteEscaped(Escape, r, cell);
    var padding := width - metrics.value.characters + 1;
    r := WriteRepeated(r, ' ', padding);
    Associates(output, " ", Shown(cell));
    Associates(output, " " + Shown(cell), Repeat(' ', padding));
    Associates(output, " " + Shown(cell) + Repeat(' ', padding), "|");
    r := r + "|";
  }

  method WriteRow(output: string, cells: seq<string>, widths: seq<nat>) returns (r: string)
    requires Fits(cells, widths) && RowBytes(cells, widths) < U64_LIMIT
    ensures r == output + (RowLine(cells, widths) + "\n")
  {
    r := output + "|";
    for i := 0 to |widths|
      invariant r + CellsFrom(cells, widths, i) == output + RowLine(cells, widths)
    {
      CellIsCounted(cells, widths, 0, i);
      Associates(r, CellString(cells[i], widths[i]), CellsFrom(cells, widths, i + 1));
      r := WriteCell(r, cells[i], widths[i]);
    }
    assert r + "" == r;
    Associates(output, RowLine(cells, widths), "\n");
    r := r + "\n";
  }

  method WriteRows(output: string, rows: seq<seq<string>>, widths: seq<nat>) returns (r: string)
    requires AllFit(rows, widths) && RowsBytes(rows, widths) < U64_LIMIT
    ensures r == output + RowsString(rows, widths)
  {
    r := output;
    assert rows[0..] == rows;
    for i := 0 to |rows|
      invariant AllFit(rows[i..], widths)
      invariant r + RowsString(rows[i..], widths) == output + RowsString(rows, widths)
    {
      RowsFrom(rows, widths, i);
      RowIsCounted(rows, widths, i);
      Associates(r, RowLine(rows[i], widths) + "\n", RowsString(rows[i + 1..], widths));
      r := WriteRow(r, rows[i], widths);
    }
    assert rows[|rows|..] == [];
    assert r + "" == r;
  }

  /** What is reported of a table that would exceed the bound: the exact size, or one more than
      the bound when the size is no `usize`. */
  function ReportedBytes(size: nat, maxBytes: usize): (r: usize) {
    if size < U64_LIMIT then size else SaturatingAdd(maxBytes, 1)
  }

  /** `write_table_with_affixes` into a buffer; the error is the size reported as over the bound. */
  method WriteTable(output: string, names: seq<string>, rows: seq<seq<string>>, maxBytes: usize, prefix: string,
      suffix: string)
      returns (r: string, overLimit: Option<usize>)
    requires Wide(names, rows)
    requires Utf8Bytes(prefix) <= ISIZE_MAX && Utf8Bytes(suffix) <= ISIZE_MAX
    ensures Fits(names, Widths(names, rows)) && AllFit(rows, Widths(names, rows))
    ensures var text := prefix + TableString(names, rows, Widths(names, rows)) + suffix;
      if Utf8Bytes(text) <= maxBytes then overLimit == None && r == output + text
      else overLimit == Some(ReportedBytes(Utf8Bytes(text), maxBytes)) && r == output
  {
    WidthsFit(names, rows);
    ghost var allWidths := Widths(names, rows);
    ghost var table := TableString(names, rows, allWidths);
    TableStringBytes(names, rows, allWidths);
    Utf8Concat(prefix, table);
    Utf8Concat(prefix + table, suffix);
    var widths := TableWidths(names, rows);
    if widths.None? {
      return output, Some(SaturatingAdd(maxBytes, 1));
    }
    var tableBytes := TableRenderedBytes(names, rows, widths.value);
    if tableBytes.None? {
      return output, Some(SaturatingAdd(maxBytes, 1));
    }
    var outputBytes := Plus(CheckedAdd(Utf8Bytes(prefix), tableBytes.value), Some(Utf8Bytes(suffix)));
    if outputBytes.None? {
      return output, Some(SaturatingAdd(maxBytes, 1));
    }
    if outputBytes.value > maxBytes {
      return output, Some(outputBytes.value);
    }
    r := WriteBody(output, names, rows, widths.value, prefix, suffix);
    return r, None;
  }

  method WriteBody(output: string, names: seq<string>, rows: seq<seq<string>>, widths: seq<nat>, prefix: string,
      suffix: string)
      returns (r: string)
    requires Fits(names, widths) && AllFit(rows, widths) && TableBytes(names, rows, widths) < U64_LIMIT
    ensures r == output + (prefix + TableString(names, rows, widths) + suffix)
  {
    r := output + prefix;
    r := WriteBorder(r, widths);
    r := r + "\n";
    r := WriteRow(r, names, widths);
    r := WriteBorder(r, widths);
    r := r + "\n";
    r := WriteRows(r, rows, widths);
    r := WriteBorder(r, widths);
    r := r + suffix;
    BodyParts(output, prefix, BorderLine(widths), RowLine(names, widths) + "\n", RowsString(rows, widths), suffix);
  }

  lemma BodyParts(output: string, prefix: string, border: string, header: string, body: string, suffix: string)
    ensures output + prefix + border + "\n" + header + border + "\n" + body + border + suffix
         == output + (prefix + (border + "\n" + header + (border + "\n") + body + border) + suffix)
  {
    var a := border + "\n";
    var b := a + header;
    var c := b + a;
    var d := c + body;
    var e := d + border;
    Associates(output, prefix, a);
    Associates(output + prefix, a, header);
    Associates(output + prefix, b, a);
    Associates(output + prefix, c, body);
    Associates(output + prefix, d, border);
    Associates(output + prefix, e, suffix);
    Associates(output, prefix, e + suffix);
    Associates(prefix, e, suffix);
    Associates(output + prefix, border, "\n");
    Associates(output + prefix + b, border, "\n");
  }
}
