/** Reading back the table text that `src/batch/format.rs` writes: every cell from its column. */
module TableReading {
  import opened Words
  import opened Escaping
  import opened TableText
  import JsonReading

  // ---------- escapes ----------

  /** The next character of an escaped text, and what follows it. */
  function NextChar(s: string): (r: Option<(char, string)>)
    ensures r.Some? ==> |r.value.1| < |s|
  {
    if s == "" then None
    else if s[0] != '\\' then Some((s[0], s[1..]))
    else if |s| < 2 then None
    else if s[1] == '\\' then Some(('\\', s[2..]))
    else if s[1] == 'n' then Some((10 as char, s[2..]))
    else if s[1] == 'r' then Some((13 as char, s[2..]))
    else if s[1] == 't' then Some((9 as char, s[2..]))
    else if s[1] == 'u' && |s| >= 8 && s[2] == '{' && s[7] == '}' then
      match JsonReading.Character(JsonReading.HexValue(s[3..7]))
      case None => None
      case Some(c) => Some((c, s[8..]))
    else None
  }

  function Unescaped(s: string): (r: Option<string>)
    decreases |s|
  {
    if s == "" then Some("")
    else
      match NextChar(s)
      case None => None
      case Some((c, after)) =>
        match Unescaped(after)
        case None => None
        case Some(rest) => Some([c] + rest)
  }

  lemma ShownChar(c: char, rest: string)
    ensures EscapedChar(Escape, c) != "" && NextChar(EscapedChar(Escape, c) + rest) == Some((c, rest))
  {
    var text := EscapedChar(Escape, c);
    var s := text + rest;
    if Escape(c).None? {
      assert s[1..] == rest;
    } else if IsControl(c) && c != '\n' && c != '\r' && c != '\t' {
      JsonReading.Hex4Denotes(c as int);
      assert |text| == 8 && s[0] == '\\' && s[1] == 'u' && s[2] == '{' && s[7] == '}';
      assert s[3..7] == Hex4(c as int) && s[8..] == rest;
    } else {
      assert |text| == 2 && s[0] == text[0] && s[1] == text[1] && s[2..] == rest;
    }
  }

  /** What is shown stands for the text. */
  lemma {:induction false} ShownIsRead(s: string)
    ensures Unescaped(Shown(s)) == Some(s)
    decreases |s|
  {
    if s != "" {
      ShownChar(s[0], Shown(s[1..]));
      ShownIsRead(s[1..]);
      FirstAndRest(s);
    }
  }

  lemma {:induction false} SpacesAreShown(k: nat)
    ensures Shown(Repeat(' ', k)) == Repeat(' ', k)
    decreases k
  {
    var spaces := Repeat(' ', k);
    if k > 0 {
      SpacesAreShown(k - 1);
      assert spaces[1..] == Repeat(' ', k - 1);
      FirstAndRest(spaces);
    }
  }

  // ---------- columns ----------

  /** Where the column `c` begins in a line. */
  function Offset(widths: seq<nat>, c: nat): (r: nat)
    requires c <= |widths|
    ensures r > 0
  {
    if c == 0 then 1 else Offset(widths, c - 1) + widths[c - 1] + 3
  }

  lemma {:induction false} OffsetsGrow(widths: seq<nat>, c: nat, d: nat)
    requires c <= d <= |widths|
    ensures Offset(widths, c) <= Offset(widths, d)
    decreases d - c
  {
    if c < d {
      OffsetsGrow(widths, c, d - 1);
    }
  }

  lemma CellLength(cell: string, width: nat)
    requires |Shown(cell)| <= width
    ensures |CellString(cell, width)| == width + 3
  {
  }

  lemma SliceBehind(text: string, head: string, rest: string, n: nat, length: nat)
    requires text == head + rest && n + length <= |rest|
    ensures |text| == |head| + |rest| && text[|head| + n..|head| + n + length] == rest[n..n + length]
  {
  }

  /** The text of the column `c` stands between its offset and the next. */
  lemma {:induction false} ColumnOfCells(cells: seq<string>, widths: seq<nat>, i: nat, c: nat)
    requires Fits(cells, widths) && i <= c < |widths|
    ensures var from := Offset(widths, c) - Offset(widths, i);
      && 0 <= from && from + widths[c] + 3 <= |CellsFrom(cells, widths, i)|
      && CellsFrom(cells, widths, i)[from..from + widths[c] + 3] == CellString(cells[c], widths[c])
    decreases c - i
  {
    hide CellString, Shown;
    var text, head := CellsFrom(cells, widths, i), CellString(cells[i], widths[i]);
    var rest := CellsFrom(cells, widths, i + 1);
    CellLength(cells[i], widths[i]);
    if i == c {
      assert text[..|head|] == head;
    } else {
      ColumnOfCells(cells, widths, i + 1, c);
      OffsetsGrow(widths, i + 1, c);
      var from: nat := Offset(widths, c) - Offset(widths, i + 1);
      var length := widths[c] + 3;
      assert Offset(widths, i + 1) == Offset(widths, i) + |head|;
      hide CellsFrom, Offset, Fits;
      SliceBehind(text, head, rest, from, length);
    }
  }

  lemma CellParts(cell: string, width: nat)
    requires |Shown(cell)| <= width
    ensures var text := CellString(cell, width);
      && |text| == width + 3 && text[0] == ' ' && text[1 + width] == ' ' && text[2 + width] == '|'
      && text[1..1 + width] == Shown(cell) + Repeat(' ', width - |Shown(cell)|)
  {
    var padding := width - |Shown(cell)|;
    assert Repeat(' ', padding + 1) == Repeat(' ', padding) + [' '];
  }

  lemma PaddedIsRead(cell: string, padding: nat)
    ensures Unescaped(Shown(cell) + Repeat(' ', padding)) == Some(cell + Repeat(' ', padding))
  {
    SpacesAreShown(padding);
    EscapedConcat(Escape, cell, Repeat(' ', padding));
    ShownIsRead(cell + Repeat(' ', padding));
  }

  lemma ColumnOfLine(cells: seq<string>, widths: seq<nat>, c: nat)
    requires Fits(cells, widths) && c < |widths|
    ensures var from := Offset(widths, c);
      && from + widths[c] + 3 <= |RowLine(cells, widths)|
      && RowLine(cells, widths)[from..from + widths[c] + 3] == CellString(cells[c], widths[c])
  {
    hide CellString, Shown, CellsFrom;
    ColumnOfCells(cells, widths, 0, c);
    OffsetsGrow(widths, 0, c);
    assert Offset(widths, 0) == 1;
    hide Offset, Fits;
    SliceBehind(RowLine(cells, widths), "|", CellsFrom(cells, widths, 0), Offset(widths, c) - 1, widths[c] + 3);
  }

  lemma InColumn(line: string, from: nat, width: nat, column: string)
    requires from + width + 3 <= |line| && line[from..from + width + 3] == column
    ensures line[from] == column[0] && line[from + 1 + width] == column[1 + width]
    ensures line[from + 2 + width] == column[2 + width] && line[from + 1..from + 1 + width] == column[1..1 + width]
  {
    var slice := line[from..from + width + 3];
    assert slice[0] == line[from] && slice[1 + width] == line[from + 1 + width];
    assert slice[2 + width] == line[from + 2 + width];
    var inner := line[from + 1..from + 1 + width];
    forall k | 0 <= k < width
      ensures inner[k] == column[1..1 + width][k]
    {
      assert slice[1 + k] == line[from + 1 + k];
    }
  }

  /** A column's text stands in the line, framed by spaces and closed by a bar. */
  lemma ColumnParts(cells: seq<string>, widths: seq<nat>, c: nat)
    requires Fits(cells, widths) && c < |widths|
    ensures var from, width, line := Offset(widths, c), widths[c], RowLine(cells, widths);
      && from + width + 3 <= |line| && line[from] == ' '
      && line[from + 1..from + 1 + width] == Shown(cells[c]) + Repeat(' ', width - |Shown(cells[c])|)
      && line[from + 1 + width] == ' ' && line[from + 2 + width] == '|'
  {
    hide CellString, Shown, RowLine, Offset;
    ColumnOfLine(cells, widths, c);
    CellParts(cells[c], widths[c]);
    InColumn(RowLine(cells, widths), Offset(widths, c), widths[c], CellString(cells[c], widths[c]));
  }

  /** A cell is read back from its column, up to the spaces that fill the column. */
  lemma CellIsReadBack(cells: seq<string>, widths: seq<nat>, c: nat)
    requires Fits(cells, widths) && c < |widths|
    ensures var from, padding, line := Offset(widths, c), widths[c] - |Shown(cells[c])|, RowLine(cells, widths);
      && from + widths[c] + 3 <= |line| && line[from - 1] == '|' && line[from] == ' '
      && Unescaped(line[from + 1..from + 1 + widths[c]]) == Some(cells[c] + Repeat(' ', padding))
      && line[from + 1 + widths[c]] == ' ' && line[from + 2 + widths[c]] == '|'
  {
    hide Shown, Unescaped, CellsFrom;
    ColumnParts(cells, widths, c);
    PaddedIsRead(cells[c], widths[c] - |Shown(cells[c])|);
    if c > 0 {
      ColumnParts(cells, widths, c - 1);
    }
  }

  // ---------- lines ----------

  function FirstLine(s: string): (r: string)
    ensures |r| <= |s|
  {
    if s == "" || s[0] == '\n' then "" else [s[0]] + FirstLine(s[1..])
  }

  /** The lines of a text, split at its line feeds. */
  function Lines(s: string): (r: seq<string>)
    decreases |s|
  {
    var line := FirstLine(s);
    if |line| == |s| then [line] else [line] + Lines(s[|line| + 1..])
  }

  lemma {:induction false} FirstLineIs(line: string, rest: string)
    requires Unbroken(line) && (rest == "" || rest[0] == '\n')
    ensures FirstLine(line + rest) == line
    decreases |line|
  {
    if line == "" {
      assert line + rest == rest;
    } else {
      assert (line + rest)[0] == line[0] && (line + rest)[1..] == line[1..] + rest;
      FirstLineIs(line[1..], rest);
      FirstAndRest(line);
    }
  }

  lemma LinesOf(line: string, rest: string)
    requires Unbroken(line)
    ensures Lines(line + "\n" + rest) == [line] + Lines(rest)
    ensures Lines(line) == [line]
  {
    FirstLineIs(line, "\n" + rest);
    FirstLineIs(line, "");
    assert line + "" == line;
    Associates(line, "\n", rest);
    assert (line + "\n" + rest)[|line| + 1..] == rest;
  }

  /** The lines of the rows, then the closing border. */
  function RowLines(rows: seq<seq<string>>, widths: seq<nat>): (r: seq<string>)
    requires AllFit(rows, widths)
    ensures |r| == |rows| + 1
  {
    if rows == [] then [BorderLine(widths)] else [RowLine(rows[0], widths)] + RowLines(rows[1..], widths)
  }

  lemma {:induction false} LinesOfRows(rows: seq<seq<string>>, widths: seq<nat>)
    requires AllFit(rows, widths)
    ensures Lines(RowsString(rows, widths) + BorderLine(widths)) == RowLines(rows, widths)
    decreases |rows|
  {
    hide RowLine, BorderLine, Lines, Fits;
    var border := BorderLine(widths);
    BorderIsLine(widths);
    if rows == [] {
      assert "" + border == border;
      LinesOf(border, "");
    } else {
      var rest := RowsString(rows[1..], widths);
      RowIsLine(rows[0], widths);
      LinesOfRows(rows[1..], widths);
      Associates(RowLine(rows[0], widths) + "\n", rest, border);
      LinesOf(RowLine(rows[0], widths), rest + border);
    }
  }

  /** The table is a border, the names, a border, one line per row, and a border. */
  lemma LinesOfTable(names: seq<string>, rows: seq<seq<string>>, widths: seq<nat>)
    requires Fits(names, widths) && AllFit(rows, widths)
    ensures Lines(TableString(names, rows, widths))
         == [BorderLine(widths)] + ([RowLine(names, widths)] + ([BorderLine(widths)] + RowLines(rows, widths)))
  {
    hide RowLine, BorderLine, Lines, Fits, RowsString, RowLines;
    var border, header := BorderLine(widths), RowLine(names, widths);
    var rest := RowsString(rows, widths) + border;
    BorderIsLine(widths);
    RowIsLine(names, widths);
    LinesOfRows(rows, widths);
    LinesOf(border, rest);
    LinesOf(header, border + "\n" + rest);
    LinesOf(border, header + "\n" + (border + "\n" + rest));
    Associates(border + "\n" + (header + "\n") + (border + "\n"), RowsString(rows, widths), border);
    Associates(border + "\n" + (header + "\n"), border + "\n", rest);
    Associates(border + "\n", header + "\n", border + "\n" + rest);
  }

  lemma {:induction false} RowLineAt(rows: seq<seq<string>>, widths: seq<nat>, k: nat)
    requires AllFit(rows, widths) && k < |rows|
    ensures Fits(rows[k], widths) && RowLines(rows, widths)[k] == RowLine(rows[k], widths)
    decreases k
  {
    if k > 0 {
      RowLineAt(rows[1..], widths, k - 1);
    }
  }

  /** A border has a plus sign wherever a line has a column's end, and dashes between them. */
  lemma BorderColumns(widths: seq<nat>, c: nat, k: nat)
    requires c < |widths| && k < widths[c] + 2
    ensures Offset(widths, c) + widths[c] + 2 < |BorderLine(widths)|
    ensures BorderLine(widths)[0] == BorderLine(widths)[Offset(widths, c) + widths[c] + 2] == '+'
    ensures BorderLine(widths)[Offset(widths, c) + k] == '-'
  {
    BorderFromColumns(widths, 0, c, k);
    OffsetsGrow(widths, 0, c);
  }

  lemma {:induction false} BorderFromColumns(widths: seq<nat>, i: nat, c: nat, k: nat)
    requires i <= c < |widths| && k < widths[c] + 2
    ensures var text, from := BorderFrom(widths, i), Offset(widths, c) - Offset(widths, i);
      && 0 <= from && from + widths[c] + 2 < |text|
      && text[from + widths[c] + 2] == '+' && text[from + k] == '-'
    decreases c - i
  {
    if i < c {
      BorderFromColumns(widths, i + 1, c, k);
      OffsetsGrow(widths, i + 1, c);
    }
  }

  /** Only the backslash and control characters are escaped. */
  lemma PlainCharacters(c: char)
    ensures EscapedChar(Escape, c) == [c] <==>
      c != '\\' && 0x20 <= c as int && !(0x7F <= c as int <= 0x9F)
  {
    assert Escape(c).Some? ==> |EscapedChar(Escape, c)| >= 2;
  }
}
