/** The human-readable table writer of `src/batch/format.rs` and its sizing pass. */
module TableText {
  import opened Words
  import opened Escaping

  /** The escapes of `write_escaped_table_text`. */
  function Escape(c: char): (r: Option<string>) {
    if c == '\\' then Some("\\\\")
    else if c == '\n' then Some("\\n")
    else if c == '\r' then Some("\\r")
    else if c == '\t' then Some("\\t")
    else if IsControl(c) then Some("\\u{" + Hex4(c as int) + "}")
    else None
  }

  function Shown(s: string): (r: string) {
    Escaped(Escape, s)
  }

  // ---------- metrics ----------

  datatype Metrics = Metrics(characters: usize, bytes: usize)

  /** The display width and byte count of one character. */
  function CharMetrics(c: char): (r: (nat, nat)) {
    if c == '\\' || c == '\n' || c == '\r' || c == '\t' then (2, 2)
    else if IsControl(c) then
      var digits := SignificantHexDigits(c as int);
      var escapedBytes := (if digits < 4 then 4 else digits) + 4;
      (escapedBytes, escapedBytes)
    else (1, Utf8Len(c))
  }

  lemma ControlEscape(c: char)
    requires IsControl(c)
    ensures var text := "\\u{" + Hex4(c as int) + "}";
      && Ascii(text)
      && |text| == (if SignificantHexDigits(c as int) < 4 then 4 else SignificantHexDigits(c as int)) + 4
  {
    HexDigitCount(c as int);
    Hex4Ascii(c as int);
    RepeatAscii("\\u{");
    RepeatAscii("}");
    AsciiConcat("\\u{", Hex4(c as int));
    AsciiConcat("\\u{" + Hex4(c as int), "}");
  }

  /** A character is measured as it is written. */
  lemma CharMeasured(c: char)
    ensures CharMetrics(c) == (|EscapedChar(Escape, c)|, Utf8Bytes(EscapedChar(Escape, c)))
  {
    var text := EscapedChar(Escape, c);
    if c == '\\' || c == '\n' || c == '\r' || c == '\t' {
      assert text == [text[0], text[1]];
      RepeatAscii(text);
      AsciiBytes(text);
    } else if IsControl(c) {
      ControlEscape(c);
      AsciiBytes(text);
    } else {
      assert [c][1..] == "";
    }
  }

  /** What measuring `s` yields: the size of what is written, unless the count overflows. */
  function TextMetrics(s: string): (r: Option<Metrics>) {
    if Utf8Bytes(Shown(s)) < U64_LIMIT then Some(Metrics(|Shown(s)|, Utf8Bytes(Shown(s)))) else None
  }

  lemma ShownPrefix(s: string, i: nat)
    requires i < |s|
    ensures |Shown(s[..i + 1])| == |Shown(s[..i])| + CharMetrics(s[i]).0
    ensures Utf8Bytes(Shown(s[..i + 1])) == Utf8Bytes(Shown(s[..i])) + CharMetrics(s[i]).1
  {
    assert s[..i + 1] == s[..i] + [s[i]];
    EscapedConcat(Escape, s[..i], [s[i]]);
    EscapedOne(Escape, s[i]);
    CharMeasured(s[i]);
    Utf8Concat(Shown(s[..i]), EscapedChar(Escape, s[i]));
  }

  lemma ShownMonotone(s: string, i: nat)
    requires i <= |s|
    ensures Utf8Bytes(Shown(s[..i])) <= Utf8Bytes(Shown(s))
  {
    assert s == s[..i] + s[i..];
    EscapedConcat(Escape, s[..i], s[i..]);
    Utf8Concat(Shown(s[..i]), Shown(s[i..]));
  }

  /** `table_text_metrics`. */
  method MeasureText(value: string) returns (r: Option<Metrics>)
    ensures r == TextMetrics(value)
  {
    var metrics := Metrics(0, 0);
    assert value[..0] == "";
    for i := 0 to |value|
      invariant metrics.characters == |Shown(value[..i])| && metrics.bytes == Utf8Bytes(Shown(value[..i]))
    {
      ShownPrefix(value, i);
      ShownMonotone(value, i + 1);
      var (characters, bytes) := CharMetrics(value[i]);
      var totalCharacters := CheckedAdd(metrics.characters, characters);
      if totalCharacters.None? {
        return None;
      }
      var totalBytes := CheckedAdd(metrics.bytes, bytes);
      if totalBytes.None? {
        return None;
      }
      metrics := Metrics(totalCharacters.value, totalBytes.value);
    }
    assert value[..|value|] == value;
    return Some(metrics);
  }

  // ---------- the text of a table ----------

  /** The dashes of the columns from `i` on, each column closed by a plus sign. */
  function BorderFrom(widths: seq<nat>, i: nat): (r: string)
    requires i <= |widths|
    decreases |widths| - i, widths
  {
    if i == |widths| then "" else Repeat('-', widths[i] + 2) + "+" + BorderFrom(widths, i + 1)
  }

  function CellString(cell: string, width: nat): (r: string)
    requires |Shown(cell)| <= width
  {
    " " + Shown(cell) + Repeat(' ', width - |Shown(cell)| + 1) + "|"
  }

  /** Every column is wide enough for the row's cell in it. */
  predicate Fits(cells: seq<string>, widths: seq<nat>) {
    |cells| >= |widths| && forall c :: 0 <= c < |widths| ==> |Shown(cells[c])| <= widths[c]
  }

  function CellsFrom(cells: seq<string>, widths: seq<nat>, i: nat): (r: string)
    requires i <= |widths| && Fits(cells, widths)
    decreases |widths| - i, widths
  {
    if i == |widths| then "" else CellString(cells[i], widths[i]) + CellsFrom(cells, widths, i + 1)
  }

  /** A border, or a line of cells, without its line feed. */
  function BorderLine(widths: seq<nat>): (r: string) {
    "+" + BorderFrom(widths, 0)
  }

  function RowLine(cells: seq<string>, widths: seq<nat>): (r: string)
    requires Fits(cells, widths)
  {
    "|" + CellsFrom(cells, widths, 0)
  }

  predicate AllFit(rows: seq<seq<string>>, widths: seq<nat>) {
    rows == [] || (Fits(rows[0], widths) && AllFit(rows[1..], widths))
  }

  /** The lines of the rows, each with its line feed. */
  function RowsString(rows: seq<seq<string>>, widths: seq<nat>): (r: string)
    requires AllFit(rows, widths)
  {
    if rows == [] then "" else RowLine(rows[0], widths) + "\n" + RowsString(rows[1..], widths)
  }

  function TableString(names: seq<string>, rows: seq<seq<string>>, widths: seq<nat>): (r: string)
    requires Fits(names, widths) && AllFit(rows, widths)
  {
    BorderLine(widths) + "\n" + (RowLine(names, widths) + "\n") + (BorderLine(widths) + "\n")
    + RowsString(rows, widths) + BorderLine(widths)
  }

  // ---------- alignment ----------

  /** The character width of a line: a leading bar, then three characters beside each column. */
  function LineWidth(widths: seq<nat>, i: nat): (r: nat)
    requires i <= |widths|
    decreases |widths| - i, widths
  {
    if i == |widths| then 1 else widths[i] + 3 + LineWidth(widths, i + 1)
  }

  lemma {:induction false} BorderWidth(widths: seq<nat>, i: nat)
    requires i <= |widths|
    ensures |BorderFrom(widths, i)| + 1 == LineWidth(widths, i)
    decreases |widths| - i
  {
    if i < |widths| {
      BorderWidth(widths, i + 1);
    }
  }

  lemma {:induction false} CellsWidth(cells: seq<string>, widths: seq<nat>, i: nat)
    requires i <= |widths| && Fits(cells, widths)
    ensures |CellsFrom(cells, widths, i)| + 1 == LineWidth(widths, i)
    decreases |widths| - i
  {
    if i < |widths| {
      CellsWidth(cells, widths, i + 1);
    }
  }

  predicate Unbroken(s: string) {
    s == "" || (s[0] != '\n' && Unbroken(s[1..]))
  }

  lemma {:induction false} UnbrokenConcat(a: string, b: string)
    requires Unbroken(a) && Unbroken(b)
    ensures Unbroken(a + b)
    decreases |a|
  {
    if a == "" {
      assert a + b == b;
    } else {
      assert (a + b)[1..] == a[1..] + b;
      UnbrokenConcat(a[1..], b);
    }
  }

  lemma {:induction false} UnbrokenMeans(s: string)
    ensures Unbroken(s) <==> '\n' !in s
  {
    if s != "" {
      UnbrokenMeans(s[1..]);
      assert s == [s[0]] + s[1..];
    }
  }

  lemma {:induction false} HexDigitsUnbroken(n: nat)
    ensures '\n' !in HexDigits(n)
    decreases n
  {
    if n > 0 {
      HexDigitsUnbroken(n / 16);
    }
  }

  lemma EscapeUnbroken(c: char)
    ensures Unbroken(EscapedChar(Escape, c))
  {
    HexDigitsUnbroken(c as int);
    UnbrokenMeans(EscapedChar(Escape, c));
  }

  lemma {:induction false} ShownUnbroken(s: string)
    ensures Unbroken(Shown(s))
  {
    if s != "" {
      ShownUnbroken(s[1..]);
      EscapeUnbroken(s[0]);
      UnbrokenConcat(EscapedChar(Escape, s[0]), Shown(s[1..]));
    }
  }

  lemma {:induction false} BorderUnbroken(widths: seq<nat>, i: nat)
    requires i <= |widths|
    ensures Unbroken(BorderFrom(widths, i))
    decreases |widths| - i
  {
    if i < |widths| {
      BorderUnbroken(widths, i + 1);
      UnbrokenMeans(Repeat('-', widths[i] + 2) + "+");
      UnbrokenConcat(Repeat('-', widths[i] + 2) + "+", BorderFrom(widths, i + 1));
    }
  }

  lemma CellUnbroken(cell: string, width: nat)
    requires |Shown(cell)| <= width
    ensures Unbroken(CellString(cell, width))
  {
    ShownUnbroken(cell);
    UnbrokenMeans(Shown(cell));
    UnbrokenMeans(CellString(cell, width));
  }

  lemma {:induction false} CellsUnbroken(cells: seq<string>, widths: seq<nat>, i: nat)
    requires i <= |widths| && Fits(cells, widths)
    ensures Unbroken(CellsFrom(cells, widths, i))
    decreases |widths| - i
  {
    if i < |widths| {
      CellsUnbroken(cells, widths, i + 1);
      CellUnbroken(cells[i], widths[i]);
      UnbrokenConcat(CellString(cells[i], widths[i]), CellsFrom(cells, widths, i + 1));
    }
  }

  /** The text is lines of `width` characters each, with a line feed between each two. */
  predicate Aligned(text: string, width: nat)
    decreases |text|
  {
    |text| >= width && Unbroken(text[..width])
    && (|text| == width || (text[width] == '\n' && Aligned(text[width + 1..], width)))
  }

  lemma AlignedLine(line: string, rest: string, width: nat)
    requires |line| == width && Unbroken(line) && Aligned(rest, width)
    ensures Aligned(line + "\n" + rest, width)
  {
    var text := line + "\n" + rest;
    assert text[..width] == line && text[width + 1..] == rest;
  }

  lemma BorderIsLine(widths: seq<nat>)
    ensures |BorderLine(widths)| == LineWidth(widths, 0) && Unbroken(BorderLine(widths))
  {
    BorderWidth(widths, 0);
    BorderUnbroken(widths, 0);
    UnbrokenMeans("+");
    UnbrokenConcat("+", BorderFrom(widths, 0));
  }

  lemma RowIsLine(cells: seq<string>, widths: seq<nat>)
    requires Fits(cells, widths)
    ensures |RowLine(cells, widths)| == LineWidth(widths, 0) && Unbroken(RowLine(cells, widths))
  {
    CellsWidth(cells, widths, 0);
    CellsUnbroken(cells, widths, 0);
    UnbrokenMeans("|");
    UnbrokenConcat("|", CellsFrom(cells, widths, 0));
  }

  lemma {:induction false} RowsAligned(rows: seq<seq<string>>, widths: seq<nat>)
    requires AllFit(rows, widths)
    ensures Aligned(RowsString(rows, widths) + BorderLine(widths), LineWidth(widths, 0))
    decreases |rows|
  {
    var border, width := BorderLine(widths), LineWidth(widths, 0);
    if rows == [] {
      BorderIsLine(widths);
      assert "" + border == border && border[..width] == border;
    } else {
      RowsAligned(rows[1..], widths);
      RowIsLine(rows[0], widths);
      AlignedLine(RowLine(rows[0], widths), RowsString(rows[1..], widths) + border, width);
      Associates(RowLine(rows[0], widths) + "\n", RowsString(rows[1..], widths), border);
    }
  }

  /** All lines of a table have the same character width. */
  lemma TableAligned(names: seq<string>, rows: seq<seq<string>>, widths: seq<nat>)
    requires Fits(names, widths) && AllFit(rows, widths)
    ensures Aligned(TableString(names, rows, widths), LineWidth(widths, 0))
  {
    var border, header, rest := BorderLine(widths), RowLine(names, widths),
        RowsString(rows, widths) + BorderLine(widths);
    RowsAligned(rows, widths);
    BorderIsLine(widths);
    RowIsLine(names, widths);
    AlignedLine(border, rest, LineWidth(widths, 0));
    AlignedLine(header, border + "\n" + rest, LineWidth(widths, 0));
    AlignedLine(border, header + "\n" + (border + "\n" + rest), LineWidth(widths, 0));
    FourParts(border + "\n", header + "\n", border + "\n", RowsString(rows, widths), border);
  }

  lemma FourParts(a: string, b: string, c: string, d: string, e: string)
    ensures a + b + c + d + e == a + (b + (c + (d + e)))
  {
  }
}
