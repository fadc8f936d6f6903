/** A reader of the tab-separated text that `src/batch/format.rs` writes, defined by the escape
    letters alone, and why it recovers every written row. */
module TsvReading {
  import opened Words
  import opened Cells
  import opened Escaping
  import opened Tsv

  /** The character behind an escape letter. */
  function Unescape(letter: char): (r: Option<char>) {
    match letter
    case '\\' => Some('\\')
    case '\'' => Some('\'')
    case 't' => Some(9 as char)
    case 'n' => Some(10 as char)
    case 'r' => Some(13 as char)
    case '0' => Some(0 as char)
    case 'b' => Some(8 as char)
    case 'f' => Some(12 as char)
    case _ => None
  }

  /** The text that a cell stands for. */
  function Unescaped(s: string): (r: Option<string>) {
    if s == "" then Some("")
    else if s[0] != '\\' then Prepended(s[0], Unescaped(s[1..]))
    else if |s| < 2 || Unescape(s[1]).None? then None
    else Prepended(Unescape(s[1]).value, Unescaped(s[2..]))
  }

  function Prepended(c: char, rest: Option<string>): (r: Option<string>) {
    if rest.None? then None else Some([c] + rest.value)
  }

  /** The text before the first tab or line feed. */
  function RawCell(s: string): (r: string)
    ensures |r| <= |s|
  {
    if s == "" || IsSeparator(s[0]) then "" else [s[0]] + RawCell(s[1..])
  }

  /** The raw cells of a line, and what follows its line feed. */
  function RawLine(s: string): (r: Option<(seq<string>, string)>)
    ensures r.Some? ==> |r.value.1| < |s| && r.value.0 != []
    decreases |s|
  {
    var cell := RawCell(s);
    var after := s[|cell|..];
    if after == "" then None
    else if after[0] == '\n' then Some(([cell], after[1..]))
    else
      match RawLine(after[1..])
      case None => None
      case Some((cells, rest)) => Some(([cell] + cells, rest))
  }

  function RawLines(s: string): (r: Option<seq<seq<string>>>)
    decreases |s|
  {
    if s == "" then Some([])
    else
      match RawLine(s)
      case None => None
      case Some((cells, rest)) =>
        match RawLines(rest)
        case None => None
        case Some(lines) => Some([cells] + lines)
  }

  /** A written text stands for itself, and is never the NULL token. */
  lemma {:induction false} WrittenText(s: string)
    ensures Unescaped(TsvText(s)) == Some(s)
    decreases |s|
  {
    if s != "" {
      var first, others := EscapedChar(Escape, s[0]), TsvText(s[1..]);
      WrittenText(s[1..]);
      FirstAndRest(s);
      if EscapeLetter(s[0]).Some? {
        assert (first + others)[0] == '\\' && (first + others)[1] == EscapeLetter(s[0]).value;
        assert (first + others)[2..] == others;
      } else {
        assert (first + others)[1..] == others;
      }
    }
  }

  /** A text without a backslash stands for itself as it is. */
  lemma {:induction false} PlainText(s: string)
    requires NoBackslash(s)
    ensures Unescaped(s) == Some(s)
    decreases |s|
  {
    if s != "" {
      PlainText(s[1..]);
      FirstAndRest(s);
    }
  }

  /** What a cell's raw text is read as. */
  function CellOf(raw: string): (r: Option<Option<string>>) {
    if raw == "\\N" then Some(None)
    else if Unescaped(raw).None? then None
    else Some(Some(Unescaped(raw).value))
  }

  /** NULL, or the text of a cell. */
  function Content<N>(show: N -> string, cell: Value<N>): (r: Option<string>) {
    match cell
    case Null => None
    case Text(text) => Some(text)
    case Scalar(value) => Some(show(value))
  }

  ghost predicate PrintsPlain<N(!new)>(show: N -> string) {
    forall n :: NoSeparator(show(n)) && NoBackslash(show(n))
  }

  lemma WrittenCell<N(!new)>(show: N -> string, cell: Value<N>)
    requires PrintsPlain(show)
    ensures CellOf(CellText(show, cell)) == Some(Content(show, cell))
    ensures NoSeparator(CellText(show, cell))
  {
    match cell
    case Null =>
      assert "\\N"[1..] == "N" && "N"[1..] == "";
    case Text(text) =>
      WrittenText(text);
      NoTextIsNull(text);
      EscapedHasNoSeparator(text);
    case Scalar(value) =>
      assert NoBackslash(show(value));
      PlainText(show(value));
      assert !NoBackslash("\\N");
  }

  lemma {:induction false} RawCellOf(cell: string, rest: string)
    requires NoSeparator(cell) && rest != "" && IsSeparator(rest[0])
    ensures RawCell(cell + rest) == cell && (cell + rest)[|cell|..] == rest
    decreases |cell|
  {
    if cell == "" {
      assert cell + rest == rest;
    } else {
      assert (cell + rest)[0] == cell[0] && (cell + rest)[1..] == cell[1..] + rest;
      RawCellOf(cell[1..], rest);
      FirstAndRest(cell);
    }
  }

  /** The written cells from `i` on. */
  function Texts<N>(show: N -> string, row: seq<Value<N>>, i: nat): (r: seq<string>)
    requires i <= |row|
    ensures |r| == |row| - i
    decreases |row| - i
  {
    if i == |row| then [] else [CellText(show, row[i])] + Texts(show, row, i + 1)
  }

  lemma SplitRest(c: char, text: string, rest: string)
    ensures [c] + text + rest != "" && ([c] + text + rest)[0] == c && ([c] + text + rest)[1..] == text + rest
  {
  }

  lemma {:induction false} WrittenLine<N(!new)>(show: N -> string, row: seq<Value<N>>, i: nat, rest: string)
    requires PrintsPlain(show) && i < |row|
    ensures RawLine(RowText(show, row, i) + rest) == Some((Texts(show, row, i), rest))
    decreases |row| - i
  {
    hide CellText, PrintsPlain, RawCell;
    var text := CellText(show, row[i]);
    var after := RowRest(show, row, i) + rest;
    WrittenCell(show, row[i]);
    Associates(text, RowRest(show, row, i), rest);
    RawCellOf(text, after);
    if i + 1 < |row| {
      SplitRest('\t', RowText(show, row, i + 1), rest);
      WrittenLine(show, row, i + 1, rest);
    } else {
      SplitRest('\n', "", rest);
      assert "\n" + "" == "\n" && "" + rest == rest;
      assert Texts(show, row, i + 1) == [] && [text] + [] == [text];
    }
  }

  /** No row is empty: an empty row is written like a row of one empty text. */
  predicate NonEmpty<N>(rows: seq<seq<Value<N>>>) {
    rows == [] || (rows[0] != [] && NonEmpty(rows[1..]))
  }

  function AllTexts<N>(show: N -> string, rows: seq<seq<Value<N>>>): (r: seq<seq<string>>)
    ensures |r| == |rows|
  {
    if rows == [] then [] else [Texts(show, rows[0], 0)] + AllTexts(show, rows[1..])
  }

  /** The output splits into one line per row and one raw cell per cell. */
  lemma {:induction false} OutputIsSplit<N(!new)>(show: N -> string, rows: seq<seq<Value<N>>>)
    requires PrintsPlain(show) && NonEmpty(rows)
    ensures RawLines(RowsText(show, rows)) == Some(AllTexts(show, rows))
    decreases |rows|
  {
    hide RawLine, Texts, RowText, PrintsPlain;
    if rows != [] {
      OutputIsSplit(show, rows[1..]);
      WrittenLine(show, rows[0], 0, RowsText(show, rows[1..]));
    }
  }

  /** Cell `k` of row `j` is read back from its raw cell: NULL as NULL, text as text. */
  lemma CellsAreReadBack<N(!new)>(show: N -> string, rows: seq<seq<Value<N>>>, j: nat, k: nat)
    requires PrintsPlain(show) && j < |rows| && k < |rows[j]|
    ensures |AllTexts(show, rows)[j]| == |rows[j]|
    ensures CellOf(AllTexts(show, rows)[j][k]) == Some(Content(show, rows[j][k]))
  {
    RowTexts(show, rows, j);
    TextAt(show, rows[j], 0, k);
    WrittenCell(show, rows[j][k]);
  }

  lemma {:induction false} RowTexts<N>(show: N -> string, rows: seq<seq<Value<N>>>, j: nat)
    requires j < |rows|
    ensures AllTexts(show, rows)[j] == Texts(show, rows[j], 0)
    decreases j
  {
    if j > 0 {
      RowTexts(show, rows[1..], j - 1);
    }
  }

  lemma {:induction false} TextAt<N>(show: N -> string, row: seq<Value<N>>, i: nat, k: nat)
    requires i <= k < |row|
    ensures Texts(show, row, i)[k - i] == CellText(show, row[k])
    decreases k - i
  {
    if i < k {
      TextAt(show, row, i + 1, k);
    }
  }

  /** Only the backslash, the single quote and the six control characters with a letter are escaped. */
  lemma PlainCharacters(c: char)
    ensures EscapedChar(Escape, c) == [c] <==> c !in {'\\', '\'', '\t', '\n', '\r', '\0', '\U{08}', '\U{0c}'}
  {
    assert Escape(c).Some? ==> |EscapedChar(Escape, c)| == 2;
  }
}
