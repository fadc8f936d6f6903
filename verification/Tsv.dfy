/** The tab-separated writer of `src/batch/format.rs`, and why its rows can be told apart. */
module Tsv {
  import opened Words
  import opened Cells
  import opened Escaping

  /** The letter behind the backslash, for a character that is escaped. */
  function EscapeLetter(c: char): (r: Option<char>) {
    if c == '\\' then Some('\\')
    else if c == '\t' then Some('t')
    else if c == '\r' then Some('r')
    else if c == '\n' then Some('n')
    else if c == '\0' then Some('0')
    else if c == '\U{08}' then Some('b')
    else if c == '\U{0c}' then Some('f')
    else if c == '\'' then Some('\'')
    else None
  }

  /** The escapes of `write_tsv_escaped`. */
  function Escape(c: char): (r: Option<string>) {
    match EscapeLetter(c)
    case Some(letter) => Some(['\\', letter])
    case None => None
  }

  function TsvText(s: string): (r: string) {
    Escaped(Escape, s)
  }

  // ---------- rows ----------

  function CellText<N>(show: N -> string, cell: Value<N>): (r: string) {
    match cell
    case Null => "\\N"
    case Text(text) => TsvText(text)
    case Scalar(value) => show(value)
  }

  /** The cells from `i` on, with tabs between them and a line feed behind the last. */
  function RowText<N>(show: N -> string, row: seq<Value<N>>, i: nat): (r: string)
    requires i <= |row|
    decreases |row| - i, 0, row
  {
    if i == |row| then "\n"
    else CellText(show, row[i]) + RowRest(show, row, i)
  }

  function RowRest<N>(show: N -> string, row: seq<Value<N>>, i: nat): (r: string)
    requires i < |row|
    ensures r != "" && IsSeparator(r[0])
    decreases |row| - i - 1, 1, row
  {
    if i + 1 < |row| then "\t" + RowText(show, row, i + 1) else "\n"
  }

  function RowsText<N>(show: N -> string, rows: seq<seq<Value<N>>>): (r: string) {
    if rows == [] then "" else RowText(show, rows[0], 0) + RowsText(show, rows[1..])
  }

  method WriteTsvRow<N>(show: N -> string, output: string, row: seq<Value<N>>) returns (r: string)
    ensures r == output + RowText(show, row, 0)
  {
    r := output;
    for index := 0 to |row|
      invariant r + (if index == 0 then RowText(show, row, 0)
                     else if index < |row| then "\t" + RowText(show, row, index)
                     else "\n") == output + RowText(show, row, 0)
    {
      ghost var rest := RowRest(show, row, index);
      ghost var text := CellText(show, row[index]);
      Associates(r, "\t", text + rest);
      Associates(if index > 0 then r + "\t" else r, text, rest);
      if index > 0 {
        r := r + "\t";
      }
      match row[index] {
        case Text(value) =>
          r := WriteEscaped(Escape, r, value);
        case Null =>
          r := r + "\\N";
        case Scalar(value) =>
          r := r + show(value);
      }
    }
    r := r + "\n";
  }

  lemma RowsFrom<N>(show: N -> string, rows: seq<seq<Value<N>>>, i: nat)
    requires i < |rows|
    ensures RowsText(show, rows[i..]) == RowText(show, rows[i], 0) + RowsText(show, rows[i + 1..])
  {
    assert rows[i..][0] == rows[i] && rows[i..][1..] == rows[i + 1..];
  }

  /** `write_tsv_rows`. */
  method WriteTsvRows<N>(show: N -> string, output: string, rows: seq<seq<Value<N>>>) returns (r: string)
    ensures r == output + RowsText(show, rows)
  {
    r := output;
    assert rows[0..] == rows;
    for index := 0 to |rows|
      invariant r + RowsText(show, rows[index..]) == output + RowsText(show, rows)
    {
      RowsFrom(show, rows, index);
      Associates(r, RowText(show, rows[index], 0), RowsText(show, rows[index + 1..]));
      r := WriteTsvRow(show, r, rows[index]);
    }
    assert rows[|rows|..] == [];
    assert r + "" == r;
  }

  // ---------- unique decodability ----------

  predicate IsSeparator(c: char) {
    c == '\t' || c == '\n'
  }

  predicate NoSeparator(s: string) {
    s == "" || (!IsSeparator(s[0]) && NoSeparator(s[1..]))
  }

  predicate NoBackslash(s: string) {
    s == "" || (s[0] != '\\' && NoBackslash(s[1..]))
  }

  lemma HeadOfConcat(a: string, x: string)
    requires x != ""
    ensures (a + x)[0] == if a == "" then x[0] else a[0]
    ensures a == "" ==> a + x == x
    ensures a != "" ==> (a + x)[1..] == a[1..] + x
  {
  }

  /** Two separated texts that agree as a whole agree piece by piece. */
  lemma {:induction false} CutAtSeparator(a: string, b: string, x: string, y: string)
    requires NoSeparator(a) && NoSeparator(b)
    requires x != "" && IsSeparator(x[0]) && y != "" && IsSeparator(y[0])
    requires a + x == b + y
    ensures a == b && x == y
    decreases |a|
  {
    HeadOfConcat(a, x);
    HeadOfConcat(b, y);
    if a != "" {
      CutAtSeparator(a[1..], b[1..], x, y);
      FirstAndRest(a);
      FirstAndRest(b);
    }
  }

  lemma {:induction false} EscapedHasNoSeparator(s: string)
    ensures NoSeparator(TsvText(s))
  {
    if s != "" {
      EscapedHasNoSeparator(s[1..]);
      var first := EscapedChar(Escape, s[0]);
      assert NoSeparator(first) by {
        assert |first| > 1 ==> NoSeparator(first[1..]);
      }
    }
  }

  lemma EscapedCharsDiffer(c: char, d: char, x: string, y: string)
    requires EscapedChar(Escape, c) + x == EscapedChar(Escape, d) + y
    ensures c == d && x == y
  {
    var left, right := EscapedChar(Escape, c) + x, EscapedChar(Escape, d) + y;
    assert left[0] == EscapedChar(Escape, c)[0] && right[0] == EscapedChar(Escape, d)[0];
    if EscapeLetter(c).Some? {
      assert left[1] == EscapedChar(Escape, c)[1] && right[1] == EscapedChar(Escape, d)[1];
      assert left[2..] == x && right[2..] == y;
    } else {
      assert left[1..] == x && right[1..] == y;
    }
  }

  /** Escaping loses nothing. */
  lemma {:induction false} EscapedIsInjective(s: string, t: string)
    requires TsvText(s) == TsvText(t)
    ensures s == t
    decreases |s|
  {
    if s != "" && t != "" {
      EscapedCharsDiffer(s[0], t[0], TsvText(s[1..]), TsvText(t[1..]));
      EscapedIsInjective(s[1..], t[1..]);
      FirstAndRest(s);
      FirstAndRest(t);
    }
  }

  /** No text renders as the `NULL` token. */
  lemma NoTextIsNull(s: string)
    ensures TsvText(s) != "\\N"
  {
    if s != "" {
      var first := EscapedChar(Escape, s[0]);
      assert EscapeLetter(s[0]).Some? ==> TsvText(s)[1] == first[1] != 'N';
      assert EscapeLetter(s[0]).None? ==> TsvText(s)[0] == first[0] != '\\';
    }
  }

  /** The display texts of the scalars of one type are distinct and hold no tab, line feed or backslash. */
  ghost predicate Distinguishing<N(!new)>(kind: N -> DataType, show: N -> string) {
    && (forall n :: NoSeparator(show(n)) && NoBackslash(show(n)))
    && (forall n, m :: kind(n) == kind(m) && show(n) == show(m) ==> n == m)
  }

  /** The cell belongs to a column of the given type. */
  predicate Typed<N>(kind: N -> DataType, dataType: DataType, cell: Value<N>) {
    match cell
    case Null => true
    case Text(text) => dataType == String
    case Scalar(value) => dataType != String && kind(value) == dataType
  }

  predicate TypedRow<N>(kind: N -> DataType, columns: seq<DataType>, row: seq<Value<N>>) {
    |row| == |columns| && forall i :: 0 <= i < |row| ==> Typed(kind, columns[i], row[i])
  }

  predicate TypedRows<N>(kind: N -> DataType, columns: seq<DataType>, rows: seq<seq<Value<N>>>) {
    rows == [] || (TypedRow(kind, columns, rows[0]) && TypedRows(kind, columns, rows[1..]))
  }

  lemma CellHasNoSeparator<N(!new)>(kind: N -> DataType, show: N -> string, cell: Value<N>)
    requires Distinguishing(kind, show)
    ensures NoSeparator(CellText(show, cell))
  {
    match cell
    case Null =>
      assert "\\N"[1..] == "N" && "N"[1..] == "";
    case Text(text) =>
      EscapedHasNoSeparator(text);
    case Scalar(value) =>
  }

  lemma CellsDiffer<N(!new)>(kind: N -> DataType, show: N -> string, dataType: DataType, a: Value<N>, b: Value<N>)
    requires Distinguishing(kind, show) && Typed(kind, dataType, a) && Typed(kind, dataType, b)
    requires CellText(show, a) == CellText(show, b)
    ensures a == b
  {
    if a.Text? {
      NoTextIsNull(a.text);
    }
    if b.Text? {
      NoTextIsNull(b.text);
    }
    if a.Text? && b.Text? {
      EscapedIsInjective(a.text, b.text);
    }
    assert !NoBackslash("\\N");
  }

  lemma FirstCellsAgree<N(!new)>(kind: N -> DataType, show: N -> string, columns: seq<DataType>,
                                 a: seq<Value<N>>, b: seq<Value<N>>, i: nat, x: string, y: string)
    requires Distinguishing(kind, show) && TypedRow(kind, columns, a) && TypedRow(kind, columns, b)
    requires i < |columns| && RowText(show, a, i) + x == RowText(show, b, i) + y
    ensures a[i] == b[i] && RowRest(show, a, i) + x == RowRest(show, b, i) + y
  {
    CellHasNoSeparator(kind, show, a[i]);
    CellHasNoSeparator(kind, show, b[i]);
    Associates(CellText(show, a[i]), RowRest(show, a, i), x);
    Associates(CellText(show, b[i]), RowRest(show, b, i), y);
    CutAtSeparator(CellText(show, a[i]), CellText(show, b[i]), RowRest(show, a, i) + x, RowRest(show, b, i) + y);
    CellsDiffer(kind, show, columns[i], a[i], b[i]);
  }

  lemma SameTail(c: char, x: string, y: string)
    requires [c] + x == [c] + y
    ensures x == y
  {
    assert ([c] + x)[1..] == x && ([c] + y)[1..] == y;
  }

  lemma SameHead(c: char, a: string, b: string, x: string, y: string)
    requires [c] + a + x == [c] + b + y
    ensures a + x == b + y
  {
    assert ([c] + a + x)[1..] == a + x && ([c] + b + y)[1..] == b + y;
  }

  lemma {:induction false} RowsDiffer<N(!new)>(kind: N -> DataType, show: N -> string, columns: seq<DataType>,
                                               a: seq<Value<N>>, b: seq<Value<N>>, i: nat, x: string, y: string)
    requires Distinguishing(kind, show) && TypedRow(kind, columns, a) && TypedRow(kind, columns, b)
    requires i <= |columns| && RowText(show, a, i) + x == RowText(show, b, i) + y
    ensures a[i..] == b[i..] && x == y
    decreases |columns| - i, 0
  {
    if i == |columns| {
      SameTail('\n', x, y);
    } else {
      FirstCellsAgree(kind, show, columns, a, b, i, x, y);
      RestsAgree(kind, show, columns, a, b, i, x, y);
      assert a[i..] == [a[i]] + a[i + 1..] && b[i..] == [b[i]] + b[i + 1..];
    }
  }

  lemma {:induction false} RestsAgree<N(!new)>(kind: N -> DataType, show: N -> string, columns: seq<DataType>,
                                               a: seq<Value<N>>, b: seq<Value<N>>, i: nat, x: string, y: string)
    requires Distinguishing(kind, show) && TypedRow(kind, columns, a) && TypedRow(kind, columns, b)
    requires i < |columns| && RowRest(show, a, i) + x == RowRest(show, b, i) + y
    ensures a[i + 1..] == b[i + 1..] && x == y
    decreases |columns| - i - 1, 1
  {
    if i + 1 < |columns| {
      SameHead('\t', RowText(show, a, i + 1), RowText(show, b, i + 1), x, y);
      RowsDiffer(kind, show, columns, a, b, i + 1, x, y);
    } else {
      SameTail('\n', x, y);
    }
  }

  /** Equal output means equal rows, for any fixed column types. */
  lemma {:induction false} UniquelyDecodable<N(!new)>(kind: N -> DataType, show: N -> string, columns: seq<DataType>,
                                                      a: seq<seq<Value<N>>>, b: seq<seq<Value<N>>>)
    requires Distinguishing(kind, show) && TypedRows(kind, columns, a) && TypedRows(kind, columns, b)
    requires RowsText(show, a) == RowsText(show, b)
    ensures a == b
    decreases |a|
  {
    if a != [] && b != [] {
      RowsDiffer(kind, show, columns, a[0], b[0], 0, RowsText(show, a[1..]), RowsText(show, b[1..]));
      UniquelyDecodable(kind, show, columns, a[1..], b[1..]);
      assert a[0] == a[0][0..] == b[0][0..] == b[0];
      assert a == [a[0]] + a[1..] && b == [b[0]] + b[1..];
    }
  }
}
