/** The JSONEachRow writer of `src/batch/format.rs` and its exact sizing. */
module JsonEachRow {
  import opened Words
  import opened Cells
  import opened Escaping

  /** The escapes of `write_json_string`. */
  function Escape(c: char): (r: Option<string>) {
    if c == '"' then Some("\\\"")
    else if c == '\\' then Some("\\\\")
    else if c == '\U{08}' then Some("\\b")
    else if c == '\U{0c}' then Some("\\f")
    else if c == '\n' then Some("\\n")
    else if c == '\r' then Some("\\r")
    else if c == '\t' then Some("\\t")
    else if IsControl(c) then Some("\\u" + Hex4(c as int))
    else None
  }

  function JsonString(s: string): (r: string) {
    "\"" + Escaped(Escape, s) + "\""
  }

  function JsonValue<N>(show: N -> string, cell: Value<N>): (r: string) {
    match cell
    case Null => "null"
    case Text(text) => JsonString(text)
    case Scalar(value) => show(value)
  }

  // ---------- the text ----------

  function Member<N>(show: N -> string, names: seq<string>, row: seq<Value<N>>, i: nat): (r: string)
    requires i < |row| <= |names|
  {
    (if i > 0 then "," else "") + JsonString(names[i]) + ":" + JsonValue(show, row[i])
  }

  function MembersFrom<N>(show: N -> string, names: seq<string>, row: seq<Value<N>>, i: nat): (r: string)
    requires i <= |row| <= |names|
    decreases |row| - i, row
  {
    if i == |row| then "" else Member(show, names, row, i) + MembersFrom(show, names, row, i + 1)
  }

  function RowText<N>(show: N -> string, names: seq<string>, row: seq<Value<N>>): (r: string)
    requires |row| <= |names|
  {
    "{" + MembersFrom(show, names, row, 0) + "}\n"
  }

  /** No row has more cells than there are columns; shorter rows are allowed. */
  predicate NoWider<N>(names: seq<string>, rows: seq<seq<Value<N>>>) {
    rows == [] || (|rows[0]| <= |names| && NoWider(names, rows[1..]))
  }

  function RowsText<N>(show: N -> string, names: seq<string>, rows: seq<seq<Value<N>>>): (r: string)
    requires NoWider(names, rows)
  {
    if rows == [] then "" else RowText(show, names, rows[0]) + RowsText(show, names, rows[1..])
  }

  // ---------- sizes of strings and values ----------

  /** What `json_string_rendered_bytes` counts for one character. */
  function CharBytes(c: char): (r: nat) {
    if c == '"' || c == '\\' || c == '\U{08}' || c == '\U{0c}' || c == '\n' || c == '\r' || c == '\t' then 2
    else if IsControl(c) then (if SignificantHexDigits(c as int) < 4 then 4 else SignificantHexDigits(c as int)) + 2
    else Utf8Len(c)
  }

  lemma CharCounted(c: char)
    ensures CharBytes(c) == Utf8Bytes(EscapedChar(Escape, c))
  {
    var text := EscapedChar(Escape, c);
    if c == '"' || c == '\\' || c == '\U{08}' || c == '\U{0c}' || c == '\n' || c == '\r' || c == '\t' {
      assert text == [text[0], text[1]];
      RepeatAscii(text);
      AsciiBytes(text);
    } else if IsControl(c) {
      HexDigitCount(c as int);
      Hex4Ascii(c as int);
      RepeatAscii("\\u");
      AsciiConcat("\\u", Hex4(c as int));
      AsciiBytes(text);
    } else {
      assert [c][1..] == "";
    }
  }

  /** What is counted for the characters from `i` on. */
  function CharsBytes(s: string, i: nat): (r: nat)
    requires i <= |s|
    decreases |s| - i, s
  {
    if i == |s| then 0 else CharBytes(s[i]) + CharsBytes(s, i + 1)
  }

  /** The fold of `json_string_rendered_bytes` from the character `i` on. */
  function StringFold(s: string, i: nat, bytes: usize): (r: Option<usize>)
    requires i <= |s|
    ensures r == Exact(bytes + CharsBytes(s, i))
    decreases |s| - i, s
  {
    if i == |s| then Some(bytes)
    else
      match CheckedAdd(bytes, CharBytes(s[i]))
      case None => None
      case Some(next) => StringFold(s, i + 1, next)
  }

  lemma {:induction false} CharsCounted(s: string, i: nat)
    requires i <= |s|
    ensures CharsBytes(s, i) == Utf8Bytes(Escaped(Escape, s[i..]))
    decreases |s| - i
  {
    if i < |s| {
      CharsCounted(s, i + 1);
      assert s[i..][1..] == s[i + 1..];
      CharCounted(s[i]);
      Utf8Concat(EscapedChar(Escape, s[i]), Escaped(Escape, s[i + 1..]));
    }
  }

  lemma JsonStringBytes(s: string)
    ensures Utf8Bytes(JsonString(s)) == 2 + Utf8Bytes(Escaped(Escape, s))
  {
    Utf8Concat("\"", Escaped(Escape, s));
    Utf8Concat("\"" + Escaped(Escape, s), "\"");
  }

  /** `json_string_rendered_bytes`. */
  function StringBytes(s: string): (r: Option<usize>)
    ensures r == Exact(Utf8Bytes(JsonString(s)))
  {
    JsonStringBytes(s);
    CharsCounted(s, 0);
    assert s[0..] == s;
    StringFold(s, 0, 2)
  }

  /** `json_value_rendered_bytes`. */
  function ValueBytes<N>(show: N -> string, cell: Value<N>): (r: Option<usize>)
    ensures r == Exact(Utf8Bytes(JsonValue(show, cell)))
  {
    match cell
    case Null =>
      RepeatAscii("null");
      AsciiBytes("null");
      Some(4)
    case Text(text) => StringBytes(text)
    case Scalar(value) => Exact(Utf8Bytes(show(value)))
  }

  // ---------- sizes of rows ----------

  /** The bytes of the first `n` member names, with their commas and colons. */
  function NamesBytes(names: seq<string>, n: nat): (r: nat)
    requires n <= |names|
  {
    if n == 0 then 0
    else NamesBytes(names, n - 1) + (if n > 1 then 1 else 0) + Utf8Bytes(JsonString(names[n - 1])) + 1
  }

  function ValuesBytes<N>(show: N -> string, row: seq<Value<N>>, i: nat): (r: nat)
    requires i <= |row|
    decreases |row| - i, row
  {
    if i == |row| then 0 else Utf8Bytes(JsonValue(show, row[i])) + ValuesBytes(show, row, i + 1)
  }

  lemma MemberBytes<N>(show: N -> string, names: seq<string>, row: seq<Value<N>>, i: nat)
    requires i < |row| <= |names|
    ensures NamesBytes(names, i) + Utf8Bytes(Member(show, names, row, i))
         == NamesBytes(names, i + 1) + Utf8Bytes(JsonValue(show, row[i]))
  {
    var comma := if i > 0 then "," else "";
    Utf8Concat(comma, JsonString(names[i]));
    Utf8Concat(comma + JsonString(names[i]), ":");
    Utf8Concat(comma + JsonString(names[i]) + ":", JsonValue(show, row[i]));
  }

  lemma {:induction false} MembersBytes<N>(show: N -> string, names: seq<string>, row: seq<Value<N>>, i: nat)
    requires i <= |row| <= |names|
    ensures NamesBytes(names, i) + Utf8Bytes(MembersFrom(show, names, row, i))
         == NamesBytes(names, |row|) + ValuesBytes(show, row, i)
    decreases |row| - i
  {
    if i < |row| {
      MembersBytes(show, names, row, i + 1);
      MemberBytes(show, names, row, i);
      Utf8Concat(Member(show, names, row, i), MembersFrom(show, names, row, i + 1));
    }
  }

  lemma RowTextBytes<N>(show: N -> string, names: seq<string>, row: seq<Value<N>>)
    requires |row| <= |names|
    ensures Utf8Bytes(RowText(show, names, row)) == 3 + NamesBytes(names, |row|) + ValuesBytes(show, row, 0)
  {
    MembersBytes(show, names, row, 0);
    RepeatAscii("}\n");
    AsciiBytes("}\n");
    Utf8Concat("{", MembersFrom(show, names, row, 0));
    Utf8Concat("{" + MembersFrom(show, names, row, 0), "}\n");
  }

  lemma {:induction false} NamesMonotone(names: seq<string>, m: nat, n: nat)
    requires m <= n <= |names|
    ensures NamesBytes(names, m) <= NamesBytes(names, n)
    decreases n - m
  {
    if m < n {
      NamesMonotone(names, m, n - 1);
    }
  }

  // ---------- the sizing pass ----------

  /** The longest row. */
  function EmittedColumns<N>(rows: seq<seq<Value<N>>>): (r: nat)
  {
    if rows == [] then 0
    else
      var rest := EmittedColumns(rows[1..]);
      if |rows[0]| >= rest then |rows[0]| else rest
  }

  /** The prefix sums over the member names. */
  method MemberPrefixBytes(names: seq<string>, emitted: nat) returns (r: Option<seq<usize>>)
    requires emitted <= |names|
    ensures r.None? ==> NamesBytes(names, emitted) >= U64_LIMIT
    ensures r.Some? ==> |r.value| == emitted + 1 && forall n :: 0 <= n <= emitted ==> r.value[n] == NamesBytes(names, n)
  {
    hide Utf8Bytes, JsonString, StringBytes;
    var prefixes: seq<usize> := [0];
    for column := 0 to emitted
      invariant |prefixes| == column + 1 && forall n :: 0 <= n <= column ==> prefixes[n] == NamesBytes(names, n)
    {
      var comma := if column > 0 then 1 else 0;
      var bytes := Plus(Plus(CheckedAdd(prefixes[column], comma), StringBytes(names[column])), Some(1));
      NamesMonotone(names, column + 1, emitted);
      if bytes.None? {
        return None;
      }
      prefixes := prefixes + [bytes.value];
    }
    return Some(prefixes);
  }

  /** The value fold of one row, from the cell `i` on. */
  function ValuesFold<N>(show: N -> string, row: seq<Value<N>>, i: nat, bytes: usize): (r: Option<usize>)
    requires i <= |row|
    ensures r == Exact(bytes + ValuesBytes(show, row, i))
    decreases |row| - i, row
  {
    if i == |row| then Some(bytes)
    else
      match Plus(Some(bytes), ValueBytes(show, row[i]))
      case None => None
      case Some(next) => ValuesFold(show, row, i + 1, next)
  }

  /** The size of one row. */
  function RowBytes<N>(show: N -> string, names: seq<string>, prefixes: seq<usize>, row: seq<Value<N>>)
      : (r: Option<usize>)
    requires |row| < |prefixes| <= |names| + 1 && prefixes[|row|] == NamesBytes(names, |row|)
  {
    var start := CheckedAdd(3, prefixes[|row|]);
    if start.None? then None else ValuesFold(show, row, 0, start.value)
  }

  lemma {:induction false} NoWiderMeans<N>(names: seq<string>, rows: seq<seq<Value<N>>>)
    ensures NoWider(names, rows) <==> EmittedColumns(rows) <= |names|
    decreases |rows|
  {
    if rows != [] {
      NoWiderMeans(names, rows[1..]);
    }
  }

  /** The longest row carries all the emitted names. */
  lemma {:induction false} NamesAreEmitted<N>(show: N -> string, names: seq<string>, rows: seq<seq<Value<N>>>)
    requires NoWider(names, rows) && EmittedColumns(rows) <= |names|
    ensures NamesBytes(names, EmittedColumns(rows)) <= Utf8Bytes(RowsText(show, names, rows))
    decreases |rows|
  {
    if rows != [] {
      NamesAreEmitted(show, names, rows[1..]);
      RowTextBytes(show, names, rows[0]);
      Utf8Concat(RowText(show, names, rows[0]), RowsText(show, names, rows[1..]));
    }
  }

  lemma RowsFrom<N>(show: N -> string, names: seq<string>, rows: seq<seq<Value<N>>>, i: nat)
    requires i < |rows| && NoWider(names, rows[i..])
    ensures |rows[i]| <= |names| && NoWider(names, rows[i + 1..])
    ensures RowsText(show, names, rows[i..]) == RowText(show, names, rows[i]) + RowsText(show, names, rows[i + 1..])
    ensures Utf8Bytes(RowsText(show, names, rows[i..]))
         == Utf8Bytes(RowText(show, names, rows[i])) + Utf8Bytes(RowsText(show, names, rows[i + 1..]))
  {
    assert rows[i..][0] == rows[i] && rows[i..][1..] == rows[i + 1..];
    Utf8Concat(RowText(show, names, rows[i]), RowsText(show, names, rows[i + 1..]));
  }

  /** `json_each_row_rendered_bytes`: nothing when a row is wider than the columns, and the exact
      size of the output, as far as it is a `usize`, otherwise. */
  method RenderedBytes<N>(show: N -> string, names: seq<string>, rows: seq<seq<Value<N>>>) returns (r: Option<usize>)
    requires |names| <= ISIZE_MAX
    ensures !NoWider(names, rows) ==> r.None?
    ensures NoWider(names, rows) ==> r == Exact(Utf8Bytes(RowsText(show, names, rows)))
  {
    NoWiderMeans(names, rows);
    var emitted := EmittedColumns(rows);
    if emitted > |names| {
      return None;
    }
    NamesAreEmitted(show, names, rows);
    var prefixes := MemberPrefixBytes(names, emitted);
    if prefixes.None? {
      return None;
    }
    r := SumRows(show, names, prefixes.value, rows);
  }

  method SumRows<N>(show: N -> string, names: seq<string>, prefixes: seq<usize>, rows: seq<seq<Value<N>>>)
    returns (r: Option<usize>)
    requires NoWider(names, rows) && EmittedColumns(rows) < |prefixes| <= |names| + 1
    requires forall n :: 0 <= n < |prefixes| ==> prefixes[n] == NamesBytes(names, n)
    ensures r == Exact(Utf8Bytes(RowsText(show, names, rows)))
  {
    var bytes: usize := 0;
    assert rows[0..] == rows;
    for i := 0 to |rows|
      invariant NoWider(names, rows[i..]) && EmittedColumns(rows[i..]) < |prefixes|
      invariant bytes + Utf8Bytes(RowsText(show, names, rows[i..])) == Utf8Bytes(RowsText(show, names, rows))
    {
      RowsFrom(show, names, rows, i);
      EmittedFrom(rows, i);
      RowTextBytes(show, names, rows[i]);
      var next := Plus(Some(bytes), RowBytes(show, names, prefixes, rows[i]));
      if next.None? {
        return None;
      }
      bytes := next.value;
    }
    assert rows[|rows|..] == [];
    return Some(bytes);
  }

  lemma EmittedFrom<N>(rows: seq<seq<Value<N>>>, i: nat)
    requires i < |rows|
    ensures |rows[i]| <= EmittedColumns(rows[i..]) && EmittedColumns(rows[i + 1..]) <= EmittedColumns(rows[i..])
  {
    assert rows[i..][0] == rows[i] && rows[i..][1..] == rows[i + 1..];
  }

  // ---------- the streaming pass ----------

  method WriteString(output: string, s: string) returns (r: string)
    ensures r == output + JsonString(s)
  {
    r := output + "\"";
    r := WriteEscaped(Escape, r, s);
    Associates(output, "\"", Escaped(Escape, s));
    Associates(output, "\"" + Escaped(Escape, s), "\"");
    r := r + "\"";
  }

  method WriteMember<N>(show: N -> string, output: string, names: seq<string>, row: seq<Value<N>>, i: nat)
    returns (r: string)
    requires i < |row| <= |names|
    ensures r == output + Member(show, names, row, i)
  {
    r := output;
    if i > 0 {
      r := r + ",";
    }
    ghost var comma := if i > 0 then "," else "";
    assert output + comma == r;
    r := WriteString(r, names[i]);
    r := r + ":";
    match row[i] {
      case Null => r := r + "null";
      case Text(text) => r := WriteString(r, text);
      case Scalar(value) => r := r + show(value);
    }
    MemberParts(output, comma, JsonString(names[i]), ":", JsonValue(show, row[i]));
  }

  lemma MemberParts(output: string, a: string, b: string, c: string, d: string)
    ensures output + a + b + c + d == output + (a + b + c + d)
  {
    Associates(output, a, b);
    Associates(output, a + b, c);
    Associates(output, a + b + c, d);
  }

  method WriteRow<N>(show: N -> string, output: string, names: seq<string>, row: seq<Value<N>>) returns (r: string)
    requires |row| <= |names|
    ensures r == output + RowText(show, names, row)
  {
    ghost var members := MembersFrom(show, names, row, 0);
    r := output + "{";
    for i := 0 to |row|
      invariant r + MembersFrom(show, names, row, i) == output + "{" + members
    {
      Associates(r, Member(show, names, row, i), MembersFrom(show, names, row, i + 1));
      r := WriteMember(show, r, names, row, i);
    }
    assert r + "" == r;
    Associates(output, "{", members);
    Associates(output, "{" + members, "}\n");
    r := r + "}\n";
  }

  /** `write_json_each_row_with_limit` into a buffer; the error is the size reported as over the
      bound. Nothing is written of a result that is over the bound or has too wide a row. */
  method Write<N>(show: N -> string, output: string, names: seq<string>, rows: seq<seq<Value<N>>>, maxBytes: usize)
      returns (r: string, overLimit: Option<usize>)
    requires |names| <= ISIZE_MAX
    ensures !NoWider(names, rows) ==> r == output && overLimit == Some(SaturatingAdd(maxBytes, 1))
    ensures NoWider(names, rows) ==>
      var text := RowsText(show, names, rows);
      if Utf8Bytes(text) <= maxBytes then overLimit == None && r == output + text
      else
        && r == output
        && overLimit == Some(if Utf8Bytes(text) < U64_LIMIT then Utf8Bytes(text) else SaturatingAdd(maxBytes, 1))
  {
    var outputBytes := RenderedBytes(show, names, rows);
    if outputBytes.None? {
      return output, Some(SaturatingAdd(maxBytes, 1));
    }
    if outputBytes.value > maxBytes {
      return output, Some(outputBytes.value);
    }
    r := output;
    overLimit := None;
    assert rows[0..] == rows;
    for i := 0 to |rows|
      invariant NoWider(names, rows[i..])
      invariant r + RowsText(show, names, rows[i..]) == output + RowsText(show, names, rows)
    {
      RowsFrom(show, names, rows, i);
      Associates(r, RowText(show, names, rows[i]), RowsText(show, names, rows[i + 1..]));
      r := WriteRow(show, r, names, rows[i]);
    }
    assert rows[|rows|..] == [];
    assert r + "" == r;
  }
}
