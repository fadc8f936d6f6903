/** A reader of the JSON that `src/batch/format.rs` writes, defined by the string grammar of
    section 7 of RFC 8259, and why it recovers every written row. */
module JsonReading {
  import opened Words
  import opened Cells
  import opened Escaping
  import JsonEachRow

  // ---------- strings ----------

  function HexDigitValue(c: char): (r: Option<nat>) {
    if '0' <= c <= '9' then Some(c as int - '0' as int)
    else if 'a' <= c <= 'f' then Some(10 + (c as int - 'a' as int))
    else if 'A' <= c <= 'F' then Some(10 + (c as int - 'A' as int))
    else None
  }

  /** The number that hexadecimal digits denote. */
  function HexValue(s: string): (r: Option<nat>) {
    if s == "" then Some(0)
    else
      match (HexValue(s[..|s| - 1]), HexDigitValue(s[|s| - 1]))
      case (Some(high), Some(low)) => Some(16 * high + low)
      case _ => None
  }

  /** The character of a two-character escape. */
  function Unescape(letter: char): (r: Option<char>) {
    match letter
    case '"' => Some('"')
    case '\\' => Some('\\')
    case '/' => Some('/')
    case 'b' => Some(8 as char)
    case 'f' => Some(12 as char)
    case 'n' => Some(10 as char)
    case 'r' => Some(13 as char)
    case 't' => Some(9 as char)
    case _ => None
  }

  /** A code unit that is a character by itself. */
  function Character(unit: Option<nat>): (r: Option<char>) {
    if unit.Some? && (unit.value < 0xD800 || 0xE000 <= unit.value < 0x1_0000) then Some(unit.value as char) else None
  }

  /** The next character of a string and what follows it, unless the string ends there. */
  function NextChar(s: string): (r: Option<(char, string)>)
    ensures r.Some? ==> |r.value.1| < |s|
  {
    if s == "" || s[0] == '"' || s[0] as int < 0x20 then None
    else if s[0] != '\\' then Some((s[0], s[1..]))
    else if |s| < 2 then None
    else if s[1] == 'u' then
      if |s| < 6 || Character(HexValue(s[2..6])).None? then None
      else Some((Character(HexValue(s[2..6])).value, s[6..]))
    else if Unescape(s[1]).None? then None
    else Some((Unescape(s[1]).value, s[2..]))
  }

  /** The text up to the closing quotation mark, and what follows the mark. */
  function ReadString(s: string): (r: Option<(string, string)>)
    ensures r.Some? ==> |r.value.1| < |s|
    decreases |s|
  {
    if s != "" && s[0] == '"' then Some(("", s[1..]))
    else
      match NextChar(s)
      case None => None
      case Some((c, after)) =>
        match ReadString(after)
        case None => None
        case Some((text, rest)) => Some(([c] + text, rest))
  }

  lemma {:induction false} HexValueOfDigits(n: nat)
    ensures HexValue(HexDigits(n)) == Some(n)
    decreases n
  {
    if n > 0 {
      HexValueOfDigits(n / 16);
      var high, low := HexDigits(n / 16), HexDigit(n % 16);
      assert (high + [low])[..|high|] == high;
      assert HexDigitValue(low) == Some(n % 16);
    }
  }

  lemma {:induction false} LeadingZeros(k: nat, s: string)
    ensures HexValue(Repeat('0', k) + s) == HexValue(s)
    decreases |s|, k
  {
    var zeros := Repeat('0', k);
    if s != "" {
      assert (zeros + s)[..|zeros + s| - 1] == zeros + s[..|s| - 1];
      LeadingZeros(k, s[..|s| - 1]);
    } else if k > 0 {
      assert (zeros + s)[..|zeros + s| - 1] == Repeat('0', k - 1) + s;
      LeadingZeros(k - 1, s);
    } else {
      assert zeros + s == "";
    }
  }

  lemma TwoHexDigits(n: nat)
    requires n < 0x100
    ensures |HexDigits(n)| <= 2
  {
    assert HexDigits(n) == if n == 0 then "" else HexDigits(n / 16) + [HexDigit(n % 16)];
    assert HexDigits(n / 16) == if n / 16 == 0 then "" else HexDigits(0) + [HexDigit(n / 16)];
  }

  lemma Hex4Denotes(n: nat)
    requires n < 0x100
    ensures |Hex4(n)| == 4 && HexValue(Hex4(n)) == Some(n)
  {
    hide HexDigits, HexValue;
    HexValueOfDigits(n);
    TwoHexDigits(n);
    LeadingZeros(4 - |HexDigits(n)|, HexDigits(n));
  }

  /** Every written character is read back. */
  lemma WrittenChar(c: char, rest: string)
    ensures EscapedChar(JsonEachRow.Escape, c) != "" && EscapedChar(JsonEachRow.Escape, c)[0] != '"'
    ensures NextChar(EscapedChar(JsonEachRow.Escape, c) + rest) == Some((c, rest))
  {
    var text := EscapedChar(JsonEachRow.Escape, c);
    var s := text + rest;
    if JsonEachRow.Escape(c).None? {
      assert s[1..] == rest;
    } else if |text| == 2 {
      assert s[0] == text[0] && s[1] == text[1] && s[2..] == rest;
    } else {
      Hex4Denotes(c as int);
      assert s[0] == '\\' && s[1] == 'u' && s[2..6] == Hex4(c as int) && s[6..] == rest;
    }
  }

  /** Reading a written string gives the text back, whatever follows. */
  lemma {:induction false} WrittenString(s: string, rest: string)
    ensures ReadString(Escaped(JsonEachRow.Escape, s) + "\"" + rest) == Some((s, rest))
    decreases |s|
  {
    if s == "" {
      assert Escaped(JsonEachRow.Escape, s) + "\"" + rest == "\"" + rest;
      assert ("\"" + rest)[1..] == rest;
    } else {
      var first, others := EscapedChar(JsonEachRow.Escape, s[0]), Escaped(JsonEachRow.Escape, s[1..]);
      Associates(first, others, "\"");
      Associates(first, others + "\"", rest);
      WrittenChar(s[0], others + "\"" + rest);
      WrittenString(s[1..], rest);
      FirstAndRest(s);
    }
  }

  // ---------- rows ----------

  /** A JSON value as it stands: `null`, a string, or the text of a number or Boolean. */
  datatype Token = JsonNull | JsonText(text: string) | JsonBare(bare: string)

  predicate EndsBare(c: char) {
    c == ',' || c == '}'
  }

  /** The text before the first comma or closing brace. */
  function BareText(s: string): (r: string)
    ensures |r| <= |s|
  {
    if s == "" || EndsBare(s[0]) then "" else [s[0]] + BareText(s[1..])
  }

  function ReadValue(s: string): (r: Option<(Token, string)>)
    ensures r.Some? ==> |r.value.1| <= |s|
  {
    if s != "" && s[0] == '"' then
      match ReadString(s[1..])
      case None => None
      case Some((text, after)) => Some((JsonText(text), after))
    else
      var bare := BareText(s);
      Some((if bare == "null" then JsonNull else JsonBare(bare), s[|bare|..]))
  }

  /** A name, a colon and a value. */
  function ReadMember(s: string): (r: Option<((string, Token), string)>)
    ensures r.Some? ==> |r.value.1| < |s|
  {
    if s == "" || s[0] != '"' then None
    else
      match ReadString(s[1..])
      case None => None
      case Some((name, after)) =>
        if after == "" || after[0] != ':' then None
        else
          match ReadValue(after[1..])
          case None => None
          case Some((token, rest)) => Some(((name, token), rest))
  }

  /** Members with commas between them, up to the closing brace and a line feed. */
  function ReadMembers(s: string): (r: Option<(seq<(string, Token)>, string)>)
    ensures r.Some? ==> |r.value.1| < |s|
    decreases |s|
  {
    match ReadMember(s)
    case None => None
    case Some((member, after)) =>
      if |after| >= 2 && after[..2] == "}\n" then Some(([member], after[2..]))
      else if after != "" && after[0] == ',' then
        match ReadMembers(after[1..])
        case None => None
        case Some((members, rest)) => Some(([member] + members, rest))
      else None
  }

  /** An object on a line of its own, as its members in order. */
  function ReadRow(s: string): (r: Option<(seq<(string, Token)>, string)>)
    ensures r.Some? ==> |r.value.1| < |s|
  {
    if s == "" || s[0] != '{' then None
    else if |s| >= 3 && s[1..3] == "}\n" then Some(([], s[3..]))
    else ReadMembers(s[1..])
  }

  function ReadRows(s: string): (r: Option<seq<seq<(string, Token)>>>)
    decreases |s|
  {
    if s == "" then Some([])
    else
      match ReadRow(s)
      case None => None
      case Some((row, rest)) =>
        match ReadRows(rest)
        case None => None
        case Some(rows) => Some([row] + rows)
  }

  // ---------- what is read back ----------

  predicate IsBare(s: string) {
    s == "" || (!EndsBare(s[0]) && IsBare(s[1..]))
  }

  /** Scalars print as bare texts that are neither `null` nor quoted. */
  ghost predicate PrintsBare<N(!new)>(show: N -> string) {
    forall n :: IsBare(show(n)) && show(n) != "null" && show(n) != "" && show(n)[0] != '"'
  }

  /** What a cell should be read as. */
  function TokenOf<N>(show: N -> string, cell: Value<N>): (r: Token) {
    match cell
    case Null => JsonNull
    case Text(text) => JsonText(text)
    case Scalar(value) => JsonBare(show(value))
  }

  function MembersOf<N>(show: N -> string, names: seq<string>, row: seq<Value<N>>, i: nat): (r: seq<(string, Token)>)
    requires i <= |row| <= |names|
    ensures |r| == |row| - i
    decreases |row| - i
  {
    if i == |row| then [] else [(names[i], TokenOf(show, row[i]))] + MembersOf(show, names, row, i + 1)
  }

  lemma {:induction false} BareTextOf(bare: string, rest: string)
    requires IsBare(bare) && rest != "" && EndsBare(rest[0])
    ensures BareText(bare + rest) == bare
    decreases |bare|
  {
    if bare == "" {
      assert bare + rest == rest;
    } else {
      assert (bare + rest)[0] == bare[0] && (bare + rest)[1..] == bare[1..] + rest;
      BareTextOf(bare[1..], rest);
      FirstAndRest(bare);
    }
  }

  /** Reading a written value gives its cell, up to the comma or brace that follows. */
  lemma WrittenValue<N(!new)>(show: N -> string, cell: Value<N>, rest: string)
    requires PrintsBare(show) && rest != "" && EndsBare(rest[0])
    ensures ReadValue(JsonEachRow.JsonValue(show, cell) + rest) == Some((TokenOf(show, cell), rest))
  {
    hide ReadString;
    var text := JsonEachRow.JsonValue(show, cell);
    match cell
    case Text(t) =>
      WrittenString(t, rest);
      assert (text + rest)[1..] == Escaped(JsonEachRow.Escape, t) + "\"" + rest;
    case Null =>
      assert "null"[1..] == "ull" && "ull"[1..] == "ll" && "ll"[1..] == "l" && "l"[1..] == "";
      BareTextOf(text, rest);
      assert (text + rest)[|text|..] == rest;
    case Scalar(value) =>
      assert IsBare(show(value));
      BareTextOf(text, rest);
      assert (text + rest)[|text|..] == rest && (text + rest)[0] == text[0];
  }

  lemma MemberShape(escaped: string, value: string, rest: string)
    ensures var s := "\"" + escaped + "\"" + ":" + value + rest;
      s != "" && s[0] == '"' && s[1..] == escaped + "\"" + (":" + value + rest)
  {
  }

  lemma AfterFirst(c: char, rest: string)
    ensures [c] + rest != "" && ([c] + rest)[0] == c && ([c] + rest)[1..] == rest
  {
  }

  lemma WrittenMember<N(!new)>(show: N -> string, name: string, cell: Value<N>, rest: string)
    requires PrintsBare(show) && rest != "" && EndsBare(rest[0])
    ensures ReadMember(JsonEachRow.JsonString(name) + ":" + JsonEachRow.JsonValue(show, cell) + rest)
         == Some(((name, TokenOf(show, cell)), rest))
  {
    hide ReadString, ReadValue, PrintsBare, Escaped, JsonEachRow.JsonValue, TokenOf, EndsBare;
    var value := JsonEachRow.JsonValue(show, cell);
    WrittenValue(show, cell, rest);
    WrittenString(name, ":" + value + rest);
    MemberShape(Escaped(JsonEachRow.Escape, name), value, rest);
    Associates(":", value, rest);
    AfterFirst(':', value + rest);
  }

  /** One member and what follows it. */
  function MemberThen<N>(show: N -> string, names: seq<string>, row: seq<Value<N>>, i: nat, rest: string): (r: string)
    requires i < |row| <= |names|
    ensures r != "" && r[0] == '"'
  {
    JsonEachRow.JsonString(names[i]) + ":" + JsonEachRow.JsonValue(show, row[i]) + rest
  }

  /** What follows the member before `i`. */
  function Following<N>(show: N -> string, names: seq<string>, row: seq<Value<N>>, i: nat, rest: string): (r: string)
    requires i <= |row| <= |names|
    decreases |row| - i
  {
    if i == |row| then "}\n" + rest
    else "," + MemberThen(show, names, row, i, Following(show, names, row, i + 1, rest))
  }

  lemma CommaFirst(name: string, value: string, members: string, rest: string)
    ensures "," + name + ":" + value + members + "}\n" + rest == "," + (name + ":" + value + (members + "}\n" + rest))
  {
    assert "," + name + ":" + value == "," + (name + ":" + value);
    Associates(",", name + ":" + value, members);
    Associates("," + (name + ":" + value) + members, "}\n", rest);
    Associates("," + (name + ":" + value), members, "}\n" + rest);
    Associates(",", name + ":" + value, members + ("}\n" + rest));
    Associates(members, "}\n", rest);
  }

  lemma {:induction false} FollowingIsWritten<N>(show: N -> string, names: seq<string>, row: seq<Value<N>>, i: nat,
                                                 rest: string)
    requires 0 < i <= |row| <= |names|
    ensures JsonEachRow.MembersFrom(show, names, row, i) + "}\n" + rest == Following(show, names, row, i, rest)
    decreases |row| - i
  {
    hide JsonEachRow.JsonString, JsonEachRow.JsonValue;
    if i == |row| {
      assert "" + "}\n" == "}\n";
    } else {
      FollowingIsWritten(show, names, row, i + 1, rest);
      CommaFirst(JsonEachRow.JsonString(names[i]), JsonEachRow.JsonValue(show, row[i]),
                 JsonEachRow.MembersFrom(show, names, row, i + 1), rest);
    }
  }

  lemma LineEnd(rest: string)
    ensures |"}\n" + rest| >= 2 && ("}\n" + rest)[..2] == "}\n" && ("}\n" + rest)[2..] == rest
    ensures ("}\n" + rest)[0] == '}'
  {
  }

  lemma {:induction false} MembersAreRead<N(!new)>(show: N -> string, names: seq<string>, row: seq<Value<N>>, i: nat,
                                                   rest: string)
    requires PrintsBare(show) && i < |row| <= |names|
    ensures ReadMembers(MemberThen(show, names, row, i, Following(show, names, row, i + 1, rest)))
         == Some((MembersOf(show, names, row, i), rest))
    decreases |row| - i
  {
    hide ReadMember, PrintsBare, JsonEachRow.JsonString, JsonEachRow.JsonValue, TokenOf;
    var after := Following(show, names, row, i + 1, rest);
    if i + 1 == |row| {
      LineEnd(rest);
      WrittenMember(show, names[i], row[i], after);
      var member := (names[i], TokenOf(show, row[i]));
      assert MembersOf(show, names, row, i + 1) == [] && [member] + [] == [member];
    } else {
      var next := MemberThen(show, names, row, i + 1, Following(show, names, row, i + 2, rest));
      AfterFirst(',', next);
      WrittenMember(show, names[i], row[i], after);
      MembersAreRead(show, names, row, i + 1, rest);
      hide MemberThen;
    }
  }

  lemma FirstMember(name: string, value: string, members: string, rest: string)
    ensures "{" + ("" + name + ":" + value + members) + "}\n" + rest
         == "{" + (name + ":" + value + (members + "}\n" + rest))
  {
    assert "" + name == name;
    Associates("{", name + ":" + value + members, "}\n");
    Associates("{", name + ":" + value + members + "}\n", rest);
    Associates(name + ":" + value, members, "}\n");
    Associates(name + ":" + value, members + "}\n", rest);
  }

  lemma EmptyRow(rest: string)
    ensures "{" + "" + "}\n" + rest == "{}\n" + rest
    ensures ("{}\n" + rest)[0] == '{' && ("{}\n" + rest)[1..3] == "}\n" && ("{}\n" + rest)[3..] == rest
  {
  }

  lemma RowTextShape<N>(show: N -> string, names: seq<string>, row: seq<Value<N>>, rest: string)
    requires 0 < |row| <= |names|
    ensures JsonEachRow.RowText(show, names, row) + rest
         == "{" + MemberThen(show, names, row, 0, Following(show, names, row, 1, rest))
  {
    hide JsonEachRow.JsonString, JsonEachRow.JsonValue, Following;
    FollowingIsWritten(show, names, row, 1, rest);
    FirstMember(JsonEachRow.JsonString(names[0]), JsonEachRow.JsonValue(show, row[0]),
                JsonEachRow.MembersFrom(show, names, row, 1), rest);
  }

  lemma ObjectIsRead(members: string)
    requires members != "" && members[0] == '"'
    ensures ReadRow("{" + members) == ReadMembers(members)
  {
    hide ReadMembers;
    AfterFirst('{', members);
    assert ("{" + members)[1] == '"';
  }

  /** Reading a written row gives its names and cells, in order. */
  lemma WrittenRow<N(!new)>(show: N -> string, names: seq<string>, row: seq<Value<N>>, rest: string)
    requires PrintsBare(show) && |row| <= |names|
    ensures ReadRow(JsonEachRow.RowText(show, names, row) + rest) == Some((MembersOf(show, names, row, 0), rest))
  {
    if row == [] {
      EmptyRow(rest);
    } else {
      hide ReadRow, PrintsBare, MemberThen, Following, JsonEachRow.RowText, MembersOf, ReadMembers;
      RowTextShape(show, names, row, rest);
      ObjectIsRead(MemberThen(show, names, row, 0, Following(show, names, row, 1, rest)));
      MembersAreRead(show, names, row, 0, rest);
    }
  }

  /** The rows as members, in order. */
  function RowsOf<N>(show: N -> string, names: seq<string>, rows: seq<seq<Value<N>>>): (r: seq<seq<(string, Token)>>)
    requires JsonEachRow.NoWider(names, rows)
    ensures |r| == |rows|
  {
    if rows == [] then [] else [MembersOf(show, names, rows[0], 0)] + RowsOf(show, names, rows[1..])
  }

  /** The output is a JSON object per row, on a line of its own, with the columns' names in order
      and the row's cells as their values. */
  lemma {:induction false} OutputIsReadBack<N(!new)>(show: N -> string, names: seq<string>, rows: seq<seq<Value<N>>>)
    requires PrintsBare(show) && JsonEachRow.NoWider(names, rows)
    ensures ReadRows(JsonEachRow.RowsText(show, names, rows)) == Some(RowsOf(show, names, rows))
    decreases |rows|
  {
    hide ReadRow, MembersOf, JsonEachRow.RowText, PrintsBare;
    if rows != [] {
      OutputIsReadBack(show, names, rows[1..]);
      WrittenRow(show, names, rows[0], JsonEachRow.RowsText(show, names, rows[1..]));
    }
  }

  /** The members of a row: each name with its cell, `null` for NULL and text as text. */
  lemma {:induction false} MembersMean<N>(show: N -> string, names: seq<string>, row: seq<Value<N>>, i: nat, k: nat)
    requires i <= k < |row| <= |names|
    ensures MembersOf(show, names, row, i)[k - i] == (names[k], TokenOf(show, row[k]))
    decreases k - i
  {
    hide TokenOf;
    if i < k {
      MembersMean(show, names, row, i + 1, k);
    }
  }

  /** Only quotation marks, backslashes and control characters are escaped. */
  lemma PlainCharacters(c: char)
    ensures EscapedChar(JsonEachRow.Escape, c) == [c] <==>
      c != '"' && c != '\\' && 0x20 <= c as int && !(0x7F <= c as int <= 0x9F)
  {
    var text := EscapedChar(JsonEachRow.Escape, c);
    assert JsonEachRow.Escape(c).Some? ==> |text| >= 2;
  }
}
