/** What the text writers of `src/batch/format.rs` share: character escapes, UTF-8 sizes and
    checked byte counts. */
module Escaping {
  import opened Words

  /** `char::len_utf8`. */
  function Utf8Len(c: char): (r: nat)
    ensures 1 <= r <= 4
  {
    if c as int < 0x80 then 1 else if c as int < 0x800 then 2 else if c as int < 0x1_0000 then 3 else 4
  }

  /** The number of bytes of a text. */
  function Utf8Bytes(s: string): (r: nat)
    ensures |s| <= r
  {
    if s == "" then 0 else Utf8Len(s[0]) + Utf8Bytes(s[1..])
  }

  lemma {:induction false} Utf8Concat(a: string, b: string)
    ensures Utf8Bytes(a + b) == Utf8Bytes(a) + Utf8Bytes(b)
    decreases |a|
  {
    if a == "" {
      assert a + b == b;
    } else {
      assert (a + b)[1..] == a[1..] + b;
      Utf8Concat(a[1..], b);
    }
  }

  predicate Ascii(s: string) {
    s == "" || (s[0] as int < 0x80 && Ascii(s[1..]))
  }

  lemma {:induction false} AsciiBytes(s: string)
    requires Ascii(s)
    ensures Utf8Bytes(s) == |s|
  {
    if s != "" {
      AsciiBytes(s[1..]);
    }
  }

  lemma {:induction false} AsciiConcat(a: string, b: string)
    requires Ascii(a) && Ascii(b)
    ensures Ascii(a + b)
    decreases |a|
  {
    if a == "" {
      assert a + b == b;
    } else {
      assert (a + b)[1..] == a[1..] + b;
      AsciiConcat(a[1..], b);
    }
  }

  // ---------- hexadecimal escapes ----------

  /** `char::is_control`: the general category Cc. */
  predicate IsControl(c: char) {
    (c as int) < 0x20 || 0x7F <= c as int < 0xA0
  }

  function HexDigit(n: nat): (r: char)
    requires n < 16
  {
    "0123456789abcdef"[n]
  }

  /** The hexadecimal digits of `n`, none for zero. */
  function HexDigits(n: nat): (r: string)
  {
    if n == 0 then "" else HexDigits(n / 16) + [HexDigit(n % 16)]
  }

  /** `{:04x}`. */
  function Hex4(n: nat): (r: string)
    ensures |r| == if |HexDigits(n)| < 4 then 4 else |HexDigits(n)|
  {
    if |HexDigits(n)| < 4 then Repeat('0', 4 - |HexDigits(n)|) + HexDigits(n) else HexDigits(n)
  }

  lemma Hex4WrittenOut()
    ensures Hex4(0x1B) == "001b" && Hex4(0x9F) == "009f"
  {
    assert HexDigits(0x1) == "" + "1" && HexDigits(0x9) == "" + "9";
    assert HexDigits(0x1B) == "1" + "b" && HexDigits(0x9F) == "9" + "f";
    assert Repeat('0', 2) == "00";
  }

  /** `u32::BITS - n.leading_zeros()`. */
  function BitLength(n: nat): (r: nat)
    decreases n
  {
    if n == 0 then 0 else 1 + BitLength(n / 2)
  }

  /** `(u32::BITS - n.leading_zeros()).div_ceil(4)`. */
  function SignificantHexDigits(n: nat): (r: nat) {
    (BitLength(n) + 3) / 4
  }

  lemma FourBits(n: nat)
    requires n >= 16
    ensures BitLength(n) == 4 + BitLength(n / 16)
  {
    var a, b := n / 2, n / 2 / 2;
    var c := b / 2;
    assert BitLength(n) == 1 + BitLength(a) && BitLength(a) == 1 + BitLength(b);
    assert BitLength(b) == 1 + BitLength(c) && BitLength(c) == 1 + BitLength(c / 2);
    assert c / 2 == n / 16;
  }

  lemma SmallBits(n: nat)
    requires 0 < n < 16
    ensures 1 <= BitLength(n) <= 4
  {
    var a, b := n / 2, n / 2 / 2;
    assert BitLength(n) == 1 + BitLength(a);
    assert a > 0 ==> BitLength(a) == 1 + BitLength(b);
    assert b > 0 ==> BitLength(b) == 1 + BitLength(b / 2);
    assert b / 2 > 0 ==> b / 2 == 1 && BitLength(b / 2) == 1 + BitLength(b / 2 / 2);
  }

  /** The digit count taken from the bit length is the number of digits written. */
  lemma {:induction false} HexDigitCount(n: nat)
    ensures |HexDigits(n)| == SignificantHexDigits(n)
    decreases n
  {
    if n >= 16 {
      HexDigitCount(n / 16);
      FourBits(n);
    } else if n > 0 {
      assert n / 16 == 0;
      SmallBits(n);
      assert |HexDigits(n)| == |HexDigits(0)| + 1;
    }
  }

  lemma {:induction false} HexDigitsAscii(n: nat)
    ensures Ascii(HexDigits(n))
    decreases n
  {
    if n > 0 {
      HexDigitsAscii(n / 16);
      var last := [HexDigit(n % 16)];
      assert last[1..] == "";
      AsciiConcat(HexDigits(n / 16), last);
    }
  }

  lemma {:induction false} RepeatAscii(s: string)
    requires forall i :: 0 <= i < |s| ==> (s[i] as int) < 0x80
    ensures Ascii(s)
  {
    if s != "" {
      RepeatAscii(s[1..]);
    }
  }

  lemma Hex4Ascii(n: nat)
    ensures Ascii(Hex4(n))
  {
    HexDigitsAscii(n);
    if |HexDigits(n)| < 4 {
      RepeatAscii(Repeat('0', 4 - |HexDigits(n)|));
      AsciiConcat(Repeat('0', 4 - |HexDigits(n)|), HexDigits(n));
    }
  }

  // ---------- escaping a text ----------

  function EscapedChar(escape: char -> Option<string>, c: char): (r: string) {
    match escape(c)
    case Some(text) => text
    case None => [c]
  }

  function Escaped(escape: char -> Option<string>, s: string): (r: string) {
    if s == "" then "" else EscapedChar(escape, s[0]) + Escaped(escape, s[1..])
  }

  predicate Plain(escape: char -> Option<string>, s: string) {
    s == "" || (escape(s[0]).None? && Plain(escape, s[1..]))
  }

  lemma {:induction false} EscapedConcat(escape: char -> Option<string>, a: string, b: string)
    ensures Escaped(escape, a + b) == Escaped(escape, a) + Escaped(escape, b)
    decreases |a|
  {
    if a == "" {
      assert a + b == b;
    } else {
      assert (a + b)[1..] == a[1..] + b;
      EscapedConcat(escape, a[1..], b);
      Associates(EscapedChar(escape, a[0]), Escaped(escape, a[1..]), Escaped(escape, b));
    }
  }

  lemma {:induction false} PlainEscaped(escape: char -> Option<string>, s: string)
    requires Plain(escape, s)
    ensures Escaped(escape, s) == s
  {
    if s != "" {
      PlainEscaped(escape, s[1..]);
      assert s == [s[0]] + s[1..];
    }
  }

  lemma {:induction false} PlainExtend(escape: char -> Option<string>, s: string, c: char)
    requires Plain(escape, s) && escape(c).None?
    ensures Plain(escape, s + [c])
  {
    if s != "" {
      assert (s + [c])[1..] == s[1..] + [c];
      PlainExtend(escape, s[1..], c);
    }
  }

  lemma EscapedOne(escape: char -> Option<string>, c: char)
    ensures Escaped(escape, [c]) == EscapedChar(escape, c)
  {
    assert [c][1..] == "";
    assert EscapedChar(escape, c) + "" == EscapedChar(escape, c);
  }

  lemma StretchWritten(escape: char -> Option<string>, output: string, before: string, stretch: string, c: char)
    requires Plain(escape, stretch)
    ensures output + Escaped(escape, before) + stretch + EscapedChar(escape, c)
         == output + Escaped(escape, before + stretch + [c])
  {
    PlainEscaped(escape, stretch);
    EscapedConcat(escape, before, stretch);
    EscapedConcat(escape, before + stretch, [c]);
    EscapedOne(escape, c);
    Associates(output, Escaped(escape, before), stretch);
    Associates(output, Escaped(escape, before) + stretch, EscapedChar(escape, c));
  }

  lemma Stretches(value: string, start: nat, index: nat)
    requires start <= index < |value|
    ensures value[start..index + 1] == value[start..index] + [value[index]]
    ensures value[..index + 1] == value[..start] + value[start..index] + [value[index]]
    ensures value[index + 1..index + 1] == ""
  {
  }

  lemma LastStretch(escape: char -> Option<string>, output: string, before: string, stretch: string)
    requires Plain(escape, stretch)
    ensures output + Escaped(escape, before) + stretch == output + Escaped(escape, before + stretch)
  {
    PlainEscaped(escape, stretch);
    EscapedConcat(escape, before, stretch);
    Associates(output, Escaped(escape, before), stretch);
  }

  lemma WholeStretch(value: string, start: nat)
    requires start <= |value|
    ensures value[start..|value|] == value[start..] && value[..start] + value[start..] == value
  {
  }

  /** The loop of all three escaping writers: unescaped stretches are copied whole. */
  method WriteEscaped(escape: char -> Option<string>, output: string, value: string) returns (r: string)
    ensures r == output + Escaped(escape, value)
  {
    r := output;
    var unescapedStart := 0;
    assert value[0..0] == "" && value[..0] == "";
    for index := 0 to |value|
      invariant unescapedStart <= index
      invariant Plain(escape, value[unescapedStart..index])
      invariant r == output + Escaped(escape, value[..unescapedStart])
    {
      var escaped := escape(value[index]);
      Stretches(value, unescapedStart, index);
      if escaped.Some? {
        StretchWritten(escape, output, value[..unescapedStart], value[unescapedStart..index], value[index]);
        r := r + value[unescapedStart..index];
        r := r + escaped.value;
        unescapedStart := index + 1;
      } else {
        PlainExtend(escape, value[unescapedStart..index], value[index]);
      }
    }
    WholeStretch(value, unescapedStart);
    LastStretch(escape, output, value[..unescapedStart], value[unescapedStart..]);
    r := r + value[unescapedStart..];
  }

  // ---------- checked byte counts ----------

  /** A count as a `usize`, or nothing when it does not fit. */
  function Exact(n: nat): (r: Option<usize>) {
    if n < U64_LIMIT then Some(n) else None
  }

  /** `checked_add` of a count that may already have overflowed. */
  function Plus(a: Option<usize>, b: Option<usize>): (r: Option<usize>) {
    if a.None? || b.None? then None else CheckedAdd(a.value, b.value)
  }
}
