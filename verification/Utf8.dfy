/** UTF-8 as section 3 of RFC 3629 defines it: which bytes are text, as `src/snapshot.rs` checks
    of a column name, and how many bytes a text takes, as `src/batch/format.rs` counts them. */
module Utf8 {
  import opened Words
  import Escaping
  import TablePayload

  /** The bytes of a character. */
  function CharBytes(c: char): (r: seq<byte>) {
    var n := c as int;
    if n < 0x80 then [n]
    else if n < 0x800 then [0xC0 + n / 64, 0x80 + n % 64]
    else if n < 0x1_0000 then [0xE0 + n / 4096, 0x80 + n / 64 % 64, 0x80 + n % 64]
    else [0xF0 + n / 262144, 0x80 + n / 4096 % 64, 0x80 + n / 64 % 64, 0x80 + n % 64]
  }

  function TextBytes(s: string): (r: seq<byte>) {
    if s == "" then [] else CharBytes(s[0]) + TextBytes(s[1..])
  }

  // ---------- counting bytes ----------

  /** The counted bytes of a text are the bytes of its UTF-8 form. */
  lemma {:induction false} BytesAreCounted(s: string)
    ensures |TextBytes(s)| == Escaping.Utf8Bytes(s)
    decreases |s|
  {
    if s != "" {
      BytesAreCounted(s[1..]);
    }
  }

  // ---------- checking bytes ----------

  /** The number that six-bit digits denote, highest first. */
  function TwoDigits(high: int, low: int): (r: int) {
    64 * high + low
  }

  function ThreeDigits(high: int, middle: int, low: int): (r: int) {
    TwoDigits(TwoDigits(high, middle), low)
  }

  function FourDigits(highest: int, high: int, middle: int, low: int): (r: int) {
    TwoDigits(ThreeDigits(highest, high, middle), low)
  }

  lemma DigitsAre(n: nat, a: nat, b: nat, c: nat, d: nat)
    requires b < 64 && c < 64 && d < 64 && n == FourDigits(a, b, c, d)
    ensures n % 64 == d && n / 64 == ThreeDigits(a, b, c)
    ensures n / 64 % 64 == c && n / 4096 == TwoDigits(a, b)
    ensures n / 4096 % 64 == b && n / 262144 == a
  {
  }

  lemma DigitsOf(n: nat)
    ensures n == FourDigits(n / 262144, n / 4096 % 64, n / 64 % 64, n % 64)
  {
    assert n / 64 == 64 * (n / 64 / 64) + n / 64 % 64 && n / 64 / 64 == n / 4096;
    assert n / 4096 == 64 * (n / 4096 / 64) + n / 4096 % 64 && n / 4096 / 64 == n / 262144;
  }

  /** The number of the character at the front of well-formed bytes. */
  function FirstNumber(b: seq<byte>): (r: int)
    requires TablePayload.CharacterLen(b) > 0
  {
    match TablePayload.CharacterLen(b)
    case 1 => b[0]
    case 2 => TwoDigits(b[0] as int - 0xC0, b[1] as int - 0x80)
    case 3 => ThreeDigits(b[0] as int - 0xE0, b[1] as int - 0x80, b[2] as int - 0x80)
    case _ => FourDigits(b[0] as int - 0xF0, b[1] as int - 0x80, b[2] as int - 0x80, b[3] as int - 0x80)
  }

  function FirstChar(b: seq<byte>): (r: char)
    requires TablePayload.CharacterLen(b) > 0
  {
    FirstNumber(b) as char
  }

  lemma FirstCharIs(b: seq<byte>)
    requires TablePayload.CharacterLen(b) > 0
    ensures CharBytes(FirstChar(b)) == b[..TablePayload.CharacterLen(b)]
  {
    var n := FirstNumber(b);
    match TablePayload.CharacterLen(b)
    case 1 =>
    case 2 => DigitsAre(n, 0, 0, b[0] - 0xC0, b[1] - 0x80);
    case 3 => DigitsAre(n, 0, b[0] - 0xE0, b[1] - 0x80, b[2] - 0x80);
    case _ => DigitsAre(n, b[0] - 0xF0, b[1] - 0x80, b[2] - 0x80, b[3] - 0x80);
  }

  lemma ThreeAreChecked(n: nat, rest: seq<byte>)
    requires 0x800 <= n < 0x1_0000 && !(0xD800 <= n < 0xE000)
    ensures var b := [0xE0 + n / 4096, 0x80 + n / 64 % 64, 0x80 + n % 64] + rest;
      TablePayload.CharacterLen(b) == 3 && FirstNumber(b) == n
  {
    DigitsOf(n);
    assert n / 4096 % 64 == n / 4096;
  }

  lemma FourAreChecked(n: nat, rest: seq<byte>)
    requires 0x1_0000 <= n < 0x11_0000
    ensures var b := [0xF0 + n / 262144, 0x80 + n / 4096 % 64, 0x80 + n / 64 % 64, 0x80 + n % 64] + rest;
      TablePayload.CharacterLen(b) == 4 && FirstNumber(b) == n
  {
    DigitsOf(n);
    assert n / 262144 < 5;
  }

  lemma TwoAreChecked(n: nat, rest: seq<byte>)
    requires 0x80 <= n < 0x800
    ensures var b := [0xC0 + n / 64, 0x80 + n % 64] + rest;
      TablePayload.CharacterLen(b) == 2 && FirstNumber(b) == n
  {
  }

  /** The front of any bytes that start with a character's is that character. */
  lemma CharIsChecked(c: char, rest: seq<byte>)
    ensures TablePayload.CharacterLen(CharBytes(c) + rest) == |CharBytes(c)|
    ensures FirstChar(CharBytes(c) + rest) == c
  {
    var n := c as int;
    if n >= 0x80 {
      hide FirstNumber, TablePayload.CharacterLen;
      if n < 0x800 {
        TwoAreChecked(n, rest);
      } else if n < 0x1_0000 {
        ThreeAreChecked(n, rest);
      } else {
        FourAreChecked(n, rest);
      }
    }
  }

  // ---------- valid text ----------

  /** The text of valid bytes. */
  function TextOf(b: seq<byte>): (r: string)
    requires TablePayload.ValidUtf8(b)
    decreases |b|
  {
    if b == [] then ""
    else [FirstChar(b)] + TextOf(b[TablePayload.CharacterLen(b)..])
  }

  lemma {:induction false} TextIsValid(s: string)
    ensures TablePayload.ValidUtf8(TextBytes(s)) && TextOf(TextBytes(s)) == s
    decreases |s|
  {
    if s != "" {
      hide CharBytes, FirstChar, TablePayload.CharacterLen;
      var head, rest := CharBytes(s[0]), TextBytes(s[1..]);
      TextIsValid(s[1..]);
      CharIsChecked(s[0], rest);
      assert (head + rest)[|head|..] == rest;
      FirstAndRest(s);
    }
  }

  lemma {:induction false} ValidIsText(b: seq<byte>)
    requires TablePayload.ValidUtf8(b)
    ensures TextBytes(TextOf(b)) == b
    decreases |b|
  {
    hide CharBytes, FirstChar, TablePayload.CharacterLen;
    if b != [] {
      var len := TablePayload.CharacterLen(b);
      FirstCharIs(b);
      ValidIsText(b[len..]);
      ConsParts(FirstChar(b), TextOf(b[len..]));
      assert b == b[..len] + b[len..];
    }
  }

  /** Bytes pass the check exactly when they are the bytes of a text, and then of one text only. */
  lemma ValidBytesAreText(b: seq<byte>, s: string)
    ensures TextBytes(s) == b <==> TablePayload.ValidUtf8(b) && TextOf(b) == s
  {
    TextIsValid(s);
    if TablePayload.ValidUtf8(b) {
      ValidIsText(b);
    }
  }

  lemma CharIsFound(b: seq<byte>, c: char)
    ensures CharBytes(c) <= b ==> TablePayload.CharacterLen(b) > 0
  {
    var n := |CharBytes(c)|;
    if CharBytes(c) <= b {
      assert b == CharBytes(c) + b[n..];
      CharIsChecked(c, b[n..]);
    }
  }

  lemma ValidFront(b: seq<byte>, len: nat, valid: nat)
    requires 0 < len == TablePayload.CharacterLen(b) && len + valid <= |b|
    requires TablePayload.ValidUtf8(b[len..][..valid])
    ensures TablePayload.ValidUtf8(b[..len + valid])
  {
    hide CharBytes, FirstChar, TablePayload.CharacterLen;
    var front, rest := b[..len + valid], b[len..][..valid];
    FirstCharIs(b);
    CharIsChecked(FirstChar(b), rest);
    assert front == b[..len] + rest && front[len..] == rest;
  }

  lemma {:induction false} FrontIsValid(b: seq<byte>)
    ensures TablePayload.ValidUtf8(b[..TablePayload.ValidUpTo(b)])
    decreases |b|
  {
    var len := TablePayload.CharacterLen(b);
    if len == 0 {
      assert b[..0] == [];
    } else {
      hide TablePayload.CharacterLen, TablePayload.ValidUtf8;
      FrontIsValid(b[len..]);
      ValidFront(b, len, TablePayload.ValidUpTo(b[len..]));
    }
  }

  lemma {:induction false} NoCharacterBehind(b: seq<byte>, c: char)
    ensures !(CharBytes(c) <= b[TablePayload.ValidUpTo(b)..])
    decreases |b|
  {
    hide CharBytes, TablePayload.CharacterLen;
    var len := TablePayload.CharacterLen(b);
    if len == 0 {
      CharIsFound(b, c);
      assert b[0..] == b;
    } else {
      NoCharacterBehind(b[len..], c);
      assert b[len + TablePayload.ValidUpTo(b[len..])..] == b[len..][TablePayload.ValidUpTo(b[len..])..];
    }
  }

  /** The position reported for other bytes is the end of the longest valid text in front: what
      stands there begins no character. */
  lemma ReportedPosition(b: seq<byte>, c: char)
    ensures TablePayload.ValidUtf8(b[..TablePayload.ValidUpTo(b)])
    ensures !(CharBytes(c) <= b[TablePayload.ValidUpTo(b)..])
  {
    hide CharBytes, TablePayload.ValidUpTo, TablePayload.ValidUtf8;
    FrontIsValid(b);
    NoCharacterBehind(b, c);
  }

  /** One character of each length: a letter, e with acute accent, the euro sign, a clef. */
  lemma CharactersWrittenOut()
    ensures TextBytes("a") == [0x61] && TextBytes("\U{e9}") == [0xC3, 0xA9]
    ensures TextBytes("\U{20ac}") == [0xE2, 0x82, 0xAC] && TextBytes("\U{1d11e}") == [0xF0, 0x9D, 0x84, 0x9E]
  {
    forall c: char
      ensures TextBytes([c]) == CharBytes(c)
    {
      assert [c][1..] == "" && CharBytes(c) + [] == CharBytes(c);
    }
    assert TextBytes(['a']) == [0x61];
  }
}
