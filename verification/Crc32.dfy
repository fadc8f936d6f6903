/** The envelope checksum of `src/snapshot.rs`: a bit-at-a-time CRC-32/ISO-HDLC
    (section 8 of RFC 1952), the remainder it computes and the damage it detects. */
module Crc32 {
  import opened Bits
  import opened Words

  /** A 32-bit register as its bits, least significant first. */
  type Word32 = w: seq<bool> | |w| == 32 witness Repeat(false, 32)

  /** `0xedb8_8320`, `0` and `u32::MAX`. */
  const POLYNOMIAL: Word32 :=
    [false, false, false, false, false, true, false, false,
     true, true, false, false, false, false, false, true,
     false, false, false, true, true, true, false, true,
     true, false, true, true, false, true, true, true]
  const ZERO: Word32 := Repeat(false, 32)
  const ONES: Word32 := Repeat(true, 32)

  function Xor(a: Word32, b: Word32): (r: Word32) { seq(32, i requires 0 <= i < 32 => a[i] != b[i]) }
  function And(a: Word32, b: Word32): (r: Word32) { seq(32, i requires 0 <= i < 32 => a[i] && b[i]) }
  function Not(a: Word32): (r: Word32) { seq(32, i requires 0 <= i < 32 => !a[i]) }
  function ShiftRight(a: Word32): (r: Word32) { a[1..] + [false] }

  /** `0.wrapping_sub(x & 1)`: all ones when the low bit is set, otherwise zero. */
  function LowBitMask(x: Word32): (r: Word32) { if x[0] then ONES else ZERO }

  /** One shift of the register. */
  function Step(x: Word32): (r: Word32) { Xor(ShiftRight(x), And(POLYNOMIAL, LowBitMask(x))) }

  function Steps(x: Word32, k: nat): (r: Word32)
    decreases k, x
  {
    if k == 0 then x else Steps(Step(x), k - 1)
  }

  /** `bits` in the low positions of a word. */
  function Place(bits: seq<bool>): (r: Word32)
    requires |bits| <= 32
  {
    bits + Repeat(false, 32 - |bits|)
  }

  /** `u32::from(byte)`. */
  function Widen(b: byte): (r: Word32) { Place(BitsOf(b, 8)) }

  /** The register after absorbing `bytes` from state `s`, one byte at a time. */
  function Absorb(s: Word32, bytes: seq<byte>): (r: Word32)
    decreases |bytes|
  {
    if bytes == [] then s else Absorb(Steps(Xor(s, Widen(bytes[0])), 8), bytes[1..])
  }

  function Checksum(bytes: seq<byte>): (r: Word32) { Not(Absorb(ONES, bytes)) }

  // ---------- the checksum loop ----------

  lemma {:induction false} AbsorbConcat(s: Word32, a: seq<byte>, b: seq<byte>)
    ensures Absorb(s, a + b) == Absorb(Absorb(s, a), b)
    decreases |a|
  {
    if a == [] {
      assert a + b == b;
    } else {
      assert (a + b)[1..] == a[1..] + b;
      AbsorbConcat(Steps(Xor(s, Widen(a[0])), 8), a[1..], b);
    }
  }

  lemma {:induction false} StepsAfter(x: Word32, k: nat)
    ensures Steps(x, k + 1) == Step(Steps(x, k))
    decreases k
  {
    if k > 0 {
      StepsAfter(Step(x), k - 1);
    }
  }

  method ComputeChecksum(bytes: seq<byte>) returns (checksum: Word32)
    ensures checksum == Checksum(bytes)
  {
    checksum := ONES;
    for i := 0 to |bytes|
      invariant checksum == Absorb(ONES, bytes[..i])
    {
      checksum := Xor(checksum, Widen(bytes[i]));
      ghost var mixed := checksum;
      for k := 0 to 8
        invariant checksum == Steps(mixed, k)
      {
        var lowBitMask := LowBitMask(checksum);
        checksum := Xor(ShiftRight(checksum), And(POLYNOMIAL, lowBitMask));
        StepsAfter(mixed, k);
      }
      assert bytes[..i + 1] == bytes[..i] + [bytes[i]];
      AbsorbConcat(ONES, bytes[..i], [bytes[i]]);
      assert Absorb(Absorb(ONES, bytes[..i]), [bytes[i]]) == Absorb(checksum, []);
    }
    assert bytes[..|bytes|] == bytes;
    checksum := Not(checksum);
  }

  // ---------- algebra of the register ----------

  lemma XorFacts(a: Word32, b: Word32, c: Word32)
    ensures Xor(Xor(a, b), c) == Xor(a, Xor(b, c))
    ensures Xor(a, b) == Xor(a, c) ==> b == c
    ensures Xor(a, ZERO) == a
  {
    if Xor(a, b) == Xor(a, c) {
      forall i | 0 <= i < 32
        ensures b[i] == c[i]
      {
        assert Xor(a, b)[i] == Xor(a, c)[i];
      }
    }
  }

  /** The register update is linear over GF(2) ... */
  lemma StepXor(x: Word32, y: Word32)
    ensures Step(Xor(x, y)) == Xor(Step(x), Step(y))
  {
    forall i | 0 <= i < 32
      ensures Step(Xor(x, y))[i] == Xor(Step(x), Step(y))[i]
    {
      assert Xor(x, y)[0] == (x[0] != y[0]);
      if i < 31 {
        assert Xor(x, y)[i + 1] == (x[i + 1] != y[i + 1]);
      }
    }
  }

  /** ... and injective, because the polynomial's top bit records the bit shifted out. */
  lemma StepInjective(x: Word32, y: Word32)
    requires Step(x) == Step(y)
    ensures x == y
  {
    assert POLYNOMIAL[31];
    assert Step(x)[31] == x[0] && Step(y)[31] == y[0];
    forall i | 0 < i < 32
      ensures x[i] == y[i]
    {
      assert Step(x)[i - 1] == Step(y)[i - 1];
    }
  }

  lemma {:induction false} StepsInjective(x: Word32, y: Word32, k: nat)
    requires Steps(x, k) == Steps(y, k)
    ensures x == y
    decreases k
  {
    if k > 0 {
      StepsInjective(Step(x), Step(y), k - 1);
      StepInjective(x, y);
    }
  }

  // ---------- bit-serial form ----------

  /** Absorbing single bits: each is xored into the low bit, then the register steps. */
  function BitAbsorb(s: Word32, bits: seq<bool>): (r: Word32)
    decreases |bits|
  {
    if bits == [] then s else BitAbsorb(Step(Xor(s, Place([bits[0]]))), bits[1..])
  }

  /** Up to 32 bits act as one xor followed by that many steps. */
  lemma {:induction false} BitAbsorbIsOneXor(s: Word32, bits: seq<bool>)
    requires |bits| <= 32
    ensures BitAbsorb(s, bits) == Steps(Xor(s, Place(bits)), |bits|)
    decreases |bits|
  {
    if bits == [] {
      assert Place(bits) == ZERO;
      XorFacts(s, s, s);
    } else {
      var head, tail := Place([bits[0]]), bits[1..];
      var raised := Place([false] + tail);
      assert Step(raised) == Place(tail);
      assert Xor(head, raised) == Place(bits);
      StepXor(Xor(s, head), raised);
      XorFacts(s, head, raised);
      BitAbsorbIsOneXor(Step(Xor(s, head)), tail);
    }
  }

  lemma {:induction false} BitAbsorbConcat(s: Word32, a: seq<bool>, b: seq<bool>)
    ensures BitAbsorb(s, a + b) == BitAbsorb(BitAbsorb(s, a), b)
    decreases |a|
  {
    if a == [] {
      assert a + b == b;
    } else {
      assert (a + b)[1..] == a[1..] + b;
      BitAbsorbConcat(Step(Xor(s, Place([a[0]]))), a[1..], b);
    }
  }

  /** The transmitted bit order: each byte low bit first. */
  function ToBits(bytes: seq<byte>): (r: seq<bool>)
    ensures |r| == 8 * |bytes|
    decreases |bytes|
  {
    if bytes == [] then [] else BitsOf(bytes[0], 8) + ToBits(bytes[1..])
  }

  lemma {:induction false} AbsorbIsBitAbsorb(s: Word32, bytes: seq<byte>)
    ensures Absorb(s, bytes) == BitAbsorb(s, ToBits(bytes))
    decreases |bytes|
  {
    if bytes != [] {
      var bits := BitsOf(bytes[0], 8);
      BitAbsorbIsOneXor(s, bits);
      BitAbsorbConcat(s, bits, ToBits(bytes[1..]));
      AbsorbIsBitAbsorb(BitAbsorb(s, bits), bytes[1..]);
    }
  }

  // ---------- error detection ----------

  lemma {:induction false} BitAbsorbInjectiveInState(s: Word32, t: Word32, bits: seq<bool>)
    requires BitAbsorb(s, bits) == BitAbsorb(t, bits)
    ensures s == t
    decreases |bits|
  {
    if bits != [] {
      var low := Place([bits[0]]);
      BitAbsorbInjectiveInState(Step(Xor(s, low)), Step(Xor(t, low)), bits[1..]);
      StepInjective(Xor(s, low), Xor(t, low));
      assert Xor(low, s) == Xor(s, low) && Xor(low, t) == Xor(t, low);
      XorFacts(low, s, t);
    }
  }

  /** No two bit strings that differ only inside a window of at most 32 bits reach
      the same register, whatever precedes and follows the window. */
  lemma BurstDetected(s: Word32, before: seq<bool>, a: seq<bool>, b: seq<bool>, after: seq<bool>)
    requires |a| == |b| <= 32 && a != b
    ensures BitAbsorb(s, before + a + after) != BitAbsorb(s, before + b + after)
  {
    assert Place(a)[..|a|] == a && Place(b)[..|b|] == b;
    if BitAbsorb(s, before + a + after) == BitAbsorb(s, before + b + after) {
      var t := BitAbsorb(s, before);
      BitAbsorbConcat(s, before + a, after);
      BitAbsorbConcat(s, before + b, after);
      BitAbsorbConcat(s, before, a);
      BitAbsorbConcat(s, before, b);
      BitAbsorbInjectiveInState(BitAbsorb(t, a), BitAbsorb(t, b), after);
      BitAbsorbIsOneXor(t, a);
      BitAbsorbIsOneXor(t, b);
      StepsInjective(Xor(t, Place(a)), Xor(t, Place(b)), |a|);
      XorFacts(t, Place(a), Place(b));
    }
  }

  lemma {:induction false} ToBitsInjective(a: seq<byte>, b: seq<byte>)
    requires |a| == |b| && a != b
    ensures ToBits(a) != ToBits(b)
    decreases |a|
  {
    assert Pow2(8) == 256;
    NumberOfBitsOf(a[0], 8, 256);
    NumberOfBitsOf(b[0], 8, 256);
    assert ToBits(a)[..8] == BitsOf(a[0], 8) && ToBits(b)[..8] == BitsOf(b[0], 8);
    assert ToBits(a)[8..] == ToBits(a[1..]) && ToBits(b)[8..] == ToBits(b[1..]);
    if a[0] == b[0] {
      assert a == [a[0]] + a[1..] && b == [b[0]] + b[1..];
      ToBitsInjective(a[1..], b[1..]);
    }
  }

  lemma {:induction false} ToBitsConcat(a: seq<byte>, b: seq<byte>)
    ensures ToBits(a + b) == ToBits(a) + ToBits(b)
    decreases |a|
  {
    if a == [] {
      assert a + b == b;
    } else {
      assert (a + b)[1..] == a[1..] + b;
      ToBitsConcat(a[1..], b);
    }
  }

  /** Two equal-length payloads that differ only within four consecutive bytes
      always have different checksums. */
  lemma FourByteBurstDetected(before: seq<byte>, a: seq<byte>, b: seq<byte>, after: seq<byte>)
    requires |a| == |b| <= 4 && a != b
    ensures Checksum(before + a + after) != Checksum(before + b + after)
  {
    ToBitsInjective(a, b);
    BurstDetected(ONES, ToBits(before), ToBits(a), ToBits(b), ToBits(after));
    ToBitsConcat(before + a, after);
    ToBitsConcat(before, a);
    ToBitsConcat(before + b, after);
    ToBitsConcat(before, b);
    AbsorbIsBitAbsorb(ONES, before + a + after);
    AbsorbIsBitAbsorb(ONES, before + b + after);
    var x, y := Absorb(ONES, before + a + after), Absorb(ONES, before + b + after);
    assert x != y;
    if Not(x) == Not(y) {
      forall i | 0 <= i < 32
        ensures x[i] == y[i]
      {
        assert Not(x)[i] == Not(y)[i];
      }
      assert false;
    }
  }

  // ---------- the remainder the register holds ----------

  /** The generator x^32 + x^26 + x^23 + x^22 + x^16 + x^12 + x^11 + x^10 + x^8 +
      x^7 + x^5 + x^4 + x^2 + x + 1 without its leading term: `true` at position `i`
      is the coefficient of x^(31 - i). */
  function GeneratorTerm(i: nat): (r: bool) {
    31 - i in {26, 23, 22, 16, 12, 11, 10, 8, 7, 5, 4, 2, 1, 0}
  }

  /** Textbook long division over GF(2) of a polynomial written highest power first:
      while more than 32 coefficients remain, cancel the leading one with the
      generator and drop it. */
  function Remainder(poly: seq<bool>): (r: seq<bool>)
    requires |poly| >= 32
    ensures |r| == 32
    decreases |poly|
  {
    if |poly| == 32 then poly else Remainder(CancelLeading(poly))
  }

  function CancelLeading(poly: seq<bool>): (r: seq<bool>)
    requires |poly| > 32
  {
    seq(|poly| - 1, i requires 0 <= i < |poly| - 1 =>
      poly[i + 1] != (poly[0] && i < 32 && GeneratorTerm(i)))
  }

  /** The dividend: the message times x^32, its first 32 coefficients offset by `initial`. */
  function Dividend(initial: Word32, message: seq<bool>): (r: seq<bool>) {
    seq(|message| + 32, i requires 0 <= i < |message| + 32 =>
      (i < |message| && message[i]) != (i < 32 && initial[i]))
  }

  lemma PolynomialIsGenerator()
    ensures forall i :: 0 <= i < 32 ==> POLYNOMIAL[i] == GeneratorTerm(i)
  {
  }

  lemma {:induction false} BitAbsorbIsRemainder(s: Word32, message: seq<bool>)
    ensures BitAbsorb(s, message) == Remainder(Dividend(s, message))
    decreases |message|
  {
    if message == [] {
      assert Dividend(s, message) == s;
    } else {
      var mixed := Xor(s, Place([message[0]]));
      PolynomialIsGenerator();
      assert Dividend(s, message)[0] == mixed[0];
      forall i | 0 <= i < |message| + 31
        ensures CancelLeading(Dividend(s, message))[i] == Dividend(Step(mixed), message[1..])[i]
      {
        if i < 31 {
          assert mixed[i + 1] == s[i + 1];
        }
      }
      assert CancelLeading(Dividend(s, message)) == Dividend(Step(mixed), message[1..]);
      BitAbsorbIsRemainder(Step(mixed), message[1..]);
    }
  }

  /** The checksum is the complement of the remainder of the message, low bit of each
      byte first, times x^32 and with its first 32 coefficients complemented. */
  lemma ChecksumIsRemainder(bytes: seq<byte>)
    ensures Checksum(bytes) == Not(Remainder(Dividend(ONES, ToBits(bytes))))
  {
    AbsorbIsBitAbsorb(ONES, bytes);
    BitAbsorbIsRemainder(ONES, ToBits(bytes));
  }

  // ---------- the stored checksum field ----------

  /** `u32::to_le_bytes` of a register, and `u32::from_le_bytes`. */
  function WordBytes(w: Word32): (r: seq<byte>) {
    BitsOfNumber(w[..8]);
    BitsOfNumber(w[8..16]);
    BitsOfNumber(w[16..24]);
    BitsOfNumber(w[24..]);
    assert Pow2(8) == 256;
    [Number(w[..8]), Number(w[8..16]), Number(w[16..24]), Number(w[24..])]
  }

  lemma {:induction false} NumberSplits(bits: seq<bool>, k: nat)
    requires k <= |bits|
    ensures Number(bits) == Number(bits[..k]) + Pow2(k) * Number(bits[k..])
    decreases k
  {
    if k == 0 {
      assert bits[0..] == bits;
    } else {
      NumberSplits(bits[1..], k - 1);
      assert bits[..k][1..] == bits[1..][..k - 1] && bits[1..][k - 1..] == bits[k..];
      DoubledWeight(Pow2(k - 1), Number(bits[k..]));
    }
  }

  lemma DoubledWeight(weight: nat, number: nat)
    ensures 2 * (weight * number) == (2 * weight) * number
  {
  }

  lemma NumberOfWord(w: Word32)
    ensures Number(w) == Above(Number(w[..8]), Above(Number(w[8..16]), Above(Number(w[16..24]), Number(w[24..]))))
  {
    assert Pow2(8) == 256;
    hide Number;
    NumberSplits(w, 8);
    NumberSplits(w[8..], 8);
    NumberSplits(w[16..], 8);
    assert w[8..][..8] == w[8..16] && w[8..][8..] == w[16..];
    assert w[16..][..8] == w[16..24] && w[16..][8..] == w[24..];
  }

  /** The stored bytes are those of the register's number, lowest first. */
  lemma StoredChecksumIs(w: Word32)
    ensures WordBytes(w) == LeBytes(Number(w), 4)
  {
    hide Number, LeBytes;
    NumberOfWord(w);
    FourBytes(Number(w), WordBytes(w));
  }

  function WordFromBytes(b: seq<byte>): (r: Word32)
    requires |b| == 4
  {
    BitsOf(b[0], 8) + BitsOf(b[1], 8) + BitsOf(b[2], 8) + BitsOf(b[3], 8)
  }

  lemma WordRoundTrip(w: Word32)
    ensures WordFromBytes(WordBytes(w)) == w
  {
    BitsOfNumber(w[..8]);
    BitsOfNumber(w[8..16]);
    BitsOfNumber(w[16..24]);
    BitsOfNumber(w[24..]);
  }

  lemma WordBytesRoundTrip(b: seq<byte>)
    requires |b| == 4
    ensures WordBytes(WordFromBytes(b)) == b
  {
    var w := WordFromBytes(b);
    assert Pow2(8) == 256;
    NumberOfBitsOf(b[0], 8, 256);
    NumberOfBitsOf(b[1], 8, 256);
    NumberOfBitsOf(b[2], 8, 256);
    NumberOfBitsOf(b[3], 8, 256);
    assert w[..8] == BitsOf(b[0], 8) && w[8..16] == BitsOf(b[1], 8);
    assert w[16..24] == BitsOf(b[2], 8) && w[24..] == BitsOf(b[3], 8);
  }
}
