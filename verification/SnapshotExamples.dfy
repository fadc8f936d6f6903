/** Payloads written out byte by byte, as `src/snapshot.rs` lays them out. */
module SnapshotExamples {
  import opened Words
  import Bits
  import Crc32
  import Envelope
  import RowSection
  import RowPayload
  import RlePayload
  import Storage
  import TablePayload

  /** `[NULL, -2]` as a plain row payload. */
  const ROWS: seq<Row> := [None, Some(-2)]
  const ROWS_BYTES: seq<byte> := [0] + ([1] + [254, 255, 255, 255, 255, 255, 255, 255])
  const ROWS_PAYLOAD: seq<byte> := [2, 0, 0, 0, 0, 0, 0, 0] + ROWS_BYTES

  lemma RowsWritten()
    ensures RowSection.RowsBytes(ROWS) == ROWS_BYTES && RowPayload.Layout(ROWS) == ROWS_PAYLOAD
  {
    hide LeBytes;
    WordsWrittenOut();
    EightBytes(2, [2, 0, 0, 0, 0, 0, 0, 0]);
    assert ROWS[1..] == [Some(-2)] && ROWS[1..][1..] == [];
    assert RowSection.RowsBytes(ROWS[1..]) == RowSection.RowBytes(Some(-2)) + [];
  }

  lemma RowPayloadWrittenOut()
    ensures RowPayload.DecodeOutcome(RowPayload.Codec(2, 18), ROWS_PAYLOAD) == Ok(ROWS)
  {
    hide RowPayload.DecodeOutcome;
    RowsWritten();
    RowPayload.DecodeInvertsLayout(RowPayload.Codec(2, 18), ROWS_PAYLOAD, ROWS);
  }

  // ---------- runs ----------

  /** `[NULL, NULL, -2]` as a run-length payload. */
  const RUN_ROWS: seq<Row> := [None, None, Some(-2)]
  const RUNS_PAYLOAD: seq<byte> :=
    [0x52, 0x48, 0x4E, 0x52, 0x4C, 0x45, 0x50, 0] + [1, 0]
    + [3, 0, 0, 0, 0, 0, 0, 0]
    + [2, 0, 0, 0, 0, 0, 0, 0]
    + (([0] + [2, 0, 0, 0, 0, 0, 0, 0])
       + ([1] + [1, 0, 0, 0, 0, 0, 0, 0] + [254, 255, 255, 255, 255, 255, 255, 255]))

  lemma RunsAre()
    ensures RlePayload.MaximalRuns(RUN_ROWS) == [RlePayload.Run(None, 2), RlePayload.Run(Some(-2), 1)]
  {
    assert RUN_ROWS[1..] == [None, Some(-2)] && RUN_ROWS[1..][1..] == [Some(-2)] && RUN_ROWS[1..][1..][1..] == [];
    assert RlePayload.MaximalRuns(RUN_ROWS[1..][1..]) == [RlePayload.Run(Some(-2), 1)];
    assert RlePayload.MaximalRuns(RUN_ROWS[1..]) == [RlePayload.Run(None, 1), RlePayload.Run(Some(-2), 1)];
  }

  lemma RunsWritten()
    ensures var runs := RlePayload.MaximalRuns(RUN_ROWS);
      RlePayload.Expand(runs) == RUN_ROWS && RlePayload.Layout(runs) == RUNS_PAYLOAD
  {
    hide LeBytes;
    RunsAre();
    RlePayload.ExpandMaximalRuns(RUN_ROWS);
    hide RlePayload.MaximalRuns, RlePayload.Expand;
    var runs := RlePayload.MaximalRuns(RUN_ROWS);
    WordsWrittenOut();
    EightBytes(1, [1, 0, 0, 0, 0, 0, 0, 0]);
    EightBytes(2, [2, 0, 0, 0, 0, 0, 0, 0]);
    EightBytes(3, [3, 0, 0, 0, 0, 0, 0, 0]);
    VersionBytes();
    assert runs[1..] == [RlePayload.Run(Some(-2), 1)] && runs[1..][1..] == [];
    assert RlePayload.RunsBytes(runs[1..]) == RlePayload.RunBytes(runs[1]) + [];
  }

  lemma VersionBytes()
    ensures U16Bytes(1) == [1, 0]
  {
    assert Shifted(1, 0) == 1 && Shifted(1, 1) == 0;
  }

  lemma RunPayloadWrittenOut()
    ensures RlePayload.DecodeRuns(RlePayload.Codec(3, 2, 52), RUNS_PAYLOAD)
         == Ok([RlePayload.Run(None, 2), RlePayload.Run(Some(-2), 1)])
    ensures RlePayload.Expand([RlePayload.Run(None, 2), RlePayload.Run(Some(-2), 1)]) == RUN_ROWS
  {
    RunsAre();
    RunsWritten();
    RlePayload.ExpandMaximalRuns(RUN_ROWS);
    hide RlePayload.DecodeRuns, RlePayload.MaximalRuns, RlePayload.Expand, RlePayload.RunsBytes;
    RlePayload.DecodeInvertsLayout(RlePayload.Codec(3, 2, 52), RUNS_PAYLOAD, RlePayload.MaximalRuns(RUN_ROWS));
  }

  // ---------- tables ----------

  /** The nullable column `id` with a cap of five, holding `[NULL, -2]`. */
  const TABLE: Storage.Contents := Storage.TableView(Storage.Schema([105, 100], true), 5, ROWS)
  const TABLE_PAYLOAD: seq<byte> :=
    [0x52, 0x48, 0x49, 0x54, 0x42, 0x4C, 0x50, 0] + [1, 0] + [1, 1]
    + [2, 0, 0, 0, 0, 0, 0, 0] + [105, 100]
    + [5, 0, 0, 0, 0, 0, 0, 0]
    + [2, 0, 0, 0, 0, 0, 0, 0]
    + ROWS_BYTES

  lemma TableWritten()
    ensures TablePayload.Layout(TABLE) == TABLE_PAYLOAD
  {
    hide LeBytes, RowSection.RowsBytes;
    RowsWritten();
    EightBytes(2, [2, 0, 0, 0, 0, 0, 0, 0]);
    EightBytes(5, [5, 0, 0, 0, 0, 0, 0, 0]);
    VersionBytes();
  }

  lemma TablePayloadWrittenOut()
    ensures TablePayload.DecodeOutcome(TablePayload.Codec(2, 5, 48), TABLE_PAYLOAD) == Ok(TABLE)
  {
    hide TablePayload.DecodeOutcome, TablePayload.Layout;
    RowsWritten();
    TableWritten();
    assert TablePayload.ValidUtf8([105, 100]) by {
      assert [105, 100][1..] == [100] && [100][1..] == [];
      assert TablePayload.ValidUpTo([100]) == 1;
    }
    TablePayload.DecodeInvertsLayout(TablePayload.Codec(2, 5, 48), TABLE_PAYLOAD, TABLE);
  }

  // ---------- envelopes ----------

  /** A payload that brings the register to zero and then sets the last bit of a byte, which
      leaves the generator: the checksum is its complement, `0x1247_7cdf`. */
  const PAYLOAD: seq<byte> := [255, 255, 255, 255] + [128]
  const CHECKSUM: Crc32.Word32 := Crc32.Not(Crc32.POLYNOMIAL)
  const ENVELOPE: seq<byte> :=
    [0x52, 0x48, 0x4F, 0x55, 0x53, 0x45, 0x53, 0x4E] + [1, 0]
    + [5, 0, 0, 0, 0, 0, 0, 0]
    + [0xDF, 0x7C, 0x47, 0x12]
    + PAYLOAD

  lemma {:induction false} OnesAre(k: nat, n: nat)
    requires n + 1 == Bits.Pow2(k)
    ensures Bits.BitsOf(n, k) == Repeat(true, k)
    decreases k
  {
    if k > 0 {
      OnesAre(k - 1, n / 2);
      assert Repeat(true, k) == [true] + Repeat(true, k - 1);
    }
  }

  lemma {:induction false} PowersAre(k: nat)
    ensures Bits.Pow2(k) > 0 && Bits.BitsOf(Bits.Pow2(k), k + 1) == Repeat(false, k) + [true]
    decreases k
  {
    if k > 0 {
      PowersAre(k - 1);
      assert Repeat(false, k) == [false] + Repeat(false, k - 1);
    }
  }

  lemma ByteBits()
    ensures Bits.BitsOf(255, 8) == Repeat(true, 8) && Bits.BitsOf(128, 8) == Repeat(false, 7) + [true]
  {
    assert Bits.Pow2(7) == 128 && Bits.Pow2(8) == 256;
    OnesAre(8, 255);
    PowersAre(7);
  }

  lemma FourOnes()
    ensures Crc32.ToBits([255, 255, 255, 255]) == Crc32.ONES
  {
    ByteBits();
    var ones := Repeat(true, 8);
    assert Crc32.ToBits([255]) == ones + [] by {
      assert [255][1..] == [];
    }
    assert [255, 255][1..] == [255] && [255, 255, 255][1..] == [255, 255];
    assert [255, 255, 255, 255][1..] == [255, 255, 255];
  }

  /** From zero, seven clear bits change nothing and the eighth, set, leaves the generator. */
  lemma {:induction false} ClearThenSet(k: nat)
    ensures Crc32.BitAbsorb(Crc32.ZERO, Repeat(false, k) + [true]) == Crc32.POLYNOMIAL
    decreases k
  {
    var bits := Repeat(false, k) + [true];
    if k > 0 {
      ClearThenSet(k - 1);
      assert bits[1..] == Repeat(false, k - 1) + [true];
      assert Crc32.Step(Crc32.Xor(Crc32.ZERO, Crc32.Place([false]))) == Crc32.ZERO;
    } else {
      assert bits[1..] == [];
      assert Crc32.Step(Crc32.Xor(Crc32.ZERO, Crc32.Place([true]))) == Crc32.POLYNOMIAL;
    }
  }

  lemma {:induction false} ZeroStaysZero(k: nat)
    ensures Crc32.Steps(Crc32.ZERO, k) == Crc32.ZERO
    decreases k
  {
    if k > 0 {
      assert Crc32.Step(Crc32.ZERO) == Crc32.ZERO;
      ZeroStaysZero(k - 1);
    }
  }

  lemma OnesBringZero()
    ensures Crc32.Absorb(Crc32.ONES, [255, 255, 255, 255]) == Crc32.ZERO
  {
    hide Crc32.Step, Crc32.POLYNOMIAL, Crc32.ToBits, Crc32.Absorb;
    FourOnes();
    Crc32.AbsorbIsBitAbsorb(Crc32.ONES, [255, 255, 255, 255]);
    Crc32.BitAbsorbIsOneXor(Crc32.ONES, Crc32.ONES);
    assert Crc32.Xor(Crc32.ONES, Crc32.Place(Crc32.ONES)) == Crc32.ZERO;
    ZeroStaysZero(32);
  }

  lemma LastBitLeavesGenerator()
    ensures Crc32.Absorb(Crc32.ZERO, [128]) == Crc32.POLYNOMIAL
  {
    hide Crc32.Step, Crc32.POLYNOMIAL, Crc32.BitAbsorb;
    ByteBits();
    assert Crc32.ToBits([128]) == Bits.BitsOf(128, 8) by {
      assert [128][1..] == [] && Bits.BitsOf(128, 8) + [] == Bits.BitsOf(128, 8);
    }
    hide Crc32.ToBits, Crc32.Absorb, Bits.BitsOf;
    Crc32.AbsorbIsBitAbsorb(Crc32.ZERO, [128]);
    ClearThenSet(7);
  }

  lemma ChecksumWrittenOut()
    ensures Crc32.Checksum(PAYLOAD) == CHECKSUM
  {
    hide Crc32.Absorb, Crc32.POLYNOMIAL, Crc32.Not;
    Crc32.AbsorbConcat(Crc32.ONES, [255, 255, 255, 255], [128]);
    OnesBringZero();
    LastBitLeavesGenerator();
  }

  lemma EightBits(a: bool, b: bool, c: bool, d: bool, e: bool, f: bool, g: bool, h: bool)
    ensures Bits.Number([a, b, c, d, e, f, g, h])
         == (if a then 1 else 0) + (if b then 2 else 0) + (if c then 4 else 0) + (if d then 8 else 0)
            + (if e then 16 else 0) + (if f then 32 else 0) + (if g then 64 else 0) + (if h then 128 else 0)
  {
    hide Bits.Number;
    FourBits(a, b, c, d, [e, f, g, h]);
    FourBits(e, f, g, h, []);
    NextBit(a, []);
    assert [a, b, c, d] + [e, f, g, h] == [a, b, c, d, e, f, g, h] && [e, f, g, h] + [] == [e, f, g, h];
  }

  lemma FourBits(a: bool, b: bool, c: bool, d: bool, rest: seq<bool>)
    ensures Bits.Number([a, b, c, d] + rest)
         == (if a then 1 else 0) + (if b then 2 else 0) + (if c then 4 else 0) + (if d then 8 else 0)
            + 16 * Bits.Number(rest)
  {
    hide Bits.Number;
    NextBit(a, [b, c, d] + rest);
    NextBit(b, [c, d] + rest);
    NextBit(c, [d] + rest);
    NextBit(d, rest);
    assert [a] + ([b, c, d] + rest) == [a, b, c, d] + rest;
    assert [b] + ([c, d] + rest) == [b, c, d] + rest;
    assert [c] + ([d] + rest) == [c, d] + rest;
  }

  lemma NextBit(bit: bool, bits: seq<bool>)
    ensures Bits.Number([bit] + bits) == (if bit then 1 else 0) + 2 * Bits.Number(bits)
    ensures Bits.Number([]) == 0
  {
    ConsParts(bit, bits);
  }

  lemma Octet(w: Crc32.Word32, i: nat)
    requires i + 8 <= 32
    ensures w[i..i + 8] == [w[i], w[i + 1], w[i + 2], w[i + 3], w[i + 4], w[i + 5], w[i + 6], w[i + 7]]
  {
  }

  lemma OctetIs(i: nat)
    requires i + 8 <= 32
    ensures var p := Crc32.POLYNOMIAL;
      Bits.Number(CHECKSUM[i..i + 8])
      == (if p[i] then 0 else 1) + (if p[i + 1] then 0 else 2) + (if p[i + 2] then 0 else 4)
         + (if p[i + 3] then 0 else 8) + (if p[i + 4] then 0 else 16) + (if p[i + 5] then 0 else 32)
         + (if p[i + 6] then 0 else 64) + (if p[i + 7] then 0 else 128)
  {
    hide Bits.Number, Crc32.POLYNOMIAL;
    var w := CHECKSUM;
    Octet(w, i);
    EightBits(w[i], w[i + 1], w[i + 2], w[i + 3], w[i + 4], w[i + 5], w[i + 6], w[i + 7]);
  }

  lemma LowOctets()
    ensures Bits.Number(CHECKSUM[0..8]) == 0xDF && Bits.Number(CHECKSUM[8..16]) == 0x7C
  {
    hide Bits.Number, Crc32.Not;
    OctetIs(0);
    OctetIs(8);
  }

  lemma HighOctets()
    ensures Bits.Number(CHECKSUM[16..24]) == 0x47 && Bits.Number(CHECKSUM[24..32]) == 0x12
  {
    hide Bits.Number, Crc32.Not;
    OctetIs(16);
    OctetIs(24);
  }

  lemma StoredWrittenOut()
    ensures Crc32.WordBytes(CHECKSUM) == [0xDF, 0x7C, 0x47, 0x12]
  {
    hide Bits.Number, Crc32.Not, Crc32.POLYNOMIAL;
    LowOctets();
    HighOctets();
    assert CHECKSUM[..8] == CHECKSUM[0..8] && CHECKSUM[24..] == CHECKSUM[24..32];
  }

  lemma EnvelopeIs()
    ensures Envelope.Layout(PAYLOAD) == ENVELOPE
  {
    hide LeBytes, U16Bytes, Crc32.WordBytes, Crc32.Checksum;
    ChecksumWrittenOut();
    StoredWrittenOut();
    VersionBytes();
    EightBytes(5, [5, 0, 0, 0, 0, 0, 0, 0]);
  }

  lemma EnvelopeWrittenOut()
    ensures Envelope.Layout(PAYLOAD) == ENVELOPE
    ensures Envelope.DecodeOutcome(5, ENVELOPE) == Ok(PAYLOAD)
  {
    hide Envelope.Layout, Envelope.DecodeOutcome;
    EnvelopeIs();
    Envelope.DecodeAcceptsExactlyLayouts(5, ENVELOPE, PAYLOAD);
  }
}
