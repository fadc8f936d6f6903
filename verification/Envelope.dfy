/** The checksummed snapshot envelope of `src/snapshot.rs`. */
module Envelope {
  import opened Words
  import opened Crc32

  /** `b"RHOUSESN"`. */
  const MAGIC: seq<byte> := [0x52, 0x48, 0x4F, 0x55, 0x53, 0x45, 0x53, 0x4E]
  const VERSION: u16 := 1
  const VERSION_OFFSET: nat := 8
  const LENGTH_OFFSET: nat := 10
  const CHECKSUM_OFFSET: nat := 18
  const HEADER_LEN: nat := 22

  datatype SnapshotError =
    | PayloadTooLarge(payloadLen: u64, maxPayloadLen: usize)
    | Truncated(expectedLen: usize, actualLen: usize)
    | IncompatibleMagic(foundMagic: seq<byte>)
    | UnsupportedVersion(found: u16, supported: u16)
    | TrailingBytes(expectedLen: usize, actualLen: usize)
    | ChecksumMismatch(expected: Word32, actual: Word32)

  /** The version 1 layout: magic, version, payload length, checksum, payload. */
  function Layout(payload: seq<byte>): (r: seq<byte>)
    requires |payload| < U64_LIMIT
  {
    MAGIC + U16Bytes(VERSION) + U64Bytes(|payload|) + WordBytes(Checksum(payload)) + payload
  }

  function EncodeOutcome(maxPayloadLen: usize, payload: seq<byte>): (r: Result<seq<byte>, SnapshotError>)
    requires |payload| < U64_LIMIT
  {
    if |payload| > maxPayloadLen || |payload| == U64_LIMIT - 1 then
      Err(PayloadTooLarge(|payload|, maxPayloadLen))
    else if CheckedAdd(HEADER_LEN, |payload|).None? then
      Err(PayloadTooLarge(|payload|, maxPayloadLen))
    else
      Ok(Layout(payload))
  }

  function DecodeOutcome(maxPayloadLen: usize, envelope: seq<byte>): (r: Result<seq<byte>, SnapshotError>)
    requires |envelope| < U64_LIMIT
  {
    if |envelope| < HEADER_LEN then
      Err(Truncated(HEADER_LEN, |envelope|))
    else if envelope[..VERSION_OFFSET] != MAGIC then
      Err(IncompatibleMagic(envelope[..VERSION_OFFSET]))
    else
      var version := U16At(envelope, VERSION_OFFSET);
      if version != VERSION then
        Err(UnsupportedVersion(version, VERSION))
      else
        var payloadLen := U64At(envelope, LENGTH_OFFSET);
        if payloadLen > maxPayloadLen then
          Err(PayloadTooLarge(payloadLen, maxPayloadLen))
        else
          match CheckedAdd(HEADER_LEN, payloadLen)
          case None => Err(PayloadTooLarge(payloadLen, maxPayloadLen))
          case Some(expectedLen) =>
            if |envelope| < expectedLen then
              Err(Truncated(expectedLen, |envelope|))
            else if |envelope| > expectedLen then
              Err(TrailingBytes(expectedLen, |envelope|))
            else
              var expectedChecksum := WordFromBytes(envelope[CHECKSUM_OFFSET..HEADER_LEN]);
              var payload := envelope[HEADER_LEN..];
              if Checksum(payload) != expectedChecksum then
                Err(ChecksumMismatch(expectedChecksum, Checksum(payload)))
              else
                Ok(payload)
  }

  /** `SnapshotCodec::encode`. */
  method Encode(maxPayloadLen: usize, payload: seq<byte>) returns (r: Result<seq<byte>, SnapshotError>)
    requires |payload| < U64_LIMIT
    ensures r == EncodeOutcome(maxPayloadLen, payload)
  {
    if |payload| > maxPayloadLen || |payload| == U64_LIMIT - 1 {
      return Err(PayloadTooLarge(|payload|, maxPayloadLen));
    }
    var totalLen := CheckedAdd(HEADER_LEN, |payload|);
    if totalLen.None? {
      return Err(PayloadTooLarge(|payload|, maxPayloadLen));
    }
    var checksum := ComputeChecksum(payload);
    var envelope := MAGIC;
    envelope := envelope + U16Bytes(VERSION);
    envelope := envelope + U64Bytes(|payload|);
    envelope := envelope + WordBytes(checksum);
    envelope := envelope + payload;
    return Ok(envelope);
  }

  /** `SnapshotCodec::decode`. */
  method Decode(maxPayloadLen: usize, envelope: seq<byte>) returns (r: Result<seq<byte>, SnapshotError>)
    requires |envelope| < U64_LIMIT
    ensures r == DecodeOutcome(maxPayloadLen, envelope)
  {
    if |envelope| < HEADER_LEN {
      return Err(Truncated(HEADER_LEN, |envelope|));
    }
    var foundMagic := envelope[..VERSION_OFFSET];
    if foundMagic != MAGIC {
      return Err(IncompatibleMagic(foundMagic));
    }
    var version := U16At(envelope, VERSION_OFFSET);
    if version != VERSION {
      return Err(UnsupportedVersion(version, VERSION));
    }
    var payloadLen := U64At(envelope, LENGTH_OFFSET);
    if payloadLen > maxPayloadLen {
      return Err(PayloadTooLarge(payloadLen, maxPayloadLen));
    }
    var expectedLen := CheckedAdd(HEADER_LEN, payloadLen);
    if expectedLen.None? {
      return Err(PayloadTooLarge(payloadLen, maxPayloadLen));
    }
    if |envelope| < expectedLen.value {
      return Err(Truncated(expectedLen.value, |envelope|));
    }
    if |envelope| > expectedLen.value {
      return Err(TrailingBytes(expectedLen.value, |envelope|));
    }
    var expectedChecksum := WordFromBytes(envelope[CHECKSUM_OFFSET..HEADER_LEN]);
    var payload := envelope[HEADER_LEN..];
    var actualChecksum := ComputeChecksum(payload);
    if actualChecksum != expectedChecksum {
      return Err(ChecksumMismatch(expectedChecksum, actualChecksum));
    }
    return Ok(payload);
  }

  /** A byte string is a payload's layout exactly when its fields are the payload's. */
  lemma LayoutFields(e: seq<byte>, payload: seq<byte>)
    requires HEADER_LEN <= |e| && |payload| < U64_LIMIT
    ensures e == Layout(payload)
       <==> (e[..VERSION_OFFSET] == MAGIC && U16At(e, VERSION_OFFSET) == VERSION
             && U64At(e, LENGTH_OFFSET) == |payload|
             && e[CHECKSUM_OFFSET..HEADER_LEN] == WordBytes(Checksum(payload))
             && e[HEADER_LEN..] == payload)
  {
    var checksum := WordBytes(Checksum(payload));
    HoldsAtFour(e, MAGIC, U16Bytes(VERSION), U64Bytes(|payload|), checksum);
    HoldsAtConcat(e, 0, MAGIC + U16Bytes(VERSION) + U64Bytes(|payload|) + checksum, payload);
    HoldsAtWhole(e, Layout(payload));
    HoldsAtSlice(e, 0, MAGIC);
    U16AtHolds(e, VERSION_OFFSET, VERSION);
    U64AtHolds(e, LENGTH_OFFSET, |payload|);
    HoldsAtSlice(e, CHECKSUM_OFFSET, checksum);
    HoldsAtSlice(e, HEADER_LEN, payload);
    if |e| == HEADER_LEN + |payload| {
      assert e[HEADER_LEN..] == e[HEADER_LEN..HEADER_LEN + |payload|];
    }
  }

  /** Decoding accepts a byte string exactly when it is the layout of a payload within
      the limit, and then returns that payload. */
  lemma DecodeAcceptsExactlyLayouts(maxPayloadLen: usize, e: seq<byte>, payload: seq<byte>)
    requires |e| < U64_LIMIT
    ensures DecodeOutcome(maxPayloadLen, e) == Ok(payload)
       <==> |payload| <= maxPayloadLen && HEADER_LEN + |payload| < U64_LIMIT && e == Layout(payload)
  {
    if HEADER_LEN <= |e| {
      if |payload| < U64_LIMIT {
        LayoutFields(e, payload);
        WordRoundTrip(Checksum(payload));
      }
      WordBytesRoundTrip(e[CHECKSUM_OFFSET..HEADER_LEN]);
    }
  }

  /** Every payload that encodes is recovered by the same codec. */
  lemma DecodeOfEncode(maxPayloadLen: usize, payload: seq<byte>)
    requires |payload| < U64_LIMIT
    ensures EncodeOutcome(maxPayloadLen, payload).Ok?
        <==> |payload| <= maxPayloadLen && HEADER_LEN + |payload| < U64_LIMIT
    ensures EncodeOutcome(maxPayloadLen, payload).Ok?
        ==> DecodeOutcome(maxPayloadLen, EncodeOutcome(maxPayloadLen, payload).value) == Ok(payload)
  {
    if EncodeOutcome(maxPayloadLen, payload).Ok? {
      DecodeAcceptsExactlyLayouts(maxPayloadLen, Layout(payload), payload);
    }
  }

  // ---------- damage ----------

  /** Any change confined to the header, of any number of bytes, is rejected. */
  lemma HeaderDamageRejected(maxPayloadLen: usize, payload: seq<byte>, damaged: seq<byte>)
    requires HEADER_LEN + |payload| < U64_LIMIT
    requires |damaged| == HEADER_LEN + |payload| && damaged[HEADER_LEN..] == payload
    requires damaged != Layout(payload)
    ensures DecodeOutcome(maxPayloadLen, damaged).Err?
  {
    var r := DecodeOutcome(maxPayloadLen, damaged);
    if r.Ok? {
      DecodeAcceptsExactlyLayouts(maxPayloadLen, damaged, r.value);
      LayoutFields(damaged, r.value);
    }
  }

  /** Any change to the payload confined to four consecutive bytes is rejected. */
  lemma PayloadBurstRejected(maxPayloadLen: usize, before: seq<byte>, a: seq<byte>, b: seq<byte>, after: seq<byte>)
    requires |a| == |b| <= 4 && a != b
    requires HEADER_LEN + |before + a + after| < U64_LIMIT
    ensures DecodeOutcome(maxPayloadLen, Layout(before + a + after)[..HEADER_LEN] + (before + b + after)).Err?
  {
    var payload, altered := before + a + after, before + b + after;
    var damaged := Layout(payload)[..HEADER_LEN] + altered;
    var r := DecodeOutcome(maxPayloadLen, damaged);
    if r.Ok? {
      DecodeAcceptsExactlyLayouts(maxPayloadLen, damaged, r.value);
      LayoutFields(damaged, r.value);
      LayoutFields(Layout(payload), payload);
      assert damaged[HEADER_LEN..] == altered;
      assert damaged[CHECKSUM_OFFSET..HEADER_LEN] == Layout(payload)[CHECKSUM_OFFSET..HEADER_LEN];
      WordRoundTrip(Checksum(payload));
      WordRoundTrip(Checksum(altered));
      FourByteBurstDetected(before, a, b, after);
    }
  }

  lemma PayloadByteDamageRejected(maxPayloadLen: usize, payload: seq<byte>, k: nat, value: byte)
    requires HEADER_LEN + |payload| < U64_LIMIT
    requires k < |payload| && payload[k] != value
    ensures DecodeOutcome(maxPayloadLen, Layout(payload)[..HEADER_LEN] + payload[k := value]).Err?
  {
    var before, after := payload[..k], payload[k + 1..];
    assert payload == before + [payload[k]] + after;
    assert payload[k := value] == before + [value] + after;
    PayloadBurstRejected(maxPayloadLen, before, [payload[k]], [value], after);
  }

  /** Replacing any one byte of an encoded envelope makes decoding fail. */
  lemma SingleByteDamageRejected(maxPayloadLen: usize, payload: seq<byte>, position: nat, value: byte)
    requires HEADER_LEN + |payload| < U64_LIMIT
    requires position < HEADER_LEN + |payload| && Layout(payload)[position] != value
    ensures DecodeOutcome(maxPayloadLen, Layout(payload)[position := value]).Err?
  {
    var e := Layout(payload);
    var damaged := e[position := value];
    LayoutFields(e, payload);
    if position < HEADER_LEN {
      assert damaged[HEADER_LEN..] == e[HEADER_LEN..];
      HeaderDamageRejected(maxPayloadLen, payload, damaged);
    } else {
      var k := position - HEADER_LEN;
      assert e[position] == e[HEADER_LEN..][k];
      assert damaged == e[..HEADER_LEN] + e[HEADER_LEN..][k := value];
      PayloadByteDamageRejected(maxPayloadLen, payload, k, value);
    }
  }

  /** Cutting an envelope short or appending to it makes decoding fail. */
  lemma LengthDamageRejected(maxPayloadLen: usize, payload: seq<byte>, damaged: seq<byte>)
    requires HEADER_LEN + |payload| < U64_LIMIT && |damaged| < U64_LIMIT
    requires damaged < Layout(payload) || Layout(payload) < damaged
    ensures DecodeOutcome(maxPayloadLen, damaged).Err?
  {
    hide DecodeOutcome;
    var r := DecodeOutcome(maxPayloadLen, damaged);
    if r.Ok? {
      DecodeAcceptsExactlyLayouts(maxPayloadLen, damaged, r.value);
      var e := Layout(payload);
      LayoutFields(damaged, r.value);
      LayoutFields(e, payload);
      LeValueOfSlice(damaged, LENGTH_OFFSET, e[LENGTH_OFFSET..CHECKSUM_OFFSET], 0);
      LeValueOfSlice(e, LENGTH_OFFSET, e[LENGTH_OFFSET..CHECKSUM_OFFSET], 0);
    }
  }

  // ---------- the faults are named ----------

  /** What its fields make of an envelope: the first that is wrong is reported, with what was
      found there and what was wanted. */
  lemma FaultIsNamed(maxPayloadLen: usize, magic: seq<byte>, version: u16, length: u64, checksum: Word32,
                     payload: seq<byte>)
    requires |magic| == 8 && 22 + |payload| < U64_LIMIT
    ensures var e := magic + U16Bytes(version) + U64Bytes(length) + WordBytes(checksum) + payload;
      && |e| == 22 + |payload|
      && var r := DecodeOutcome(maxPayloadLen, e);
      && (r == Err(IncompatibleMagic(magic)) <==> magic != [0x52, 0x48, 0x4F, 0x55, 0x53, 0x45, 0x53, 0x4E])
      && (magic == MAGIC && version != 1 ==> r == Err(UnsupportedVersion(version, 1)))
      && (magic == MAGIC && version == 1 ==>
            && (length > maxPayloadLen ==> r == Err(PayloadTooLarge(length, maxPayloadLen)))
            && (length <= maxPayloadLen && 22 + length < U64_LIMIT ==>
                  && (|payload| < length ==> r == Err(Truncated(22 + length, |e|)))
                  && (|payload| > length ==> r == Err(TrailingBytes(22 + length, |e|)))
                  && (|payload| == length ==>
                        r == if Checksum(payload) == checksum then Ok(payload)
                             else Err(ChecksumMismatch(checksum, Checksum(payload))))))
  {
    var stored := WordBytes(checksum);
    assert |stored| == 4;
    hide U16Bytes, U64Bytes, LeBytes, LeValue, WordBytes, WordFromBytes, Checksum, HoldsAt;
    var e := magic + U16Bytes(version) + U64Bytes(length) + stored + payload;
    FieldsHold(e, magic, version, length, stored, payload);
    WordRoundTrip(checksum);
  }

  lemma FieldsHold(e: seq<byte>, magic: seq<byte>, version: u16, length: u64, stored: seq<byte>, payload: seq<byte>)
    requires |magic| == 8 && |stored| == 4
    requires e == magic + U16Bytes(version) + U64Bytes(length) + stored + payload
    ensures |e| == 22 + |payload| && e[..8] == magic && U16At(e, 8) == version && U64At(e, 10) == length
    ensures e[18..22] == stored && e[22..] == payload
  {
    hide LeBytes, LeValue;
    HoldsAtFour(e, magic, U16Bytes(version), U64Bytes(length), stored);
    HoldsAtConcat(e, 0, magic + U16Bytes(version) + U64Bytes(length) + stored, payload);
    HoldsAtWhole(e, e);
    U16AtHolds(e, 8, version);
    U64AtHolds(e, 10, length);
  }

  /** Fewer bytes than a header are always reported as such. */
  lemma ShortIsNamed(maxPayloadLen: usize, e: seq<byte>)
    ensures |e| < 22 ==> DecodeOutcome(maxPayloadLen, e) == Err(Truncated(22, |e|))
  {
  }
}
