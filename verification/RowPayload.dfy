/** The plain nullable `Int64` row payload of `src/snapshot.rs`: a row count followed by
    tagged rows. */
module RowPayload {
  import opened Words
  import opened RowSection

  const HEADER_LEN: nat := 8

  datatype RowPayloadError =
    | RowLimitExceeded(rowCount: u64, maxRows: usize)
    | PayloadTooLarge(payloadLen: u64, maxPayloadLen: usize)
    | Truncated(expectedLen: nat, actualLen: nat)
    | InvalidTag(rowIndex: nat, tag: byte)
    | TrailingData(expectedLen: nat, actualLen: nat)

  datatype Codec = Codec(maxRows: usize, maxPayloadLen: usize)

  function Layout(rows: seq<Row>): (r: seq<byte>)
    requires |rows| < U64_LIMIT
    ensures |r| == HEADER_LEN + |RowsBytes(rows)|
  {
    U64Bytes(|rows|) + RowsBytes(rows)
  }

  /** The rows a codec can represent. */
  predicate Fits(codec: Codec, rows: seq<Row>) {
    |rows| <= codec.maxRows && HEADER_LEN + |RowsBytes(rows)| <= codec.maxPayloadLen
  }

  /** The two limits are checked in order and the size is exact unless it leaves `usize`. */
  function EncodeError(codec: Codec, rows: seq<Row>): (r: RowPayloadError)
    requires |rows| < U64_LIMIT
  {
    if |rows| > codec.maxRows then
      RowLimitExceeded(|rows|, codec.maxRows)
    else
      PayloadTooLarge(match CheckedAdd(HEADER_LEN, |RowsBytes(rows)|)
                      case Some(len) => len
                      case None => U64_LIMIT - 1, codec.maxPayloadLen)
  }

  method Encode(codec: Codec, rows: seq<Row>) returns (r: Result<seq<byte>, RowPayloadError>)
    requires |rows| < U64_LIMIT
    ensures r == if Fits(codec, rows) then Ok(Layout(rows)) else Err(EncodeError(codec, rows))
  {
    if |rows| > codec.maxRows {
      return Err(RowLimitExceeded(|rows|, codec.maxRows));
    }
    var payloadLen := SizeRows(HEADER_LEN, rows);
    if payloadLen.None? {
      return Err(PayloadTooLarge(U64_LIMIT - 1, codec.maxPayloadLen));
    }
    if payloadLen.value > codec.maxPayloadLen {
      return Err(PayloadTooLarge(payloadLen.value, codec.maxPayloadLen));
    }
    var payload := AppendRows(U64Bytes(|rows|), rows);
    return Ok(payload);
  }

  /** The checks made before any row is read; the result is the declared row count. */
  function ReadHeader(codec: Codec, p: seq<byte>): (r: Result<nat, RowPayloadError>)
    requires |p| <= ISIZE_MAX
    ensures r.Ok? ==> HEADER_LEN <= |p| <= codec.maxPayloadLen
  {
    if |p| > codec.maxPayloadLen then
      Err(PayloadTooLarge(|p|, codec.maxPayloadLen))
    else if |p| < HEADER_LEN then
      Err(Truncated(HEADER_LEN, |p|))
    else
      var rowCount := U64At(p, 0);
      if rowCount > codec.maxRows then
        Err(RowLimitExceeded(rowCount, codec.maxRows))
      else
        match CheckedAdd(HEADER_LEN, rowCount)
        case None => Err(PayloadTooLarge(U64_LIMIT - 1, codec.maxPayloadLen))
        case Some(minimumLen) =>
          if minimumLen > codec.maxPayloadLen then
            Err(PayloadTooLarge(minimumLen, codec.maxPayloadLen))
          else if |p| < minimumLen then
            Err(Truncated(minimumLen, |p|))
          else
            Ok(rowCount)
  }

  function RowError(fault: RowFault, actualLen: nat): (r: RowPayloadError) {
    match fault
    case CutShort(expectedLen) => Truncated(expectedLen, actualLen)
    case BadTag(rowIndex, tag) => InvalidTag(rowIndex, tag)
    case NullRow(rowIndex) => InvalidTag(rowIndex, NULL_TAG)
  }

  /** The whole outcome of decoding, as one pass over the payload. */
  function DecodeOutcome(codec: Codec, p: seq<byte>): (r: Result<seq<Row>, RowPayloadError>)
    requires |p| <= ISIZE_MAX
  {
    match ReadHeader(codec, p)
    case Err(error) => Err(error)
    case Ok(rowCount) =>
      match ScanRows(p, HEADER_LEN, rowCount, 0, true)
      case Err(fault) => Err(RowError(fault, |p|))
      case Ok(end) =>
        if |p| > end then Err(TrailingData(end, |p|))
        else Ok(RowsAt(p, HEADER_LEN, rowCount, 0, true))
  }

  method Decode(codec: Codec, p: seq<byte>) returns (r: Result<seq<Row>, RowPayloadError>)
    requires |p| <= ISIZE_MAX
    ensures r == DecodeOutcome(codec, p)
  {
    var header := ReadHeader(codec, p);
    if header.Err? {
      return Err(header.error);
    }
    var validated := ValidateRows(p, HEADER_LEN, header.value, true);
    match validated {
      case Err(fault) =>
        return Err(RowError(fault, |p|));
      case Ok(end) =>
        if |p| > end {
          return Err(TrailingData(end, |p|));
        }
    }
    var rows := DecodeRows(p, HEADER_LEN, header.value, true);
    return Ok(rows);
  }

  lemma LayoutHolds(p: seq<byte>, rows: seq<Row>)
    requires |rows| < U64_LIMIT
    ensures p == Layout(rows)
       <==> HoldsAt(p, 0, U64Bytes(|rows|)) && HoldsAt(p, HEADER_LEN, RowsBytes(rows)) && |p| == |Layout(rows)|
  {
    HoldsAtConcat(p, 0, U64Bytes(|rows|), RowsBytes(rows));
    HoldsAtWhole(p, Layout(rows));
  }

  lemma AcceptedIsLayout(codec: Codec, p: seq<byte>, rows: seq<Row>)
    requires |p| <= ISIZE_MAX && DecodeOutcome(codec, p) == Ok(rows)
    ensures Fits(codec, rows) && |rows| < U64_LIMIT && p == Layout(rows)
  {
    var rowCount := ReadHeader(codec, p).value;
    RowsAtBytes(p, HEADER_LEN, rowCount, 0, true);
    U64AtHolds(p, 0, rowCount);
    LayoutHolds(p, rows);
  }

  lemma LayoutIsAccepted(codec: Codec, rows: seq<Row>)
    requires Fits(codec, rows) && |rows| < U64_LIMIT && |Layout(rows)| <= ISIZE_MAX
    ensures DecodeOutcome(codec, Layout(rows)) == Ok(rows)
  {
    var p := Layout(rows);
    LayoutHolds(p, rows);
    U64AtHolds(p, 0, |rows|);
    RowsBytesAt(p, HEADER_LEN, rows, 0, true);
  }

  /** Decoding and the layout are mutually inverse: a payload decodes to given rows exactly
      when it is their layout and they are within the codec's limits. */
  lemma DecodeInvertsLayout(codec: Codec, p: seq<byte>, rows: seq<Row>)
    requires |p| <= ISIZE_MAX
    ensures DecodeOutcome(codec, p) == Ok(rows) <==> |rows| < U64_LIMIT && Fits(codec, rows) && p == Layout(rows)
  {
    if DecodeOutcome(codec, p) == Ok(rows) {
      AcceptedIsLayout(codec, p, rows);
    }
    if |rows| < U64_LIMIT && Fits(codec, rows) && p == Layout(rows) {
      LayoutIsAccepted(codec, rows);
    }
  }

  /** A payload cut short anywhere is reported as truncated, with its true length and one that it
      lacks. */
  lemma CutPayloadIsNamed(codec: Codec, rows: seq<Row>, n: nat)
    requires |rows| < U64_LIMIT && Fits(codec, rows) && n < |Layout(rows)| <= ISIZE_MAX
    ensures var r := DecodeOutcome(codec, Layout(rows)[..n]);
      r.Err? && r.error.Truncated? && r.error.actualLen == n < r.error.expectedLen <= |Layout(rows)|
  {
    var p := Layout(rows);
    LayoutHolds(p, rows);
    hide HoldsAt, Layout;
    PrefixCount(p, n, |rows|);
    if n >= HEADER_LEN + |rows| {
      CutIsNamed(p, n, HEADER_LEN, rows, 0, true);
    }
  }

  /** Bytes behind the rows are reported as trailing, with both lengths. */
  lemma LongPayloadIsNamed(codec: Codec, rows: seq<Row>, extra: seq<byte>)
    requires |rows| < U64_LIMIT && Fits(codec, rows) && extra != []
    requires |Layout(rows) + extra| <= ISIZE_MAX && |Layout(rows) + extra| <= codec.maxPayloadLen
    ensures DecodeOutcome(codec, Layout(rows) + extra) == Err(TrailingData(|Layout(rows)|, |Layout(rows) + extra|))
  {
    var p := Layout(rows) + extra;
    Associates(U64Bytes(|rows|), RowsBytes(rows), extra);
    hide HoldsAt, Layout, RowsBytes;
    HoldsAtWhole(p, p);
    HoldsAtConcat(p, 0, U64Bytes(|rows|), RowsBytes(rows) + extra);
    HoldsAtConcat(p, HEADER_LEN, RowsBytes(rows), extra);
    U64AtHolds(p, 0, |rows|);
    RowsBytesAt(p, HEADER_LEN, rows, 0, true);
  }

  lemma PrefixCount(p: seq<byte>, n: nat, count: u64)
    requires HoldsAt(p, 0, U64Bytes(count)) && n <= |p|
    ensures n >= 8 ==> U64At(p[..n], 0) == count
  {
    if n >= 8 {
      HoldsAtSlice(p, 0, U64Bytes(count));
      HoldsAtSlice(p[..n], 0, U64Bytes(count));
      assert p[..n][0..8] == p[0..8];
      U64AtHolds(p[..n], 0, count);
    }
  }

  /** A wrong tag is reported with its row, whatever follows. */
  lemma TagDamageIsNamed(codec: Codec, p: seq<byte>, count: u64, before: seq<Row>)
    requires |before| < count <= codec.maxRows && HEADER_LEN + count <= |p| <= codec.maxPayloadLen && |p| <= ISIZE_MAX
    requires HoldsAt(p, 0, U64Bytes(count)) && HoldsAt(p, HEADER_LEN, RowsBytes(before))
    requires HEADER_LEN + |RowsBytes(before)| < |p| && p[HEADER_LEN + |RowsBytes(before)|] > 1
    ensures DecodeOutcome(codec, p) == Err(InvalidTag(|before|, p[HEADER_LEN + |RowsBytes(before)|]))
  {
    U64AtHolds(p, 0, count);
    hide HoldsAt, U64At, RowsBytes;
    BadRowIsNamed(p, HEADER_LEN, before, count - |before| - 1, 0, true);
  }
}
