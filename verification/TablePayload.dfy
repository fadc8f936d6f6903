/** The self-describing `Int64` table payload of `src/snapshot.rs`. */
module TablePayload {
  import opened Words
  import opened RowSection
  import opened Storage

  /** `b"RHITBLP\0"`. */
  const MAGIC: seq<byte> := [0x52, 0x48, 0x49, 0x54, 0x42, 0x4C, 0x50, 0]
  const VERSION: u16 := 1
  const INT64_TAG: byte := 1
  const NOT_NULL_TAG: byte := 0
  const NULLABLE_TAG: byte := 1
  const NAME_OFFSET: nat := 20
  const FIXED_LEN: nat := 36

  datatype TablePayloadError =
    | NameTooLong(nameLen: u64, maxNameLen: usize)
    | RowCapLimitExceeded(rowCap: u64, maxRows: usize)
    | RowLimitExceeded(rowCount: u64, maxRows: usize)
    | RowsExceedRowCap(rowCount: u64, rowCap: u64)
    | PayloadTooLarge(payloadLen: u64, maxPayloadLen: usize)
    | Truncated(expectedLen: nat, actualLen: nat)
    | IncompatibleMagic(foundMagic: seq<byte>)
    | UnsupportedVersion(found: u16, supported: u16)
    | UnknownColumnTypeTag(tag: byte)
    | UnknownNullabilityTag(tag: byte)
    | InvalidColumnNameUtf8(validUpTo: nat)
    | NullNotAllowed(rowIndex: nat)
    | UnknownRowTag(rowIndex: nat, tag: byte)
    | TrailingData(expectedLen: nat, actualLen: nat)

  datatype Codec = Codec(maxNameLen: usize, maxRows: usize, maxPayloadLen: usize)

  // ---------- UTF-8 ----------

  predicate Continuation(b: byte) { 0x80 <= b < 0xC0 }

  /** The length of the well-formed character at the front of `b`, or 0 (section 4 of RFC 3629). */
  function CharacterLen(b: seq<byte>): (r: nat)
    ensures r <= |b| && r <= 4
  {
    if b == [] then 0
    else if b[0] < 0x80 then 1
    else if |b| >= 2 && 0xC2 <= b[0] < 0xE0 && Continuation(b[1]) then 2
    else if |b| >= 3 && 0xE0 <= b[0] < 0xF0 && Continuation(b[1]) && Continuation(b[2])
            && (b[0] == 0xE0 ==> 0xA0 <= b[1]) && (b[0] == 0xED ==> b[1] < 0xA0) then 3
    else if |b| >= 4 && 0xF0 <= b[0] < 0xF5 && Continuation(b[1]) && Continuation(b[2]) && Continuation(b[3])
            && (b[0] == 0xF0 ==> 0x90 <= b[1]) && (b[0] == 0xF4 ==> b[1] < 0x90) then 4
    else 0
  }

  /** `Utf8Error::valid_up_to`, or the whole length. */
  function ValidUpTo(b: seq<byte>): (r: nat)
    ensures r <= |b|
    decreases |b|
  {
    var len := CharacterLen(b);
    if len == 0 then 0 else len + ValidUpTo(b[len..])
  }

  predicate ValidUtf8(b: seq<byte>) { ValidUpTo(b) == |b| }

  // ---------- layout ----------

  function NullabilityTag(nullable: bool): (r: byte) {
    if nullable then NULLABLE_TAG else NOT_NULL_TAG
  }

  predicate WordSized(table: Contents) {
    |table.schema.name| < U64_LIMIT && |table.rows| < U64_LIMIT
  }

  function FixedPrefix(schema: Schema): (r: seq<byte>)
    requires |schema.name| < U64_LIMIT
    ensures |r| == NAME_OFFSET
  {
    MAGIC + U16Bytes(VERSION) + [INT64_TAG, NullabilityTag(schema.nullable)] + U64Bytes(|schema.name|)
  }

  function Layout(table: Contents): (r: seq<byte>)
    requires WordSized(table)
    ensures |r| == FIXED_LEN + |table.schema.name| + |RowsBytes(table.rows)|
  {
    FixedPrefix(table.schema) + table.schema.name + U64Bytes(table.rowCap) + U64Bytes(|table.rows|)
    + RowsBytes(table.rows)
  }

  /** The codec's own limits; nothing here relates the rows to the table's row cap. */
  predicate Fits(codec: Codec, table: Contents) {
    && |table.schema.name| <= codec.maxNameLen
    && table.rowCap <= codec.maxRows && |table.rows| <= codec.maxRows
    && FIXED_LEN + |table.schema.name| + |RowsBytes(table.rows)| <= codec.maxPayloadLen
  }

  // ---------- encoding ----------

  function EncodeError(codec: Codec, table: Contents): (r: TablePayloadError)
    requires WordSized(table)
  {
    var total := FIXED_LEN + |table.schema.name| + |RowsBytes(table.rows)|;
    if |table.schema.name| > codec.maxNameLen then NameTooLong(|table.schema.name|, codec.maxNameLen)
    else if table.rowCap > codec.maxRows then RowCapLimitExceeded(table.rowCap, codec.maxRows)
    else if |table.rows| > codec.maxRows then RowLimitExceeded(|table.rows|, codec.maxRows)
    else PayloadTooLarge(Min(total, U64_LIMIT - 1), codec.maxPayloadLen)
  }

  /** Everything before the rows, once the exact payload size is known to fit. */
  method EncodePrefix(codec: Codec, schema: Schema, rowCap: usize, rowCount: usize, encodedRowsLen: Option<usize>)
    returns (r: Result<seq<byte>, TablePayloadError>)
    requires |schema.name| < U64_LIMIT
    ensures match encodedRowsLen
            case None => r == Err(PayloadTooLarge(U64_LIMIT - 1, codec.maxPayloadLen))
            case Some(len) =>
              var total := FIXED_LEN + |schema.name| + len;
              r == if total <= codec.maxPayloadLen
                   then Ok(FixedPrefix(schema) + schema.name + U64Bytes(rowCap) + U64Bytes(rowCount))
                   else Err(PayloadTooLarge(Min(total, U64_LIMIT - 1), codec.maxPayloadLen))
  {
    var fixedLen := CheckedAdd(FIXED_LEN, |schema.name|);
    var payloadLen := if encodedRowsLen.None? || fixedLen.None? then None
                      else CheckedAdd(fixedLen.value, encodedRowsLen.value);
    if payloadLen.None? {
      return Err(PayloadTooLarge(U64_LIMIT - 1, codec.maxPayloadLen));
    }
    if payloadLen.value > codec.maxPayloadLen {
      return Err(PayloadTooLarge(payloadLen.value, codec.maxPayloadLen));
    }
    var payload := MAGIC;
    payload := payload + U16Bytes(VERSION);
    payload := payload + [INT64_TAG];
    payload := payload + [NullabilityTag(schema.nullable)];
    payload := payload + U64Bytes(|schema.name|);
    assert payload == FixedPrefix(schema);
    payload := payload + schema.name;
    payload := payload + U64Bytes(rowCap);
    payload := payload + U64Bytes(rowCount);
    return Ok(payload);
  }

  /** `encode_optional_values`: the entry point shared by tables and raw columns. */
  method EncodeOptionalValues(codec: Codec, schema: Schema, rowCap: usize, values: seq<Row>)
    returns (r: Result<seq<byte>, TablePayloadError>)
    requires |schema.name| < U64_LIMIT && |values| < U64_LIMIT
    ensures var table := TableView(schema, rowCap, values);
      r == if Fits(codec, table) then Ok(Layout(table)) else Err(EncodeError(codec, table))
  {
    if |schema.name| > codec.maxNameLen {
      return Err(NameTooLong(|schema.name|, codec.maxNameLen));
    }
    if rowCap > codec.maxRows {
      return Err(RowCapLimitExceeded(rowCap, codec.maxRows));
    }
    if |values| > codec.maxRows {
      return Err(RowLimitExceeded(|values|, codec.maxRows));
    }
    var rowsLen := SizeRows(0, values);
    r := EncodePrefix(codec, schema, rowCap, |values|, rowsLen);
    if r.Ok? {
      var payload := AppendRows(r.value, values);
      r := Ok(payload);
    }
  }

  method Encode(codec: Codec, table: Int64Table) returns (r: Result<seq<byte>, TablePayloadError>)
    requires table.Valid() && WordSized(table.View())
    ensures r == if Fits(codec, table.View()) then Ok(Layout(table.View())) else Err(EncodeError(codec, table.View()))
  {
    r := EncodeOptionalValues(codec, table.schema, table.rowCap, table.values);
  }

  // ---------- decoding ----------

  datatype Header = Header(schema: Schema, rowCap: usize, rowCount: nat, rowsOffset: nat)

  /** The checks up to and including the column name. */
  function ReadSchema(codec: Codec, p: seq<byte>): (r: Result<Schema, TablePayloadError>)
    requires |p| <= ISIZE_MAX
    ensures r.Ok? ==> NAME_OFFSET + |r.value.name| <= |p| <= codec.maxPayloadLen
  {
    if |p| > codec.maxPayloadLen then Err(PayloadTooLarge(|p|, codec.maxPayloadLen))
    else if |p| < NAME_OFFSET then Err(Truncated(NAME_OFFSET, |p|))
    else if p[..8] != MAGIC then Err(IncompatibleMagic(p[..8]))
    else if U16At(p, 8) != VERSION then Err(UnsupportedVersion(U16At(p, 8), VERSION))
    else if p[10] != INT64_TAG then Err(UnknownColumnTypeTag(p[10]))
    else if p[11] != NOT_NULL_TAG && p[11] != NULLABLE_TAG then Err(UnknownNullabilityTag(p[11]))
    else
      var nameLen := U64At(p, 12);
      if nameLen > codec.maxNameLen then Err(NameTooLong(nameLen, codec.maxNameLen))
      else
        match CheckedAdd(NAME_OFFSET, nameLen)
        case None => Err(PayloadTooLarge(U64_LIMIT - 1, codec.maxPayloadLen))
        case Some(nameEnd) =>
          if |p| < nameEnd then Err(Truncated(nameEnd, |p|))
          else
            var name := p[NAME_OFFSET..nameEnd];
            if !ValidUtf8(name) then Err(InvalidColumnNameUtf8(ValidUpTo(name)))
            else Ok(Schema(name, p[11] == NULLABLE_TAG))
  }

  /** The checks between the column name and the first row. */
  function ReadCounts(codec: Codec, p: seq<byte>, schema: Schema): (r: Result<Header, TablePayloadError>)
    requires NAME_OFFSET + |schema.name| <= |p| <= ISIZE_MAX
    ensures r.Ok? ==> r.value.rowsOffset <= |p| && r.value.schema == schema
  {
    var nameEnd := NAME_OFFSET + |schema.name|;
    match CheckedAdd(nameEnd, 16)
    case None => Err(PayloadTooLarge(U64_LIMIT - 1, codec.maxPayloadLen))
    case Some(rowsOffset) =>
      if rowsOffset > codec.maxPayloadLen then Err(PayloadTooLarge(rowsOffset, codec.maxPayloadLen))
      else if |p| < rowsOffset then Err(Truncated(rowsOffset, |p|))
      else
        var rowCap := U64At(p, nameEnd);
        var rowCount := U64At(p, nameEnd + 8);
        if rowCap > codec.maxRows then Err(RowCapLimitExceeded(rowCap, codec.maxRows))
        else if rowCount > codec.maxRows then Err(RowLimitExceeded(rowCount, codec.maxRows))
        else if rowCount > rowCap then Err(RowsExceedRowCap(rowCount, rowCap))
        else
          match CheckedAdd(rowsOffset, rowCount)
          case None => Err(PayloadTooLarge(U64_LIMIT - 1, codec.maxPayloadLen))
          case Some(minimumLen) =>
            if minimumLen > codec.maxPayloadLen then Err(PayloadTooLarge(minimumLen, codec.maxPayloadLen))
            else if |p| < minimumLen then Err(Truncated(minimumLen, |p|))
            else Ok(Header(schema, rowCap, rowCount, rowsOffset))
  }

  function ReadHeader(codec: Codec, p: seq<byte>): (r: Result<Header, TablePayloadError>)
    requires |p| <= ISIZE_MAX
    ensures r.Ok? ==> r.value.rowsOffset <= |p|
  {
    match ReadSchema(codec, p)
    case Err(error) => Err(error)
    case Ok(schema) => ReadCounts(codec, p, schema)
  }

  function RowError(fault: RowFault, actualLen: nat): (r: TablePayloadError) {
    match fault
    case CutShort(expectedLen) => Truncated(expectedLen, actualLen)
    case BadTag(rowIndex, tag) => UnknownRowTag(rowIndex, tag)
    case NullRow(rowIndex) => TablePayloadError.NullNotAllowed(rowIndex)
  }

  /** The whole outcome of decoding, as one pass over the payload. */
  function DecodeOutcome(codec: Codec, p: seq<byte>): (r: Result<Contents, TablePayloadError>)
    requires |p| <= ISIZE_MAX
  {
    match ReadHeader(codec, p)
    case Err(error) => Err(error)
    case Ok(h) =>
      match ScanRows(p, h.rowsOffset, h.rowCount, 0, h.schema.nullable)
      case Err(fault) => Err(RowError(fault, |p|))
      case Ok(end) =>
        if |p| > end then Err(TrailingData(end, |p|))
        else Ok(TableView(h.schema, h.rowCap, RowsAt(p, h.rowsOffset, h.rowCount, 0, h.schema.nullable)))
  }

  /** Validates, decodes, then builds the table; the final append cannot be refused. */
  method Decode(codec: Codec, p: seq<byte>) returns (r: Result<Int64Table, TablePayloadError>)
    requires |p| <= ISIZE_MAX
    ensures match DecodeOutcome(codec, p)
            case Err(error) => r == Err(error)
            case Ok(table) => r.Ok? && fresh(r.value) && r.value.Valid() && r.value.View() == table
  {
    var header := ReadHeader(codec, p);
    if header.Err? {
      return Err(header.error);
    }
    var Header(schema, rowCap, rowCount, rowsOffset) := header.value;
    var validated := ValidateRows(p, rowsOffset, rowCount, schema.nullable);
    match validated {
      case Err(fault) =>
        return Err(RowError(fault, |p|));
      case Ok(end) =>
        if |p| > end {
          return Err(TrailingData(end, |p|));
        }
    }
    var rows := DecodeRows(p, rowsOffset, rowCount, schema.nullable);
    var table := new Int64Table(schema, rowCap);
    RowsAtBytes(p, rowsOffset, rowCount, 0, schema.nullable);
    var refused := table.AppendBatch(rows);
    assert [] + rows == rows;
    assert refused.None?;
    return Ok(table);
  }

  // ---------- inverse laws ----------

  /** The four fields that make up a layout, at their offsets. */
  predicate LayoutHolds(p: seq<byte>, t: Contents)
    requires WordSized(t)
  {
    var nameEnd := NAME_OFFSET + |t.schema.name|;
    && HoldsAt(p, 0, FixedPrefix(t.schema))
    && HoldsAt(p, NAME_OFFSET, t.schema.name)
    && HoldsAt(p, nameEnd, U64Bytes(t.rowCap))
    && HoldsAt(p, nameEnd + 8, U64Bytes(|t.rows|))
    && HoldsAt(p, nameEnd + 16, RowsBytes(t.rows))
    && |p| == nameEnd + 16 + |RowsBytes(t.rows)|
  }

  lemma LayoutFields(p: seq<byte>, t: Contents)
    requires WordSized(t)
    ensures p == Layout(t) <==> LayoutHolds(p, t)
  {
    var a, b, c, d, e := FixedPrefix(t.schema), t.schema.name, U64Bytes(t.rowCap), U64Bytes(|t.rows|),
        RowsBytes(t.rows);
    HoldsAtConcat(p, 0, a, b);
    HoldsAtConcat(p, 0, a + b, c);
    HoldsAtConcat(p, 0, a + b + c, d);
    HoldsAtConcat(p, 0, a + b + c + d, e);
    HoldsAtWhole(p, Layout(t));
  }

  lemma PrefixFields(p: seq<byte>, schema: Schema)
    requires |schema.name| < U64_LIMIT && |p| >= NAME_OFFSET
    ensures HoldsAt(p, 0, FixedPrefix(schema))
       <==> (p[..8] == MAGIC && U16At(p, 8) == VERSION && p[10] == INT64_TAG
             && p[11] == NullabilityTag(schema.nullable) && U64At(p, 12) == |schema.name|)
  {
    var tags := [INT64_TAG, NullabilityTag(schema.nullable)];
    HoldsAtFour(p, MAGIC, U16Bytes(VERSION), tags, U64Bytes(|schema.name|));
    HoldsAtSlice(p, 0, MAGIC);
    U16AtHolds(p, 8, VERSION);
    HoldsAtSlice(p, 10, tags);
    U64AtHolds(p, 12, |schema.name|);
    assert p[10..12] == [p[10], p[11]];
  }

  lemma SchemaReadHolds(codec: Codec, p: seq<byte>, schema: Schema)
    requires |p| <= ISIZE_MAX && ReadSchema(codec, p) == Ok(schema)
    ensures |p| <= codec.maxPayloadLen && |schema.name| <= codec.maxNameLen && ValidUtf8(schema.name)
    ensures HoldsAt(p, 0, FixedPrefix(schema)) && HoldsAt(p, NAME_OFFSET, schema.name)
  {
    hide HoldsAt, ValidUtf8;
    PrefixFields(p, schema);
    HoldsAtSlice(p, NAME_OFFSET, schema.name);
  }

  lemma HeldSchemaIsRead(codec: Codec, p: seq<byte>, schema: Schema)
    requires |p| <= codec.maxPayloadLen && |schema.name| <= codec.maxNameLen && ValidUtf8(schema.name)
    requires |p| <= ISIZE_MAX && HoldsAt(p, 0, FixedPrefix(schema)) && HoldsAt(p, NAME_OFFSET, schema.name)
    ensures ReadSchema(codec, p) == Ok(schema)
  {
    hide ValidUtf8;
    PrefixFields(p, schema);
    HoldsAtSlice(p, NAME_OFFSET, schema.name);
  }

  lemma ReadCountsAcceptsFields(codec: Codec, p: seq<byte>, schema: Schema, rowCap: usize, rowCount: u64)
    requires NAME_OFFSET + |schema.name| <= |p| <= ISIZE_MAX && |p| <= codec.maxPayloadLen
    ensures var nameEnd := NAME_OFFSET + |schema.name|;
      ReadCounts(codec, p, schema) == Ok(Header(schema, rowCap, rowCount, nameEnd + 16))
      <==> (rowCount <= rowCap <= codec.maxRows && nameEnd + 16 + rowCount <= |p|
            && HoldsAt(p, nameEnd, U64Bytes(rowCap)) && HoldsAt(p, nameEnd + 8, U64Bytes(rowCount)))
  {
    var nameEnd := NAME_OFFSET + |schema.name|;
    if nameEnd + 16 <= |p| {
      U64AtHolds(p, nameEnd, rowCap);
      U64AtHolds(p, nameEnd + 8, rowCount);
    }
  }

  lemma AcceptedIsLayout(codec: Codec, p: seq<byte>, t: Contents)
    requires |p| <= ISIZE_MAX && DecodeOutcome(codec, p) == Ok(t)
    ensures WordSized(t) && ValidUtf8(t.schema.name) && Admissible(t) && Fits(codec, t) && p == Layout(t)
  {
    var h := ReadHeader(codec, p).value;
    SchemaReadHolds(codec, p, h.schema);
    ReadCountsAcceptsFields(codec, p, h.schema, h.rowCap, h.rowCount);
    RowsAtBytes(p, h.rowsOffset, h.rowCount, 0, h.schema.nullable);
    LayoutFields(p, t);
  }

  lemma LayoutIsAccepted(codec: Codec, p: seq<byte>, t: Contents)
    requires WordSized(t) && ValidUtf8(t.schema.name) && Admissible(t) && Fits(codec, t)
    requires p == Layout(t) && |p| <= ISIZE_MAX
    ensures DecodeOutcome(codec, p) == Ok(t)
  {
    LayoutFields(p, t);
    HeldSchemaIsRead(codec, p, t.schema);
    ReadCountsAcceptsFields(codec, p, t.schema, t.rowCap, |t.rows|);
    RowsBytesAt(p, FIXED_LEN + |t.schema.name|, t.rows, 0, t.schema.nullable);
  }

  /** A payload decodes to a table exactly when it is the table's layout, the table is within
      the codec's limits, its name is UTF-8, and its rows respect its own cap and nullability. */
  lemma DecodeInvertsLayout(codec: Codec, p: seq<byte>, t: Contents)
    requires |p| <= ISIZE_MAX
    ensures DecodeOutcome(codec, p) == Ok(t)
       <==> WordSized(t) && ValidUtf8(t.schema.name) && Admissible(t) && Fits(codec, t) && p == Layout(t)
  {
    if DecodeOutcome(codec, p) == Ok(t) {
      AcceptedIsLayout(codec, p, t);
    }
    if WordSized(t) && ValidUtf8(t.schema.name) && Admissible(t) && Fits(codec, t) && p == Layout(t) {
      LayoutIsAccepted(codec, p, t);
    }
  }

  lemma RowsBytesInjective(a: seq<Row>, b: seq<Row>)
    requires |a| == |b| && RowsBytes(a) == RowsBytes(b)
    ensures a == b
  {
    var p := RowsBytes(a);
    HoldsAtWhole(p, p);
    RowsBytesAt(p, 0, a, 0, true);
    RowsBytesAt(p, 0, b, 0, true);
  }

  lemma SameWordAt(p: seq<byte>, offset: nat, a: u64, b: u64)
    requires HoldsAt(p, offset, U64Bytes(a)) && HoldsAt(p, offset, U64Bytes(b))
    ensures a == b
  {
    U64AtHolds(p, offset, a);
    U64AtHolds(p, offset, b);
  }

  lemma SameBytesAt(p: seq<byte>, offset: nat, a: seq<byte>, b: seq<byte>)
    requires HoldsAt(p, offset, a) && HoldsAt(p, offset, b) && |a| == |b|
    ensures a == b
  {
    HoldsAtSlice(p, offset, a);
    HoldsAtSlice(p, offset, b);
  }

  /** No two tables share a payload, admissible or not. */
  lemma LayoutInjective(t: Contents, u: Contents)
    requires WordSized(t) && WordSized(u) && Layout(t) == Layout(u)
    ensures t == u
  {
    var p := Layout(t);
    LayoutFields(p, t);
    LayoutFields(p, u);
    PrefixFields(p, t.schema);
    PrefixFields(p, u.schema);
    var nameEnd := NAME_OFFSET + |t.schema.name|;
    SameBytesAt(p, NAME_OFFSET, t.schema.name, u.schema.name);
    SameWordAt(p, nameEnd, t.rowCap, u.rowCap);
    SameWordAt(p, nameEnd + 8, |t.rows|, |u.rows|);
    SameBytesAt(p, nameEnd + 16, RowsBytes(t.rows), RowsBytes(u.rows));
    RowsBytesInjective(t.rows, u.rows);
  }

  /** Raw columns are encoded without looking at the row cap: what `EncodeOptionalValues`
      writes is readable by the same codec exactly when the rows fit the cap and the
      nullability written beside them. */
  lemma EncodedColumnReadableExactlyWhenAdmissible(codec: Codec, t: Contents)
    requires WordSized(t) && Fits(codec, t) && ValidUtf8(t.schema.name) && |Layout(t)| <= ISIZE_MAX
    ensures DecodeOutcome(codec, Layout(t)).Ok? <==> Admissible(t)
  {
    var r := DecodeOutcome(codec, Layout(t));
    DecodeInvertsLayout(codec, Layout(t), t);
    if r.Ok? {
      AcceptedIsLayout(codec, Layout(t), r.value);
      LayoutInjective(t, r.value);
    }
  }

  /** What the raw encoders are given is nullable or all present, so only the cap can be broken. */
  lemma RawColumnReadableExactlyWithinCap(codec: Codec, t: Contents)
    requires WordSized(t) && Fits(codec, t) && ValidUtf8(t.schema.name) && |Layout(t)| <= ISIZE_MAX
    requires t.schema.nullable || AllPresent(t.rows)
    ensures DecodeOutcome(codec, Layout(t)).Ok? <==> |t.rows| <= t.rowCap
  {
    hide DecodeOutcome, Layout, Fits, ValidUtf8;
    EncodedColumnReadableExactlyWhenAdmissible(codec, t);
  }

  /** One NULL row under a cap of zero: encoded within every limit, and not readable. */
  lemma OverfullColumnIsUnreadable()
    ensures var codec, t := Codec(1, 1, FIXED_LEN + 2), TableView(Schema([97], true), 0, [None]);
      WordSized(t) && Fits(codec, t) && DecodeOutcome(codec, Layout(t)).Err?
  {
    var codec, t := Codec(1, 1, FIXED_LEN + 2), TableView(Schema([97], true), 0, [None]);
    assert RowsBytes(t.rows[1..]) == [];
    assert ValidUtf8([97]);
    RawColumnReadableExactlyWithinCap(codec, t);
  }
}
