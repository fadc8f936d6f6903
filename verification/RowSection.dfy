/** The tagged row section shared by the plain row payload and the table payload of
    `src/snapshot.rs`: its layout, a one-pass parse, and the two passes that run it. */
module RowSection {
  import opened Words

  const NULL_TAG: byte := 0
  const VALUE_TAG: byte := 1

  function RowBytes(row: Row): (r: seq<byte>)
    ensures |r| == if row.None? then 1 else 9
  {
    match row
    case None => [NULL_TAG]
    case Some(v) => [VALUE_TAG] + I64Bytes(v)
  }

  function RowsBytes(rows: seq<Row>): (r: seq<byte>)
    ensures |rows| <= |r| <= 9 * |rows|
  {
    if rows == [] then [] else RowBytes(rows[0]) + RowsBytes(rows[1..])
  }

  predicate AllPresent(rows: seq<Row>) {
    rows == [] || (rows[0].Some? && AllPresent(rows[1..]))
  }

  datatype RowFault =
    | CutShort(expectedLen: nat)
    | BadTag(rowIndex: nat, tag: byte)
    | NullRow(rowIndex: nat)

  /** The fault of the row at `offset`, if any; `index` is its row number. */
  function RowFaultAt(p: seq<byte>, offset: nat, index: nat, nullable: bool): (r: Option<RowFault>)
    requires offset <= |p|
  {
    if offset == |p| then
      Some(CutShort(offset + 1))
    else if p[offset] == NULL_TAG then
      if nullable then None else Some(NullRow(index))
    else if p[offset] == VALUE_TAG then
      if |p| < offset + 9 then Some(CutShort(offset + 9)) else None
    else
      Some(BadTag(index, p[offset]))
  }

  /** The offset after `count` rows, or the first fault. */
  function ScanRows(p: seq<byte>, offset: nat, count: nat, index: nat, nullable: bool): (r: Result<nat, RowFault>)
    requires offset <= |p|
    ensures r.Ok? ==> offset <= r.value <= |p|
    decreases count, p
  {
    if count == 0 then
      Ok(offset)
    else
      match RowFaultAt(p, offset, index, nullable)
      case Some(fault) => Err(fault)
      case None => ScanRows(p, AfterRow(p, offset), count - 1, index + 1, nullable)
  }

  function AfterRow(p: seq<byte>, offset: nat): (r: nat)
    requires offset < |p|
  {
    if p[offset] == NULL_TAG then offset + 1 else offset + 9
  }

  function RowAt(p: seq<byte>, offset: nat): (r: Row)
    requires offset < |p| && AfterRow(p, offset) <= |p|
  {
    if p[offset] == NULL_TAG then None else Some(I64At(p, offset + 1))
  }

  /** The rows that a fault-free scan passes over. */
  function RowsAt(p: seq<byte>, offset: nat, count: nat, index: nat, nullable: bool): (r: seq<Row>)
    requires offset <= |p| && ScanRows(p, offset, count, index, nullable).Ok?
    ensures |r| == count
    decreases count, p
  {
    if count == 0 then []
    else [RowAt(p, offset)] + RowsAt(p, AfterRow(p, offset), count - 1, index + 1, nullable)
  }

  lemma RowAtBytes(p: seq<byte>, offset: nat, index: nat, nullable: bool)
    requires offset <= |p| && RowFaultAt(p, offset, index, nullable).None?
    ensures HoldsAt(p, offset, RowBytes(RowAt(p, offset)))
    ensures AfterRow(p, offset) == offset + |RowBytes(RowAt(p, offset))|
    ensures nullable || RowAt(p, offset).Some?
  {
    if p[offset] == VALUE_TAG {
      I64AtHolds(p, offset + 1, I64At(p, offset + 1));
      HoldsAtConcat(p, offset, [VALUE_TAG], I64Bytes(I64At(p, offset + 1)));
    }
  }

  lemma RowBytesAt(p: seq<byte>, offset: nat, row: Row, index: nat, nullable: bool)
    requires HoldsAt(p, offset, RowBytes(row)) && (nullable || row.Some?)
    ensures RowFaultAt(p, offset, index, nullable).None?
    ensures AfterRow(p, offset) == offset + |RowBytes(row)|
    ensures RowAt(p, offset) == row
  {
    assert RowBytes(row)[0] == p[offset];
    if row.Some? {
      HoldsAtConcat(p, offset, [VALUE_TAG], I64Bytes(row.value));
      I64AtHolds(p, offset + 1, row.value);
    }
  }

  /** What a scan accepts is the layout of the rows it passes over. */
  lemma {:induction false} RowsAtBytes(p: seq<byte>, offset: nat, count: nat, index: nat, nullable: bool)
    requires offset <= |p| && ScanRows(p, offset, count, index, nullable).Ok?
    ensures var rows := RowsAt(p, offset, count, index, nullable);
      && HoldsAt(p, offset, RowsBytes(rows))
      && ScanRows(p, offset, count, index, nullable).value == offset + |RowsBytes(rows)|
      && (nullable || AllPresent(rows))
    decreases count
  {
    if count > 0 {
      var row, next := RowAt(p, offset), AfterRow(p, offset);
      RowAtBytes(p, offset, index, nullable);
      RowsAtBytes(p, next, count - 1, index + 1, nullable);
      var rest := RowsAt(p, next, count - 1, index + 1, nullable);
      HoldsAtConcat(p, offset, RowBytes(row), RowsBytes(rest));
    }
  }

  lemma {:induction false} RowsBytesScan(p: seq<byte>, offset: nat, rows: seq<Row>, index: nat, nullable: bool)
    requires HoldsAt(p, offset, RowsBytes(rows)) && (nullable || AllPresent(rows))
    ensures ScanRows(p, offset, |rows|, index, nullable) == Ok(offset + |RowsBytes(rows)|)
    decreases |rows|
  {
    if rows != [] {
      var head := RowBytes(rows[0]);
      HoldsAtConcat(p, offset, head, RowsBytes(rows[1..]));
      RowBytesAt(p, offset, rows[0], index, nullable);
      RowsBytesScan(p, offset + |head|, rows[1..], index + 1, nullable);
    }
  }

  lemma {:induction false} ScannedRowsAt(p: seq<byte>, offset: nat, rows: seq<Row>, index: nat, nullable: bool)
    requires HoldsAt(p, offset, RowsBytes(rows)) && (nullable || AllPresent(rows))
    requires ScanRows(p, offset, |rows|, index, nullable).Ok?
    ensures RowsAt(p, offset, |rows|, index, nullable) == rows
    decreases |rows|
  {
    if rows != [] {
      var head := RowBytes(rows[0]);
      HoldsAtConcat(p, offset, head, RowsBytes(rows[1..]));
      RowBytesAt(p, offset, rows[0], index, nullable);
      ScannedRowsAt(p, offset + |head|, rows[1..], index + 1, nullable);
      FirstAndRest(rows);
    }
  }

  /** Every layout of admissible rows scans without fault to those rows, whatever follows it. */
  lemma RowsBytesAt(p: seq<byte>, offset: nat, rows: seq<Row>, index: nat, nullable: bool)
    requires HoldsAt(p, offset, RowsBytes(rows)) && (nullable || AllPresent(rows))
    ensures ScanRows(p, offset, |rows|, index, nullable) == Ok(offset + |RowsBytes(rows)|)
    ensures RowsAt(p, offset, |rows|, index, nullable) == rows
  {
    RowsBytesScan(p, offset, rows, index, nullable);
    ScannedRowsAt(p, offset, rows, index, nullable);
  }

  // ---------- the faults are named ----------

  /** Rows cut short anywhere are reported as such, with a length that the cut payload lacks and
      the whole one has. */
  lemma {:induction false} CutIsNamed(p: seq<byte>, n: nat, offset: nat, rows: seq<Row>, index: nat, nullable: bool)
    requires HoldsAt(p, offset, RowsBytes(rows)) && (nullable || AllPresent(rows))
    requires offset <= n < offset + |RowsBytes(rows)| <= |p|
    ensures var r := ScanRows(p[..n], offset, |rows|, index, nullable);
      r.Err? && r.error.CutShort? && n < r.error.expectedLen <= offset + |RowsBytes(rows)|
    decreases |rows|
  {
    if rows != [] {
      var head := RowBytes(rows[0]);
      HoldsAtConcat(p, offset, head, RowsBytes(rows[1..]));
      assert p[offset] == head[0];
      assert offset < n ==> p[..n][offset] == head[0];
      if n >= offset + |head| {
        CutIsNamed(p, n, offset + |head|, rows[1..], index + 1, nullable);
      }
    }
  }

  /** A tag that is neither of the two, or a NULL that is not allowed, is reported with its row,
      whatever follows. */
  lemma {:induction false} BadRowIsNamed(p: seq<byte>, offset: nat, before: seq<Row>, more: nat, index: nat,
                                         nullable: bool)
    requires HoldsAt(p, offset, RowsBytes(before)) && (nullable || AllPresent(before))
    requires offset + |RowsBytes(before)| < |p|
    ensures var tag := p[offset + |RowsBytes(before)|];
      var r := ScanRows(p, offset, |before| + 1 + more, index, nullable);
      && (tag > 1 ==> r == Err(BadTag(index + |before|, tag)))
      && (tag == 0 && !nullable ==> r == Err(NullRow(index + |before|)))
    decreases |before|
  {
    if before != [] {
      var head := RowBytes(before[0]);
      HoldsAtConcat(p, offset, head, RowsBytes(before[1..]));
      RowBytesAt(p, offset, before[0], index, nullable);
      hide HoldsAt, RowBytes, RowAt;
      BadRowIsNamed(p, offset + |head|, before[1..], more, index + 1, nullable);
    }
  }

  // ---------- the loops ----------

  /** The checked sizing fold: `None` exactly when the total leaves `usize`. */
  method SizeRows(start: usize, rows: seq<Row>) returns (r: Option<usize>)
    ensures r == CheckedAdd(start, |RowsBytes(rows)|)
  {
    var length: usize := start;
    assert rows[0..] == rows;
    for i := 0 to |rows|
      invariant length + |RowsBytes(rows[i..])| == start + |RowsBytes(rows)|
    {
      var next := CheckedAdd(length, if rows[i].Some? then 1 + 8 else 1);
      if next.None? {
        return None;
      }
      length := next.value;
    }
    return Some(length);
  }

  /** The emitting loop. */
  method AppendRows(prefix: seq<byte>, rows: seq<Row>) returns (payload: seq<byte>)
    ensures payload == prefix + RowsBytes(rows)
  {
    payload := prefix;
    assert rows[0..] == rows;
    for i := 0 to |rows|
      invariant payload + RowsBytes(rows[i..]) == prefix + RowsBytes(rows)
    {
      ghost var before := payload;
      match rows[i] {
        case None =>
          payload := payload + [NULL_TAG];
        case Some(value) =>
          payload := payload + [VALUE_TAG];
          payload := payload + I64Bytes(value);
          Associates(before, [VALUE_TAG], I64Bytes(value));
      }
      assert payload == before + RowBytes(rows[i]);
      Associates(before, RowBytes(rows[i]), RowsBytes(rows[i + 1..]));
    }
  }

  /** The validating pass: it allocates nothing and stops at the first fault. */
  method ValidateRows(p: seq<byte>, start: nat, count: nat, nullable: bool) returns (r: Result<nat, RowFault>)
    requires start <= |p| <= ISIZE_MAX
    ensures r == ScanRows(p, start, count, 0, nullable)
  {
    var offset := start;
    for index := 0 to count
      invariant start <= offset <= |p|
      invariant ScanRows(p, start, count, 0, nullable) == ScanRows(p, offset, count - index, index, nullable)
    {
      var tagEnd := SaturatingAdd(offset, 1);
      if offset >= |p| {
        return Err(CutShort(tagEnd));
      }
      var tag := p[offset];
      offset := tagEnd;
      if tag == NULL_TAG {
        if !nullable {
          return Err(NullRow(index));
        }
      } else if tag == VALUE_TAG {
        var valueEnd := SaturatingAdd(offset, 8);
        if |p| < valueEnd {
          return Err(CutShort(valueEnd));
        }
        offset := valueEnd;
      } else {
        return Err(BadTag(index, tag));
      }
    }
    return Ok(offset);
  }

  /** The unchecked decoding pass; after validation no access leaves the payload. */
  method DecodeRows(p: seq<byte>, start: nat, count: nat, ghost nullable: bool) returns (rows: seq<Row>)
    requires start <= |p|
    requires ScanRows(p, start, count, 0, nullable).Ok?
    ensures rows == RowsAt(p, start, count, 0, nullable)
  {
    rows := [];
    var offset := start;
    ghost var whole := RowsAt(p, start, count, 0, nullable);
    for index := 0 to count
      invariant start <= offset <= |p|
      invariant ScanRows(p, offset, count - index, index, nullable).Ok?
      invariant RowsAt(p, offset, count - index, index, nullable) == whole[index..]
      invariant rows == whole[..index]
    {
      assert whole[index] == whole[index..][0] == RowAt(p, offset);
      assert whole[index..][1..] == whole[index + 1..];
      var tag := p[offset];
      offset := offset + 1;
      if tag == NULL_TAG {
        rows := rows + [None];
      } else {
        rows := rows + [Some(I64At(p, offset))];
        offset := offset + 8;
      }
      assert rows == whole[..index + 1];
    }
  }
}
