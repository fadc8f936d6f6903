/** The run-length payload of `src/snapshot.rs`. */
module RlePayload {
  import opened Words
  import opened RowSection

  /** `b"RHNRLEP\0"`. */
  const MAGIC: seq<byte> := [0x52, 0x48, 0x4E, 0x52, 0x4C, 0x45, 0x50, 0]
  const VERSION: u16 := 1
  const HEADER_LEN: nat := 26
  const RUN_HEADER_LEN: nat := 9

  datatype RlePayloadError =
    | RowLimitExceeded(rowCount: u64, maxRows: usize)
    | RunLimitExceeded(runCount: u64, maxRuns: usize)
    | PayloadTooLarge(payloadLen: u64, maxPayloadLen: usize)
    | Truncated(expectedLen: nat, actualLen: nat)
    | IncompatibleMagic(foundMagic: seq<byte>)
    | UnsupportedVersion(found: u16, supported: u16)
    | UnknownRunTag(runIndex: nat, tag: byte)
    | ZeroLengthRun(runIndex: nat)
    | RowCountOverflow(runIndex: nat, decodedRows: u64, runLength: u64)
    | RowCountMismatch(declaredRows: u64, decodedRows: u64)
    | TrailingData(expectedLen: nat, actualLen: nat)

  datatype Codec = Codec(maxRows: usize, maxRuns: usize, maxPayloadLen: usize)

  // ---------- runs ----------

  datatype Run = Run(value: Row, length: u64)

  function Expand(runs: seq<Run>): (r: seq<Row>) {
    if runs == [] then [] else Repeat(runs[0].value, runs[0].length) + Expand(runs[1..])
  }

  function TotalRows(runs: seq<Run>): (r: nat) {
    if runs == [] then 0 else runs[0].length + TotalRows(runs[1..])
  }

  lemma {:induction false} ExpandedLength(runs: seq<Run>)
    ensures |Expand(runs)| == TotalRows(runs)
  {
    if runs != [] {
      ExpandedLength(runs[1..]);
    }
  }

  predicate NonEmptyRuns(runs: seq<Run>) {
    runs == [] || (runs[0].length > 0 && NonEmptyRuns(runs[1..]))
  }

  /** `run` in front of `runs`, joined to the first of them when the values agree. */
  function Merge(run: Run, runs: seq<Run>): (r: seq<Run>)
    requires runs != [] ==> run.length + runs[0].length < U64_LIMIT
  {
    if runs != [] && runs[0].value == run.value then
      [Run(run.value, run.length + runs[0].length)] + runs[1..]
    else
      [run] + runs
  }

  /** One maximal run for each stretch of equal rows. */
  function MaximalRuns(rows: seq<Row>): (r: seq<Run>)
    requires |rows| < U64_LIMIT
    ensures |r| <= |rows| && (r != [] ==> r[0].length <= |rows|)
  {
    if rows == [] then [] else Merge(Run(rows[0], 1), MaximalRuns(rows[1..]))
  }

  function ValueRuns(runs: seq<Run>): (r: nat)
    ensures r <= |runs|
  {
    if runs == [] then 0 else (if runs[0].value.Some? then 1 else 0) + ValueRuns(runs[1..])
  }

  function RunLen(run: Run): (r: nat) {
    if run.value.Some? then 17 else 9
  }

  function RunBytes(run: Run): (r: seq<byte>)
    ensures |r| == RunLen(run)
  {
    match run.value
    case None => [NULL_TAG] + U64Bytes(run.length)
    case Some(v) => [VALUE_TAG] + U64Bytes(run.length) + I64Bytes(v)
  }

  function RunsBytes(runs: seq<Run>): (r: seq<byte>)
    ensures |r| == 9 * |runs| + 8 * ValueRuns(runs)
  {
    if runs == [] then [] else RunBytes(runs[0]) + RunsBytes(runs[1..])
  }

  // ---------- maximal runs are the minimal representation ----------

  lemma ExpandMerge(run: Run, runs: seq<Run>)
    requires runs != [] ==> run.length + runs[0].length < U64_LIMIT
    ensures Expand(Merge(run, runs)) == Repeat(run.value, run.length) + Expand(runs)
  {
    if runs != [] && runs[0].value == run.value {
      var joined := Run(run.value, run.length + runs[0].length);
      assert ([joined] + runs[1..])[1..] == runs[1..];
      assert Repeat(run.value, joined.length)
          == Repeat(run.value, run.length) + Repeat(run.value, runs[0].length);
    } else {
      assert ([run] + runs)[1..] == runs;
    }
  }

  lemma NonEmptyMerge(run: Run, runs: seq<Run>)
    requires runs != [] ==> run.length + runs[0].length < U64_LIMIT
    requires run.length > 0 && NonEmptyRuns(runs)
    ensures NonEmptyRuns(Merge(run, runs))
  {
    if runs != [] && runs[0].value == run.value {
      var joined := Run(run.value, run.length + runs[0].length);
      assert ([joined] + runs[1..])[1..] == runs[1..];
    } else {
      assert ([run] + runs)[1..] == runs;
    }
  }

  /** Expanding the maximal runs gives back the rows. */
  lemma {:induction false} ExpandMaximalRuns(rows: seq<Row>)
    requires |rows| < U64_LIMIT
    ensures Expand(MaximalRuns(rows)) == rows && NonEmptyRuns(MaximalRuns(rows))
    decreases |rows|
  {
    if rows != [] {
      ExpandMaximalRuns(rows[1..]);
      ExpandMerge(Run(rows[0], 1), MaximalRuns(rows[1..]));
      NonEmptyMerge(Run(rows[0], 1), MaximalRuns(rows[1..]));
      assert Repeat(rows[0], 1) == [rows[0]];
      FirstAndRest(rows);
    }
  }

  lemma MergeMerge(value: Row, n: u64, runs: seq<Run>)
    requires n > 0 && (runs != [] ==> 1 + n + runs[0].length < U64_LIMIT) && 1 + n < U64_LIMIT
    ensures Merge(Run(value, 1), Merge(Run(value, n), runs)) == Merge(Run(value, 1 + n), runs)
  {
    if runs != [] && runs[0].value == value {
      assert ([Run(value, n + runs[0].length)] + runs[1..])[1..] == runs[1..];
    } else {
      assert ([Run(value, n)] + runs)[1..] == runs;
    }
  }

  lemma {:induction false} MaximalRunsOfRepeat(value: Row, n: nat, rest: seq<Row>)
    requires 0 < n && n + |rest| < U64_LIMIT
    ensures MaximalRuns(Repeat(value, n) + rest) == Merge(Run(value, n), MaximalRuns(rest))
    decreases n
  {
    var rows := Repeat(value, n) + rest;
    assert rows[1..] == Repeat(value, n - 1) + rest;
    if n == 1 {
      assert rows[1..] == rest;
    } else {
      MaximalRunsOfRepeat(value, n - 1, rest);
      MergeMerge(value, n - 1, MaximalRuns(rest));
    }
  }

  /** Any non-empty runs expand to rows whose maximal runs are no more in number and no
      more in bytes; equally many runs means they were maximal already. */
  lemma {:induction false} MaximalRunsAreMinimal(runs: seq<Run>)
    requires NonEmptyRuns(runs) && |Expand(runs)| < U64_LIMIT
    ensures var canonical := MaximalRuns(Expand(runs));
      && |canonical| <= |runs|
      && ValueRuns(canonical) <= ValueRuns(runs)
      && |RunsBytes(canonical)| <= |RunsBytes(runs)|
      && (|canonical| == |runs| ==> canonical == runs)
    decreases |runs|
  {
    if runs != [] {
      var tail := MaximalRuns(Expand(runs[1..]));
      MaximalRunsAreMinimal(runs[1..]);
      MaximalRunsOfRepeat(runs[0].value, runs[0].length, Expand(runs[1..]));
      MergeCounts(runs[0], tail);
      if |Merge(runs[0], tail)| == |runs| {
        assert [runs[0]] + runs[1..] == runs;
      }
    }
  }

  lemma MergeCounts(run: Run, runs: seq<Run>)
    requires runs != [] ==> run.length + runs[0].length < U64_LIMIT
    ensures var merged := Merge(run, runs);
      && |runs| <= |merged| <= |runs| + 1
      && ValueRuns(merged) <= ValueRuns([run]) + ValueRuns(runs)
      && (|merged| == |runs| + 1 ==> merged == [run] + runs)
  {
    if runs != [] && runs[0].value == run.value {
      var joined := Run(run.value, run.length + runs[0].length);
      assert ([joined] + runs[1..])[1..] == runs[1..];
    } else {
      assert ([run] + runs)[1..] == runs;
    }
    assert ValueRuns([run]) == (if run.value.Some? then 1 else 0) + ValueRuns([]);
  }

  // ---------- encoding ----------

  function Header(rowCount: u64, runCount: u64): (r: seq<byte>)
    ensures |r| == HEADER_LEN
  {
    MAGIC + U16Bytes(VERSION) + U64Bytes(rowCount) + U64Bytes(runCount)
  }

  function Layout(runs: seq<Run>): (r: seq<byte>)
    requires |Expand(runs)| < U64_LIMIT && |runs| < U64_LIMIT
    ensures |r| == HEADER_LEN + |RunsBytes(runs)|
  {
    Header(|Expand(runs)|, |runs|) + RunsBytes(runs)
  }

  /** The limits a codec puts on a run list. */
  predicate Fits(codec: Codec, runs: seq<Run>) {
    |Expand(runs)| <= codec.maxRows && |runs| <= codec.maxRuns
    && HEADER_LEN + |RunsBytes(runs)| <= codec.maxPayloadLen
  }

  function EncodeError(codec: Codec, rows: seq<Row>): (r: RlePayloadError)
    requires |rows| < U64_LIMIT
  {
    var runs := MaximalRuns(rows);
    if |rows| > codec.maxRows then RowLimitExceeded(|rows|, codec.maxRows)
    else if |runs| > codec.maxRuns then RunLimitExceeded(|runs|, codec.maxRuns)
    else PayloadTooLarge(Min(HEADER_LEN + |RunsBytes(runs)|, U64_LIMIT - 1), codec.maxPayloadLen)
  }

  lemma MaximalRunsStep(rows: seq<Row>, i: nat)
    requires |rows| < U64_LIMIT && 0 < i < |rows|
    ensures MaximalRuns(rows[i - 1..]) == Merge(Run(rows[i - 1], 1), MaximalRuns(rows[i..]))
    ensures MaximalRuns(rows[i..]) != [] && MaximalRuns(rows[i..])[0].value == rows[i]
  {
    assert rows[i - 1..][1..] == rows[i..];
    assert rows[i..][0] == rows[i];
  }

  /** The inspecting pass: runs and value runs, compared with the previous row only. */
  method CountRuns(rows: seq<Row>) returns (runCount: nat, valueRunCount: nat)
    requires |rows| < U64_LIMIT
    ensures runCount == |MaximalRuns(rows)| && valueRunCount == ValueRuns(MaximalRuns(rows))
  {
    if rows == [] {
      return 0, 0;
    }
    runCount := 1;
    valueRunCount := if rows[0].Some? then 1 else 0;
    var previous := rows[0];
    assert rows[0..] == rows;
    for i := 1 to |rows|
      invariant previous == rows[i - 1]
      invariant |MaximalRuns(rows)| == runCount + |MaximalRuns(rows[i - 1..])| - 1
      invariant ValueRuns(MaximalRuns(rows))
             == valueRunCount + ValueRuns(MaximalRuns(rows[i - 1..])) - (if previous.Some? then 1 else 0)
    {
      MaximalRunsStep(rows, i);
      MergeHeads(Run(rows[i - 1], 1), MaximalRuns(rows[i..]));
      if rows[i] != previous {
        runCount := runCount + 1;
        if rows[i].Some? {
          valueRunCount := valueRunCount + 1;
        }
      }
      previous := rows[i];
    }
    OneRow(previous);
    assert rows[|rows| - 1..] == [previous];
  }

  lemma MergeHeads(run: Run, runs: seq<Run>)
    requires runs != [] && run.length + runs[0].length < U64_LIMIT
    ensures var joined := run.value == runs[0].value;
      && |Merge(run, runs)| == |runs| + (if joined then 0 else 1)
      && ValueRuns(Merge(run, runs)) == ValueRuns(runs) + (if joined || run.value.None? then 0 else 1)
  {
    if run.value == runs[0].value {
      var first := Run(run.value, run.length + runs[0].length);
      assert ([first] + runs[1..])[1..] == runs[1..];
    } else {
      assert ([run] + runs)[1..] == runs;
    }
  }

  lemma OneRow(row: Row)
    ensures MaximalRuns([row]) == [Run(row, 1)]
    ensures RunsBytes([Run(row, 1)]) == RunBytes(Run(row, 1))
    ensures ValueRuns([Run(row, 1)]) == if row.Some? then 1 else 0
  {
    assert [row][1..] == [];
    assert [Run(row, 1)][1..] == [];
    assert RunBytes(Run(row, 1)) + [] == RunBytes(Run(row, 1));
  }

  /** `append_nullable_i64_rle_run`. */
  method AppendRun(payload: seq<byte>, value: Row, runLength: u64) returns (r: seq<byte>)
    ensures r == payload + RunBytes(Run(value, runLength))
  {
    r := payload + [if value.None? then NULL_TAG else VALUE_TAG];
    r := r + U64Bytes(runLength);
    if value.Some? {
      r := r + I64Bytes(value.value);
    }
  }

  lemma ShortRuns(run: Run)
    ensures RunsBytes([]) == [] && RunsBytes([run]) == RunBytes(run)
    ensures MaximalRuns([]) == [] && Merge(run, MaximalRuns([])) == [run]
  {
    assert [run] + [] == [run];
    assert [run][1..] == [];
    assert RunBytes(run) + [] == RunBytes(run);
  }

  /** The pending run of `length` rows is emitted before a stretch of another value. */
  lemma PendingRun(value: Row, length: u64, rest: seq<Run>)
    requires length > 0 && rest != [] && length + rest[0].length < U64_LIMIT && rest[0].value != value
    ensures RunsBytes(Merge(Run(value, length), rest)) == RunBytes(Run(value, length)) + RunsBytes(rest)
  {
    assert ([Run(value, length)] + rest)[1..] == rest;
  }

  /** The emitting pass. */
  method AppendRuns(prefix: seq<byte>, rows: seq<Row>) returns (payload: seq<byte>)
    requires |rows| < U64_LIMIT
    ensures payload == prefix + RunsBytes(MaximalRuns(rows))
  {
    hide RunsBytes, RunBytes, MaximalRuns, Merge;
    payload := prefix;
    if rows == [] {
      ShortRuns(Run(None, 0));
      return;
    }
    var value, runLength := rows[0], 1;
    RestStep(rows, 0);
    assert rows[0..] == rows;
    for i := 1 to |rows|
      invariant value == rows[i - 1] && 0 < runLength <= i
      invariant payload + RunsBytes(Merge(Run(value, runLength), MaximalRuns(rows[i..])))
             == prefix + RunsBytes(MaximalRuns(rows))
    {
      var next := rows[i];
      MaximalRunsStep(rows, i);
      RestStep(rows, i);
      if next == value {
        MergeMergeLast(value, runLength, MaximalRuns(rows[i + 1..]));
        runLength := runLength + 1;
      } else {
        PendingRun(value, runLength, MaximalRuns(rows[i..]));
        Associates(payload, RunBytes(Run(value, runLength)), RunsBytes(MaximalRuns(rows[i..])));
        payload := AppendRun(payload, value, runLength);
        value := next;
        runLength := 1;
      }
    }
    assert rows[|rows|..] == [];
    ShortRuns(Run(value, runLength));
    payload := AppendRun(payload, value, runLength);
  }

  lemma RestStep(rows: seq<Row>, i: nat)
    requires |rows| < U64_LIMIT && i < |rows|
    ensures MaximalRuns(rows[i..]) == Merge(Run(rows[i], 1), MaximalRuns(rows[i + 1..]))
  {
    assert rows[i..][1..] == rows[i + 1..];
  }

  lemma MergeMergeLast(value: Row, n: u64, runs: seq<Run>)
    requires n > 0 && n + 1 < U64_LIMIT && (runs != [] ==> n + 1 + runs[0].length < U64_LIMIT)
    ensures Merge(Run(value, n), Merge(Run(value, 1), runs)) == Merge(Run(value, n + 1), runs)
  {
    if runs != [] && runs[0].value == value {
      assert ([Run(value, 1 + runs[0].length)] + runs[1..])[1..] == runs[1..];
    } else {
      assert ([Run(value, 1)] + runs)[1..] == runs;
    }
  }

  method Encode(codec: Codec, rows: seq<Row>) returns (r: Result<seq<byte>, RlePayloadError>)
    requires |rows| < U64_LIMIT
    ensures var runs := MaximalRuns(rows);
      && Expand(runs) == rows
      && r == if Fits(codec, runs) then Ok(Layout(runs)) else Err(EncodeError(codec, rows))
  {
    ExpandMaximalRuns(rows);
    if |rows| > codec.maxRows {
      return Err(RowLimitExceeded(|rows|, codec.maxRows));
    }
    var runCount, valueRunCount := CountRuns(rows);
    if runCount > codec.maxRuns {
      return Err(RunLimitExceeded(runCount, codec.maxRuns));
    }
    var runBytes := CheckedMul(runCount, RUN_HEADER_LEN);
    var valueBytes := CheckedMul(valueRunCount, 8);
    var sum := if runBytes.None? || valueBytes.None? then None else CheckedAdd(runBytes.value, valueBytes.value);
    var payloadLen := if sum.None? then None else CheckedAdd(HEADER_LEN, sum.value);
    if payloadLen.None? {
      return Err(PayloadTooLarge(U64_LIMIT - 1, codec.maxPayloadLen));
    }
    if payloadLen.value > codec.maxPayloadLen {
      return Err(PayloadTooLarge(payloadLen.value, codec.maxPayloadLen));
    }
    var payload := MAGIC;
    payload := payload + U16Bytes(VERSION);
    payload := payload + U64Bytes(|rows|);
    payload := payload + U64Bytes(runCount);
    payload := AppendRuns(payload, rows);
    return Ok(payload);
  }

  // ---------- decoding ----------

  function AfterRun(p: seq<byte>, offset: nat): (r: nat)
    requires offset < |p|
  {
    if p[offset] == NULL_TAG then offset + 9 else offset + 17
  }

  function LengthAt(p: seq<byte>, offset: nat): (r: u64)
    requires offset + 9 <= |p|
  {
    U64At(p, offset + 1)
  }

  /** The fault of the run at `offset`, if any, after `decoded` earlier rows. */
  function RunFaultAt(p: seq<byte>, offset: nat, index: nat, decoded: u64): (r: Option<RlePayloadError>)
    requires offset <= |p|
  {
    if offset == |p| then Some(Truncated(offset + 1, |p|))
    else if p[offset] != NULL_TAG && p[offset] != VALUE_TAG then Some(UnknownRunTag(index, p[offset]))
    else if |p| < offset + 9 then Some(Truncated(offset + 9, |p|))
    else if LengthAt(p, offset) == 0 then Some(ZeroLengthRun(index))
    else if p[offset] == VALUE_TAG && |p| < offset + 17 then Some(Truncated(offset + 17, |p|))
    else if decoded + LengthAt(p, offset) >= U64_LIMIT then Some(RowCountOverflow(index, decoded, LengthAt(p, offset)))
    else None
  }

  /** The total row count and the offset after `count` runs, or the first fault. */
  function ScanRuns(p: seq<byte>, offset: nat, count: nat, index: nat, decoded: u64)
      : (r: Result<(u64, nat), RlePayloadError>)
    requires offset <= |p|
    ensures r.Ok? ==> offset <= r.value.1 <= |p|
    decreases count, p
  {
    if count == 0 then
      Ok((decoded, offset))
    else
      match RunFaultAt(p, offset, index, decoded)
      case Some(fault) => Err(fault)
      case None => ScanRuns(p, AfterRun(p, offset), count - 1, index + 1, decoded + LengthAt(p, offset))
  }

  function RunAt(p: seq<byte>, offset: nat): (r: Run)
    requires offset < |p| && AfterRun(p, offset) <= |p|
  {
    Run(if p[offset] == NULL_TAG then None else Some(I64At(p, offset + 9)), LengthAt(p, offset))
  }

  /** The runs that a fault-free scan passes over. */
  function RunsAt(p: seq<byte>, offset: nat, count: nat, index: nat, decoded: u64): (r: seq<Run>)
    requires offset <= |p| && ScanRuns(p, offset, count, index, decoded).Ok?
    ensures |r| == count
    decreases count, p
  {
    if count == 0 then []
    else [RunAt(p, offset)]
         + RunsAt(p, AfterRun(p, offset), count - 1, index + 1, decoded + LengthAt(p, offset))
  }

  /** The validating pass. */
  method ValidateRuns(p: seq<byte>, count: nat) returns (r: Result<(u64, nat), RlePayloadError>)
    requires HEADER_LEN <= |p| <= ISIZE_MAX
    ensures r == ScanRuns(p, HEADER_LEN, count, 0, 0)
  {
    var offset, decodedRows: u64 := HEADER_LEN, 0;
    for index := 0 to count
      invariant HEADER_LEN <= offset <= |p|
      invariant ScanRuns(p, HEADER_LEN, count, 0, 0) == ScanRuns(p, offset, count - index, index, decodedRows)
    {
      var tagEnd := SaturatingAdd(offset, 1);
      if offset >= |p| {
        return Err(Truncated(tagEnd, |p|));
      }
      var tag := p[offset];
      offset := tagEnd;
      if tag != NULL_TAG && tag != VALUE_TAG {
        return Err(UnknownRunTag(index, tag));
      }
      var runLengthEnd := SaturatingAdd(offset, 8);
      if |p| < runLengthEnd {
        return Err(Truncated(runLengthEnd, |p|));
      }
      var runLength := U64At(p, offset);
      offset := runLengthEnd;
      if runLength == 0 {
        return Err(ZeroLengthRun(index));
      }
      if tag == VALUE_TAG {
        var valueEnd := SaturatingAdd(offset, 8);
        if |p| < valueEnd {
          return Err(Truncated(valueEnd, |p|));
        }
        offset := valueEnd;
      }
      var sum := CheckedAdd(decodedRows, runLength);
      if sum.None? {
        return Err(RowCountOverflow(index, decodedRows, runLength));
      }
      decodedRows := sum.value;
    }
    return Ok((decodedRows, offset));
  }

  lemma ExpandFrom(runs: seq<Run>, i: nat)
    requires i < |runs|
    ensures Expand(runs[i..]) == Repeat(runs[i].value, runs[i].length) + Expand(runs[i + 1..])
  {
    assert runs[i..][1..] == runs[i + 1..];
  }

  /** The unchecked expanding pass; after validation no access leaves the payload. */
  method ExpandRuns(p: seq<byte>, count: nat) returns (rows: seq<Row>)
    requires HEADER_LEN <= |p|
    requires ScanRuns(p, HEADER_LEN, count, 0, 0).Ok?
    ensures rows == Expand(RunsAt(p, HEADER_LEN, count, 0, 0))
  {
    rows := [];
    var offset := HEADER_LEN;
    ghost var whole, decoded: u64 := RunsAt(p, HEADER_LEN, count, 0, 0), 0;
    assert whole[0..] == whole;
    for index := 0 to count
      invariant HEADER_LEN <= offset <= |p|
      invariant ScanRuns(p, offset, count - index, index, decoded).Ok?
      invariant RunsAt(p, offset, count - index, index, decoded) == whole[index..]
      invariant Expand(whole) == rows + Expand(whole[index..])
    {
      ghost var run := RunAt(p, offset);
      assert whole[index] == whole[index..][0] == run;
      assert whole[index..][1..] == whole[index + 1..];
      decoded := decoded + LengthAt(p, offset);
      var tag := p[offset];
      offset := offset + 1;
      var runLength := U64At(p, offset);
      offset := offset + 8;
      var value: Row := None;
      if tag != NULL_TAG {
        value := Some(I64At(p, offset));
        offset := offset + 8;
      }
      ExpandFrom(whole, index);
      Associates(rows, Repeat(value, runLength), Expand(whole[index + 1..]));
      rows := rows + Repeat(value, runLength);
    }
    assert whole[count..] == [];
  }

  /** The checks made before any run is read; the result is the declared row and run counts. */
  function ReadHeader(codec: Codec, p: seq<byte>): (r: Result<(u64, u64), RlePayloadError>)
    requires |p| <= ISIZE_MAX
    ensures r.Ok? ==> HEADER_LEN <= |p| <= codec.maxPayloadLen
  {
    if |p| > codec.maxPayloadLen then Err(PayloadTooLarge(|p|, codec.maxPayloadLen))
    else if |p| < HEADER_LEN then Err(Truncated(HEADER_LEN, |p|))
    else if p[..8] != MAGIC then Err(IncompatibleMagic(p[..8]))
    else if U16At(p, 8) != VERSION then Err(UnsupportedVersion(U16At(p, 8), VERSION))
    else
      var rowCount := U64At(p, 10);
      var runCount := U64At(p, 18);
      if rowCount > codec.maxRows then Err(RowLimitExceeded(rowCount, codec.maxRows))
      else if runCount > codec.maxRuns then Err(RunLimitExceeded(runCount, codec.maxRuns))
      else
        var runBytes := CheckedMul(runCount, RUN_HEADER_LEN);
        var minimumLen := if runBytes.None? then None else CheckedAdd(HEADER_LEN, runBytes.value);
        if minimumLen.None? then Err(PayloadTooLarge(U64_LIMIT - 1, codec.maxPayloadLen))
        else if minimumLen.value > codec.maxPayloadLen then
          Err(PayloadTooLarge(minimumLen.value, codec.maxPayloadLen))
        else Ok((rowCount, runCount))
  }

  /** The runs that decoding accepts, as one pass over the payload. */
  function DecodeRuns(codec: Codec, p: seq<byte>): (r: Result<seq<Run>, RlePayloadError>)
    requires |p| <= ISIZE_MAX
  {
    match ReadHeader(codec, p)
    case Err(error) => Err(error)
    case Ok((declaredRows, runCount)) =>
      match ScanRuns(p, HEADER_LEN, runCount, 0, 0)
      case Err(fault) => Err(fault)
      case Ok((decodedRows, end)) =>
        if decodedRows > codec.maxRows then Err(RowLimitExceeded(decodedRows, codec.maxRows))
        else if decodedRows != declaredRows then Err(RowCountMismatch(declaredRows, decodedRows))
        else if |p| > end then Err(TrailingData(end, |p|))
        else Ok(RunsAt(p, HEADER_LEN, runCount, 0, 0))
  }

  method Decode(codec: Codec, p: seq<byte>) returns (r: Result<seq<Row>, RlePayloadError>)
    requires |p| <= ISIZE_MAX
    ensures match DecodeRuns(codec, p)
            case Err(error) => r == Err(error)
            case Ok(runs) => r == Ok(Expand(runs))
  {
    var header := ReadHeader(codec, p);
    if header.Err? {
      return Err(header.error);
    }
    var (declaredRows, runCount) := header.value;
    var validated := ValidateRuns(p, runCount);
    match validated {
      case Err(fault) =>
        return Err(fault);
      case Ok((decodedRows, end)) =>
        if decodedRows > codec.maxRows {
          return Err(RowLimitExceeded(decodedRows, codec.maxRows));
        }
        if decodedRows != declaredRows {
          return Err(RowCountMismatch(declaredRows, decodedRows));
        }
        if |p| > end {
          return Err(TrailingData(end, |p|));
        }
    }
    var rows := ExpandRuns(p, runCount);
    return Ok(rows);
  }

  // ---------- inverse laws ----------

  lemma RunAtBytes(p: seq<byte>, offset: nat, index: nat, decoded: u64)
    requires offset <= |p| && RunFaultAt(p, offset, index, decoded).None?
    ensures var run := RunAt(p, offset);
      && HoldsAt(p, offset, RunBytes(run)) && AfterRun(p, offset) == offset + |RunBytes(run)|
      && 0 < run.length && decoded + run.length < U64_LIMIT
  {
    var tag: seq<byte>, length := [p[offset]], U64Bytes(LengthAt(p, offset));
    U64AtHolds(p, offset + 1, LengthAt(p, offset));
    HoldsAtConcat(p, offset, tag, length);
    if p[offset] == VALUE_TAG {
      I64AtHolds(p, offset + 9, I64At(p, offset + 9));
      HoldsAtConcat(p, offset, tag + length, I64Bytes(I64At(p, offset + 9)));
    }
  }

  lemma RunBytesAt(p: seq<byte>, offset: nat, run: Run, index: nat, decoded: u64)
    requires HoldsAt(p, offset, RunBytes(run)) && 0 < run.length && decoded + run.length < U64_LIMIT
    ensures RunFaultAt(p, offset, index, decoded).None?
    ensures AfterRun(p, offset) == offset + |RunBytes(run)|
    ensures RunAt(p, offset) == run && LengthAt(p, offset) == run.length
  {
    var tag: seq<byte> := [if run.value.None? then NULL_TAG else VALUE_TAG];
    var body := tag + U64Bytes(run.length);
    assert RunBytes(run)[0] == tag[0] == p[offset];
    if run.value.Some? {
      HoldsAtConcat(p, offset, body, I64Bytes(run.value.value));
      I64AtHolds(p, offset + 9, run.value.value);
    }
    HoldsAtConcat(p, offset, tag, U64Bytes(run.length));
    U64AtHolds(p, offset + 1, run.length);
  }

  lemma RunsBytesCons(run: Run, rest: seq<Run>)
    ensures RunsBytes([run] + rest) == RunBytes(run) + RunsBytes(rest)
    ensures TotalRows([run] + rest) == run.length + TotalRows(rest)
    ensures NonEmptyRuns([run] + rest) <==> run.length > 0 && NonEmptyRuns(rest)
  {
    assert ([run] + rest)[1..] == rest;
  }

  lemma {:induction false} RunsAtBytes(p: seq<byte>, offset: nat, count: nat, index: nat, decoded: u64)
    requires offset <= |p| && ScanRuns(p, offset, count, index, decoded).Ok?
    ensures var runs := RunsAt(p, offset, count, index, decoded);
      && HoldsAt(p, offset, RunsBytes(runs))
      && ScanRuns(p, offset, count, index, decoded).value.1 == offset + |RunsBytes(runs)|
    decreases count
  {
    if count > 0 {
      var run, next := RunAt(p, offset), AfterRun(p, offset);
      RunAtBytes(p, offset, index, decoded);
      RunsAtBytes(p, next, count - 1, index + 1, decoded + run.length);
      var rest := RunsAt(p, next, count - 1, index + 1, decoded + run.length);
      RunsBytesCons(run, rest);
      HoldsAtConcat(p, offset, RunBytes(run), RunsBytes(rest));
    }
  }

  lemma {:induction false} RunsAtRows(p: seq<byte>, offset: nat, count: nat, index: nat, decoded: u64)
    requires offset <= |p| && ScanRuns(p, offset, count, index, decoded).Ok?
    ensures var runs := RunsAt(p, offset, count, index, decoded);
      && ScanRuns(p, offset, count, index, decoded).value.0 == decoded + TotalRows(runs) && NonEmptyRuns(runs)
    decreases count
  {
    if count > 0 {
      var run, next := RunAt(p, offset), AfterRun(p, offset);
      RunsAtRows(p, next, count - 1, index + 1, decoded + run.length);
      RunsBytesCons(run, RunsAt(p, next, count - 1, index + 1, decoded + run.length));
    }
  }

  lemma ScanFirst(p: seq<byte>, offset: nat, runs: seq<Run>, index: nat, decoded: u64)
    requires runs != [] && HoldsAt(p, offset, RunsBytes(runs))
    requires 0 < runs[0].length && decoded + runs[0].length < U64_LIMIT
    ensures offset < |p| && RunFaultAt(p, offset, index, decoded).None?
    ensures AfterRun(p, offset) == offset + RunLen(runs[0]) <= |p|
    ensures RunAt(p, offset) == runs[0] && LengthAt(p, offset) == runs[0].length
    ensures HoldsAt(p, offset + RunLen(runs[0]), RunsBytes(runs[1..]))
  {
    HoldsAtConcat(p, offset, RunBytes(runs[0]), RunsBytes(runs[1..]));
    RunBytesAt(p, offset, runs[0], index, decoded);
  }

  /** `runs` can be read one after the other from `offset` on, after `decoded` earlier rows. */
  predicate Readable(p: seq<byte>, offset: nat, runs: seq<Run>, index: nat, decoded: u64)
    requires offset <= |p|
    decreases |runs|, p
  {
    runs == []
    || (RunFaultAt(p, offset, index, decoded).None?
        && RunAt(p, offset) == runs[0]
        && Readable(p, AfterRun(p, offset), runs[1..], index + 1, decoded + LengthAt(p, offset)))
  }

  lemma {:induction false} RunsBytesReadable(p: seq<byte>, offset: nat, runs: seq<Run>, index: nat, decoded: u64)
    requires offset <= |p| && HoldsAt(p, offset, RunsBytes(runs))
    requires NonEmptyRuns(runs) && decoded + TotalRows(runs) < U64_LIMIT
    ensures Readable(p, offset, runs, index, decoded)
    decreases |runs|
  {
    if runs != [] {
      ScanFirst(p, offset, runs, index, decoded);
      RunsBytesReadable(p, offset + RunLen(runs[0]), runs[1..], index + 1, decoded + runs[0].length);
    }
  }

  lemma {:induction false} ReadableScan(p: seq<byte>, offset: nat, runs: seq<Run>, index: nat, decoded: u64)
    requires offset <= |p| && Readable(p, offset, runs, index, decoded)
    ensures decoded + TotalRows(runs) < U64_LIMIT
    ensures ScanRuns(p, offset, |runs|, index, decoded)
         == Ok((decoded + TotalRows(runs), offset + 9 * |runs| + 8 * ValueRuns(runs)))
    decreases |runs|
  {
    if runs != [] {
      ReadableScan(p, AfterRun(p, offset), runs[1..], index + 1, decoded + runs[0].length);
    }
  }

  lemma {:induction false} ReadableRunsAt(p: seq<byte>, offset: nat, runs: seq<Run>, index: nat, decoded: u64)
    requires offset <= |p| && Readable(p, offset, runs, index, decoded)
    requires ScanRuns(p, offset, |runs|, index, decoded).Ok?
    ensures RunsAt(p, offset, |runs|, index, decoded) == runs
    decreases |runs|
  {
    if runs != [] {
      ReadableRunsAt(p, AfterRun(p, offset), runs[1..], index + 1, decoded + runs[0].length);
      FirstAndRest(runs);
    }
  }

  lemma HeaderFields(p: seq<byte>, rowCount: u64, runCount: u64)
    requires |p| >= HEADER_LEN
    ensures HoldsAt(p, 0, Header(rowCount, runCount))
       <==> (p[..8] == MAGIC && U16At(p, 8) == VERSION && U64At(p, 10) == rowCount && U64At(p, 18) == runCount)
  {
    HoldsAtFour(p, MAGIC, U16Bytes(VERSION), U64Bytes(rowCount), U64Bytes(runCount));
    HoldsAtSlice(p, 0, MAGIC);
    U16AtHolds(p, 8, VERSION);
    U64AtHolds(p, 10, rowCount);
    U64AtHolds(p, 18, runCount);
  }

  lemma LayoutHolds(p: seq<byte>, runs: seq<Run>)
    requires |Expand(runs)| < U64_LIMIT && |runs| < U64_LIMIT
    ensures p == Layout(runs)
       <==> (HoldsAt(p, 0, Header(|Expand(runs)|, |runs|)) && HoldsAt(p, HEADER_LEN, RunsBytes(runs))
             && |p| == |Layout(runs)|)
  {
    HoldsAtConcat(p, 0, Header(|Expand(runs)|, |runs|), RunsBytes(runs));
    HoldsAtWhole(p, Layout(runs));
  }

  lemma HeaderHolds(codec: Codec, p: seq<byte>)
    requires |p| <= ISIZE_MAX && ReadHeader(codec, p).Ok?
    ensures HoldsAt(p, 0, Header(ReadHeader(codec, p).value.0, ReadHeader(codec, p).value.1))
  {
    HeaderFields(p, ReadHeader(codec, p).value.0, ReadHeader(codec, p).value.1);
  }

  lemma AcceptedIsLayout(codec: Codec, p: seq<byte>, runs: seq<Run>)
    requires |p| <= ISIZE_MAX && DecodeRuns(codec, p) == Ok(runs)
    ensures Fits(codec, runs) && NonEmptyRuns(runs) && p == Layout(runs)
  {
    HeaderHolds(codec, p);
    RunsAtBytes(p, HEADER_LEN, ReadHeader(codec, p).value.1, 0, 0);
    RunsAtRows(p, HEADER_LEN, ReadHeader(codec, p).value.1, 0, 0);
    ExpandedLength(runs);
    LayoutHolds(p, runs);
  }

  lemma LayoutIsAccepted(codec: Codec, p: seq<byte>, runs: seq<Run>)
    requires Fits(codec, runs) && NonEmptyRuns(runs)
    requires p == Layout(runs) && |p| <= ISIZE_MAX
    ensures DecodeRuns(codec, p) == Ok(runs)
  {
    hide HoldsAt, ScanRuns, RunsAt, Readable, NonEmptyRuns;
    LayoutHolds(p, runs);
    HeaderFields(p, |Expand(runs)|, |runs|);
    ExpandedLength(runs);
    RunsBytesReadable(p, HEADER_LEN, runs, 0, 0);
    ReadableScan(p, HEADER_LEN, runs, 0, 0);
    ReadableRunsAt(p, HEADER_LEN, runs, 0, 0);
  }

  /** A payload is accepted with given runs exactly when it is their layout, no run is empty
      and the runs are within the codec's limits. */
  lemma DecodeInvertsLayout(codec: Codec, p: seq<byte>, runs: seq<Run>)
    requires |p| <= ISIZE_MAX
    ensures DecodeRuns(codec, p) == Ok(runs) <==> Fits(codec, runs) && NonEmptyRuns(runs) && p == Layout(runs)
  {
    if DecodeRuns(codec, p) == Ok(runs) {
      AcceptedIsLayout(codec, p, runs);
    }
    if Fits(codec, runs) && NonEmptyRuns(runs) && p == Layout(runs) {
      LayoutIsAccepted(codec, p, runs);
    }
  }

  /** Decoding undoes encoding for every row sequence that encodes. */
  lemma DecodeOfEncode(codec: Codec, rows: seq<Row>)
    requires |rows| < U64_LIMIT && Fits(codec, MaximalRuns(rows)) && |Layout(MaximalRuns(rows))| <= ISIZE_MAX
    ensures DecodeRuns(codec, Layout(MaximalRuns(rows))) == Ok(MaximalRuns(rows))
    ensures Expand(MaximalRuns(rows)) == rows
  {
    ExpandMaximalRuns(rows);
    DecodeInvertsLayout(codec, Layout(MaximalRuns(rows)), MaximalRuns(rows));
  }

  /** Re-encoding the rows of any accepted payload succeeds under the same codec, decodes to
      the same rows, and needs no more runs and no more bytes; a payload with as few runs is
      the re-encoded one. */
  lemma ReencodingIsMinimal(codec: Codec, p: seq<byte>)
    requires |p| <= ISIZE_MAX && DecodeRuns(codec, p).Ok?
    ensures var runs := DecodeRuns(codec, p).value;
      && |Expand(runs)| < U64_LIMIT
      && var canonical := MaximalRuns(Expand(runs));
      && Fits(codec, canonical)
      && |canonical| <= |runs| && |Layout(canonical)| <= |p|
      && DecodeRuns(codec, Layout(canonical)) == Ok(canonical) && Expand(canonical) == Expand(runs)
      && (|canonical| == |runs| ==> Layout(canonical) == p)
  {
    var runs := DecodeRuns(codec, p).value;
    AcceptedIsLayout(codec, p, runs);
    MaximalRunsAreMinimal(runs);
    ExpandMaximalRuns(Expand(runs));
    DecodeOfEncode(codec, Expand(runs));
  }

  // ---------- the faults are named ----------

  /** The run behind readable ones, if the payload ends before it or it is not one: an unknown tag,
      a length of zero, or more rows than a word can count. */
  lemma FaultyRun(p: seq<byte>, at: nat, run: Run, index: nat, decoded: u64)
    requires at <= |p|
    ensures at == |p| ==> RunFaultAt(p, at, index, decoded) == Some(Truncated(|p| + 1, |p|))
    ensures at < |p| && p[at] > 1 ==> RunFaultAt(p, at, index, decoded) == Some(UnknownRunTag(index, p[at]))
    ensures HoldsAt(p, at, RunBytes(run)) && run.length == 0 ==>
      RunFaultAt(p, at, index, decoded) == Some(ZeroLengthRun(index))
    ensures HoldsAt(p, at, RunBytes(run)) && run.length > 0 && decoded + run.length >= U64_LIMIT ==>
      RunFaultAt(p, at, index, decoded) == Some(RowCountOverflow(index, decoded, run.length))
  {
    if HoldsAt(p, at, RunBytes(run)) {
      RunFields(p, at, run);
    }
  }

  lemma RunFields(p: seq<byte>, at: nat, run: Run)
    requires HoldsAt(p, at, RunBytes(run))
    ensures at + RunLen(run) <= |p| && p[at] == (if run.value.None? then 0 else 1) && LengthAt(p, at) == run.length
  {
    var tag: seq<byte> := [if run.value.None? then NULL_TAG else VALUE_TAG];
    assert RunBytes(run)[0] == tag[0] == p[at];
    if run.value.Some? {
      HoldsAtConcat(p, at, tag + U64Bytes(run.length), I64Bytes(run.value.value));
    }
    HoldsAtConcat(p, at, tag, U64Bytes(run.length));
    U64AtHolds(p, at + 1, run.length);
  }

  lemma {:induction false} ScanBehind(p: seq<byte>, offset: nat, before: seq<Run>, more: nat, index: nat, decoded: u64)
    requires offset <= |p| && Readable(p, offset, before, index, decoded)
    ensures decoded + TotalRows(before) < U64_LIMIT && offset + 9 * |before| + 8 * ValueRuns(before) <= |p|
    ensures ScanRuns(p, offset, |before| + more, index, decoded)
         == ScanRuns(p, offset + 9 * |before| + 8 * ValueRuns(before), more, index + |before|,
                     decoded + TotalRows(before))
    decreases |before|
  {
    hide I64At, U64At, LengthAt;
    if before != [] {
      ScanBehind(p, AfterRun(p, offset), before[1..], more, index + 1, decoded + before[0].length);
    }
  }

  /** Whatever follows, the scan stops at the first faulty run and reports it with its number. */
  lemma BadRunIsNamed(p: seq<byte>, before: seq<Run>, run: Run, more: nat)
    requires HEADER_LEN <= |p| && HoldsAt(p, HEADER_LEN, RunsBytes(before))
    requires NonEmptyRuns(before) && TotalRows(before) < U64_LIMIT
    ensures var at, r := HEADER_LEN + |RunsBytes(before)|, ScanRuns(p, HEADER_LEN, |before| + 1 + more, 0, 0);
      && at <= |p|
      && (at == |p| ==> r == Err(Truncated(|p| + 1, |p|)))
      && (at < |p| && p[at] > 1 ==> r == Err(UnknownRunTag(|before|, p[at])))
      && (HoldsAt(p, at, RunBytes(run)) && run.length == 0 ==> r == Err(ZeroLengthRun(|before|)))
      && (HoldsAt(p, at, RunBytes(run)) && run.length > 0 && TotalRows(before) + run.length >= U64_LIMIT ==>
            r == Err(RowCountOverflow(|before|, TotalRows(before), run.length)))
  {
    hide HoldsAt, RunsBytes, RunBytes, RunFaultAt, Readable;
    RunsBytesReadable(p, HEADER_LEN, before, 0, 0);
    ScanBehind(p, HEADER_LEN, before, 1 + more, 0, 0);
    FaultyRun(p, HEADER_LEN + |RunsBytes(before)|, run, |before|, TotalRows(before));
  }

  /** Whole runs are accepted unless their total is over the limit or not the one declared, or
      bytes follow them; each is reported with both numbers. */
  lemma WholeRunsDecide(codec: Codec, declared: u64, runs: seq<Run>, extra: seq<byte>)
    requires declared <= codec.maxRows && |runs| <= codec.maxRuns && NonEmptyRuns(runs) && TotalRows(runs) < U64_LIMIT
    requires |Header(declared, |runs|) + RunsBytes(runs) + extra| <= ISIZE_MAX
    requires |Header(declared, |runs|) + RunsBytes(runs) + extra| <= codec.maxPayloadLen
    ensures var p, total := Header(declared, |runs|) + RunsBytes(runs) + extra, TotalRows(runs);
      DecodeRuns(codec, p)
      == if total > codec.maxRows then Err(RowLimitExceeded(total, codec.maxRows))
         else if total != declared then Err(RowCountMismatch(declared, total))
         else if extra != [] then Err(TrailingData(|p| - |extra|, |p|))
         else Ok(runs)
  {
    hide HoldsAt, RunsBytes, Readable, RunFaultAt, Header, ScanRuns, RunsAt, U64At, TotalRows, NonEmptyRuns, ValueRuns;
    var p := Header(declared, |runs|) + RunsBytes(runs) + extra;
    HoldsAtWhole(p, p);
    HoldsAtConcat(p, 0, Header(declared, |runs|) + RunsBytes(runs), extra);
    HoldsAtConcat(p, 0, Header(declared, |runs|), RunsBytes(runs));
    HeaderFields(p, declared, |runs|);
    RunsBytesReadable(p, HEADER_LEN, runs, 0, 0);
    ReadableScan(p, HEADER_LEN, runs, 0, 0);
    ReadableRunsAt(p, HEADER_LEN, runs, 0, 0);
  }
}
