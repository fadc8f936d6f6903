# RustHouse verification

A Dafny 4.11 model of the hardest parts of RustHouse, a small columnar
database: its snapshot formats, its parallel aggregation, its text formats and
concurrent HTTP listener, and its relational operators. Verify everything with
`dafny verify dfyconfig.toml`.

Code that changes things step by step is modelled by methods and classes with
loops, each proved against a specification function; what the source promises is
then proved of that function, for all inputs, all fault schedules or all runs.

* **Snapshots.** `Words` fixes machine words and their little-endian bytes, `Bits`
  their bits and the bitwise operators.
  `Crc32` is the bitwise CRC-32/ISO-HDLC of section 8 of RFC 1952, its registers
  held as bits, its checksum shown to be a polynomial remainder and to separate
  all four-byte bursts. `Envelope` frames a payload. `RowSection`, `RowPayload`,
  `RlePayload` and `TablePayload` are the three payload formats, each a
  validating pass followed by an unchecked one, and each proved by one
  equivalence: the decoder returns a value exactly for the bytes that lay out
  that value. `Storage` is the table the last of them fills. `AtomicReplace` is
  the write, sync and rename protocol on a directory whose calls meet an arbitrary
  schedule of failures. The directory keeps the history of its states, and names
  are resolved through an arbitrary folding function; systems that ignore case and
  systems that cut names short are worked out. `Utf8` shows which bytes the name check
  accepts, and `SnapshotExamples` writes one payload of each format out byte by byte.
* **Parallel aggregation.** `Scheduler` partitions rows, `WorkerBudget` is the
  permit counter as an interleaved step machine, and `ParallelDriver` runs an
  aggregate under an arbitrary fault schedule (no admission, a partial grant, a
  failed spawn, panicking helpers). `GroupedBoolCount`, `GlobalSumAvg`,
  `ScalarExtremum` and `GroupedBoolExtremum` are its reducers.
* **Text and HTTP.** `CsvGrammar` is the accepted dialect, `CsvReader`,
  `CsvScanning` and `CsvSplitting` the two-stage reader and its equivalence with
  the grammar, `CsvIngest` typed ingestion, `CsvWriter` the writer and
  `CsvRoundTrip` the laws between them. `Escaping`, `Tsv`, `TableText`,
  `TableWriter` and `JsonEachRow` are the other writers, and `ScalarText` is the
  printed form of numbers and Booleans that the laws of CSV and TSV rest on.
  `TsvReading`, `TableReading` and `JsonReading` are readers of the other formats,
  defined without the writers' escape tables, that recover what was written, and
  `CsvLaws` says what single fields, lines and faults of CSV mean. `ListenerMachine`
  is the cancellable listener as a step machine over all runs, `ListenerRuns` what a
  run amounts to as a function of its events alone, `ConcurrentListener` the finite
  listener as a class whose workers end in any order, and `ListenerReport` the
  accounting they share.
* **Relational operators.** `Scan`, `Order`, `Join` and `Aggregate`, composed by
  `Execution`. `SelectLaws` and `JoinLaws` say what their results hold value by value,
  in terms of integer order and of how often a value stands in its table.

Results worth knowing before reading the proofs:

* The direct column encoders in `src/snapshot.rs` do not check a column against the
  cap encoded with it; a payload they write is readable exactly when the column has
  no more rows than that (`TablePayload.RawColumnReadableExactlyWithinCap`, with a
  column that is not in `OverfullColumnIsUnreadable`). Their one caller passes the
  table's own cap (`src/batch/engine.rs:2434-2440`), which insertion enforces.
* A CSV text field survives a write and a read exactly when every carriage
  return in it is followed by a line feed, and a row only when it has a column
  (`CsvRoundTrip.TextSurvivesExactly`; `LoneReturnIsLost` is one that does not).
* A JSONEachRow result with a row wider than its columns is always rejected, with
  one more than the bound reported instead of a size.
* A replacement is atomic under every schedule of failures exactly when the
  destination exists or none of the next 128 candidate names resolves to its entry
  (`AtomicReplace.AtomicExactlyWithoutAlias`). Otherwise an absent destination may be
  seen as an empty file, and may be left as one (`EmptyFileIsLeft`). The alias check
  takes an entry whose status is not found for no alias (`src/snapshot.rs:2424-2427`);
  should that be reported of an aliased entry, any proper prefix of the envelope may be
  left there (`PrefixIsLeft`, and `TruncationLeavesOneByte` for a written-out schedule).
  Where distinct names are distinct entries nothing aliases (`DistinctNamesNeverAlias`);
  where ASCII case is ignored, only destinations that are a temporary's own name in
  another case (`CaseFoldingAliases`, `CaseVariantIsLeftEmpty`); where names are cut to
  14 characters, every destination at least as long (`TruncationCollides`).

## Model

| member | source | states |
|---|---|---|
| Crc32.ComputeChecksum | src/snapshot.rs:3096-3106 | the bitwise loop computes the byte-at-a-time register specification `Checksum`, whose meaning the next rows fix |
| Crc32.ChecksumIsRemainder | src/snapshot.rs:3096-3106 | for every byte string the checksum is the complement of the remainder of textbook GF(2) long division by the CRC-32/ISO-HDLC generator (section 8 of RFC 1952), low bit of each byte first, with complemented initial coefficients |
| Crc32.PolynomialIsGenerator | src/snapshot.rs:3096-3106 | the reflected constant has exactly the coefficients of the generator |
| Crc32.StepInjective | src/snapshot.rs:3100-3103 | one shift step loses nothing: equal results come from equal registers |
| Crc32.BitAbsorbIsOneXor | src/snapshot.rs:3097-3104 | up to 32 message bits act as one xor into the register followed by that many shift steps |
| Crc32.BurstDetected | src/snapshot.rs:3096-3106 | two messages of equal length that differ only within 32 consecutive bits leave different registers, from any starting register |
| Crc32.FourByteBurstDetected | src/snapshot.rs:3096-3106 | two equal-length payloads that differ only within four consecutive bytes always have different checksums |
| Crc32.WordRoundTrip | src/snapshot.rs:2105-2109 | reading the stored checksum bytes gives back the register |
| Crc32.StoredChecksumIs | src/snapshot.rs:2105-2109 | the stored bytes are those of the register read as a number, lowest first |
| Words.I64BytesMean | src/snapshot.rs:1287 | the bytes of a number that is not negative are its base-256 digits, lowest first, and those of a negative `v` the complements of the digits of `-1 - v` |
| Envelope.Encode | src/snapshot.rs:2086-2111 | the pushed fields make up the payload's layout, or the bound is reported |
| Envelope.Decode | src/snapshot.rs:2173-2238 | the staged checks compute the decoding outcome, the first failing check and its values included |
| Envelope.DecodeAcceptsExactlyLayouts | src/snapshot.rs:2173-2238 | decode returns a payload exactly when the envelope is that payload's layout and the payload is within the bound, so encode and decode are inverse in both directions |
| Envelope.DecodeOfEncode | src/snapshot.rs:2086-2111 | every payload within the bound encodes, and decoding the result returns it |
| Envelope.HeaderDamageRejected | src/snapshot.rs:2173-2238 | any change confined to the header, of any number of bytes, makes decode fail |
| Envelope.LengthDamageRejected | src/snapshot.rs:2211-2223 | cutting an envelope short or appending to it makes decode fail |
| Envelope.PayloadBurstRejected | src/snapshot.rs:2222-2238 | any change of the payload confined to four consecutive bytes makes decode fail |
| Envelope.SingleByteDamageRejected | src/snapshot.rs:2173-2238 | any change of one byte anywhere in an encoded envelope, header or payload, makes decode fail |
| Envelope.FaultIsNamed | src/snapshot.rs:2173-2238 | field by field: the first of magic, version, length bound, length and checksum that is wrong is the error, with what was found and what was wanted, and an envelope with none wrong yields its payload |
| SnapshotExamples.EnvelopeWrittenOut | src/snapshot.rs:2086-2238 | the envelope of one payload byte by byte, its checksum `0x12477cdf` included, and back |
| RowSection.SizeRows | src/snapshot.rs:1257-1269 | the checked sizing loop yields the exact size of the section, or nothing exactly when it is no `usize` |
| RowSection.ValidateRows | src/snapshot.rs:2939-2980 | the validating pass reports the first truncated, mistagged or misplaced `NULL` row, with its index, or the offset behind the last row |
| RowSection.DecodeRows | src/snapshot.rs:1340-1358 | after validation the unchecked pass never reads outside the payload and returns exactly the rows that validation passed over |
| RowSection.RowsAtBytes | src/snapshot.rs:2939-2980 | the rows read from a section are laid out there byte for byte |
| RowSection.RowsBytesAt | src/snapshot.rs:1272-1292 | rows laid out at an offset are accepted there and read back unchanged |
| RowPayload.Encode | src/snapshot.rs:1244-1293 | encoding yields the layout of the rows when they are within row and byte bounds and the precise error otherwise, row bound first |
| RowPayload.Decode | src/snapshot.rs:1296-1359 | the two-pass decoder computes the one-pass outcome, errors included |
| RowPayload.DecodeInvertsLayout | src/snapshot.rs:1244-1359 | a payload decodes to given rows exactly when it is their layout and they fit the codec: a bijection between accepted bytes and bounded rows |
| RowPayload.CutPayloadIsNamed | src/snapshot.rs:1296-1359 | a payload cut short anywhere is reported as truncated, with its true length and one that it lacks |
| RowPayload.TagDamageIsNamed | src/snapshot.rs:2939-2980 | a wrong tag is reported with its row, whatever follows |
| SnapshotExamples.RowPayloadWrittenOut | src/snapshot.rs:1244-1359 | the bytes of the payload of `[NULL, -2]` decode to these rows |
| Storage.RefusalMeans | src/storage.rs:171-193 | a batch is refused exactly when it overfills the table or holds a `NULL` that the column does not take, and for its size where it does both |
| Storage.Int64Table.constructor | src/storage.rs:125-131 | a new table is empty, with its schema and row cap |
| Storage.Int64Table.Append | src/storage.rs:164-168 | one value is appended or the table is unchanged |
| Storage.Int64Table.AppendBatch | src/storage.rs:171-193 | a batch is appended whole, or refused with the cap checked before nullability and the table left unchanged |
| TablePayload.EncodePrefix | src/snapshot.rs:1802-1873 | the prefix is the fixed fields, name, cap and row count exactly when the whole payload fits, and the exact or saturated size is reported otherwise |
| TablePayload.EncodeOptionalValues | src/snapshot.rs:1751-1779 | a column encodes to its layout exactly when it fits the codec; name, cap, row and byte bounds are checked in that order |
| TablePayload.Encode | src/snapshot.rs:1729-1737 | a table encodes to its layout exactly when it fits the codec |
| TablePayload.Decode | src/snapshot.rs:1880-2048 | decoding computes the one-pass outcome; the append to the fresh table never fails |
| TablePayload.DecodeInvertsLayout | src/snapshot.rs:1729-2048 | a payload decodes to a table exactly when it is that table's layout, the name is UTF-8, the codec bounds hold and the rows respect the table's own cap and nullability |
| Utf8.ValidBytesAreText | src/snapshot.rs:1946-1950 | the name check accepts exactly the bytes that the UTF-8 encoding (section 3 of RFC 3629) gives some text, and then of one text only |
| Utf8.ReportedPosition | src/snapshot.rs:1946-1950 | the position reported for other bytes ends the longest valid text in front: no character begins there |
| SnapshotExamples.TablePayloadWrittenOut | src/snapshot.rs:1729-2048 | the bytes of the payload of a nullable column `id` with cap five and rows `[NULL, -2]` decode to that table |
| TablePayload.LayoutInjective | src/snapshot.rs:1834-1873 | two tables with the same payload are the same table: the format describes itself |
| TablePayload.EncodedColumnReadableExactlyWhenAdmissible | src/snapshot.rs:1742-1800 | a column encoded directly can be read back exactly when its rows respect the cap and nullability that are encoded with it |
| TablePayload.RawColumnReadableExactlyWithinCap | src/snapshot.rs:1742-1800 | for what the two encoders are given, nullable or all present, exactly when there are no more rows than the cap |
| TablePayload.OverfullColumnIsUnreadable | src/snapshot.rs:1742-1770 | one NULL row under a cap of zero fits every limit of the encoder and is rejected by the decoder |
| RlePayload.CountRuns | src/snapshot.rs:1449-1461 | comparing neighbours counts the maximal runs and those with a value |
| RlePayload.AppendRuns | src/snapshot.rs:1502-1516 | the emitting loop writes exactly the maximal runs |
| RlePayload.Encode | src/snapshot.rs:1432-1518 | encoding yields the layout of the maximal runs, which expand to the rows, or the first violated bound |
| RlePayload.ValidateRuns | src/snapshot.rs:2982-3039 | the validating pass finds the first fault (truncation, tag, empty run, row-count overflow) or the total row count and the end |
| RlePayload.ExpandRuns | src/snapshot.rs:1600-1642 | the expanding pass stays inside a validated payload and yields the expansion of its runs |
| RlePayload.Decode | src/snapshot.rs:1521-1643 | the two-pass decoder computes the expansion of the one-pass outcome, errors included |
| RlePayload.DecodeInvertsLayout | src/snapshot.rs:1432-1643 | a payload is accepted with given runs exactly when it is their layout, no run is empty and the codec bounds hold |
| RlePayload.ExpandMaximalRuns | src/snapshot.rs:1443-1517 | expanding the maximal runs of any rows gives back the rows |
| RlePayload.DecodeOfEncode | src/snapshot.rs:1418-1643 | decode undoes encode for every row sequence that encodes |
| RlePayload.MaximalRunsAreMinimal | src/snapshot.rs:1443-1517 | no list of non-empty runs with the same expansion has fewer runs, fewer value runs or fewer bytes, and one with as few runs is the maximal one itself |
| RlePayload.ReencodingIsMinimal | src/snapshot.rs:1432-1643 | re-encoding the rows of any accepted payload succeeds under the same codec, decodes to the same rows and needs no more runs and no more bytes; a payload with as few runs is already the re-encoded one |
| RlePayload.BadRunIsNamed | src/snapshot.rs:2982-3039 | behind readable runs a missing run, an unknown tag, a zero length and a total that leaves `u64` are each reported with the number of the run, whatever follows |
| RlePayload.WholeRunsDecide | src/snapshot.rs:1597-1618 | readable runs are accepted unless their total is over the bound or not the declared one, or bytes follow them, reported in that order with both numbers |
| SnapshotExamples.RunPayloadWrittenOut | src/snapshot.rs:1432-1643 | the bytes of the payload of `[NULL, NULL, -2]` decode to its two runs, which expand to these rows |
| AtomicReplace.CreateTemporarySnapshot | src/snapshot.rs:2300-2351 | with any call failing, the temporary is a fresh entry, which is the destination only where the status of an aliased entry was reported as not found, or the directory is rolled back but for a leftover that the error admits; every attempt takes one number, and it gives up exactly when 128 of them collide |
| AtomicReplace.StatusMeans | src/snapshot.rs:2404-2434 | the alias check answers yes only for an alias, and no for an alias only if the status of the entry is reported as not found |
| AtomicReplace.AttemptsAreLimited | src/snapshot.rs:2305-2350 | under every schedule of failures creation ends at the first attempt that does not collide, and gives up after the last of the allowed ones |
| AtomicReplace.Cleanup | src/snapshot.rs:2495-2519 | a failed operation removes the temporary, or reports both errors and leaves it |
| AtomicReplace.ReplaceEnvelope | src/snapshot.rs:2242-2267 | in every recorded state the destination holds its old contents or the complete new envelope; an absent one that a candidate aliases may also be empty, and hold a prefix of the envelope only if some call reports an entry as not found; an error says that the destination was replaced exactly when the rename happened, and only the destination entry changed; when no call fails it succeeds exactly when a candidate is usable |
| AtomicReplace.ReplacedKeeps | src/snapshot.rs:2242-2267 | the same of the specification, for every schedule of failures |
| AtomicReplace.UneventfulReplacement | src/snapshot.rs:2242-2351 | when no call fails, a replacement succeeds exactly when one of the next 128 candidates is free and does not alias the destination; then exactly the destination is replaced, by one rename, and otherwise nothing changes |
| AtomicReplace.ErrorsHaveACause | src/snapshot.rs:2242-2351 | under every schedule, an error means that some call failed or that no candidate was usable |
| AtomicReplace.AttemptFollowsFates | src/snapshot.rs:2305-2350 | the outcome of an attempt, as a function of the fates of its own calls in order: the creation, again under the bare suffix if the name was too long, the two status calls and the removal |
| AtomicReplace.PublicationFollowsFates | src/snapshot.rs:2249-2266 | the outcome of a publication, as a function of the fates of the write, the sync, the rename and the directory sync, and of the removal behind the first failure |
| AtomicReplace.AtomicExactlyWithoutAlias | src/snapshot.rs:2242-2351 | for every folding of names, directory and counter: no schedule of failures ever shows anything but the old contents or the new exactly when the destination exists or none of the next 128 candidates resolves to its entry; the same holds among the schedules that never report an entry as not found |
| AtomicReplace.EmptyFileIsLeft | src/snapshot.rs:2326-2342 | otherwise a schedule without such a report is constructed under which an absent destination is created empty and is still there when the replacement has failed |
| AtomicReplace.PrefixIsLeft | src/snapshot.rs:2421-2428 | and one with it under which the failed replacement leaves the destination with any proper prefix of the envelope |
| AtomicReplace.DistinctNamesNeverAlias | src/snapshot.rs:2305-2318 | where distinct names are distinct entries no candidate aliases any destination, so that by the theorem above every replacement is atomic |
| AtomicReplace.AliasAheadMeans | src/snapshot.rs:2305-2318 | a candidate aliases exactly when the destination with one of the next 128 suffixes, or such a suffix other than the destination itself, folds to the destination |
| AtomicReplace.CaseFoldingAliases | src/snapshot.rs:3119-3162 | on a system that ignores ASCII case, a candidate aliases exactly those destinations that are its bare suffix in another case |
| AtomicReplace.CaseFoldingKeepsNames | src/snapshot.rs:2305-2318 | there no destination that does not begin with a dot is ever aliased, so that by the theorem above its replacement is atomic |
| AtomicReplace.CaseVariantIsLeftEmpty | src/snapshot.rs:2326-2342 | there, for every process and counter, a concrete destination can be left behind as an empty file, without any entry reported as not found |
| AtomicReplace.TruncationCollides | src/snapshot.rs:2305-2350 | on a system that keeps 14 characters of a name, an absent destination at least that long can never be created: without any failure it is seen empty 128 times, and then creation gives up |
| AtomicReplace.TruncationLeavesOneByte | src/snapshot.rs:2421-2428 | there, under one written-out schedule with a status reported as not found and a write that stops after one byte, that byte is left at the absent destination |
| AtomicReplace.ReplaceFile | src/snapshot.rs:2157-2170 | when the destination exists or no candidate aliases it, a reader always finds the old contents or an envelope that decodes to the payload; an encoding error touches nothing; success and a directory that fails to sync leave a file that decodes to the payload, and when no call fails a payload that encodes is published exactly when a candidate is usable |
| Scheduler.PartitionsConcatenate | src/batch/aggregate_scheduler.rs:311-323 | the partitions of all workers concatenate to the whole selection |
| Scheduler.PartitionsBalanced | src/batch/aggregate_scheduler.rs:311-323 | partition lengths differ by at most one, earlier ones being the longer |
| Scheduler.AdmittedLanesAreWorthwhile | src/batch/aggregate_scheduler.rs:82-135 | every admitted lane, even after a partial grant, receives at least 87,381 rows |
| Scheduler.WorkerCountBounds | src/batch/aggregate_scheduler.rs:82-114 | the worker count stays within the hard cap, the limit and the request cap, and is one up to the row threshold |
| Scheduler.WorkerCountIsGreatest | src/batch/aggregate_scheduler.rs:82-102 | above 262,144 rows it is the greatest count within 16, the limit and the cap that leaves no worker without a share of the 131,072-row blocks |
| Scheduler.RequestCapMeans | src/batch/aggregate_scheduler.rs:104-114 | a count is within the cap of a request exactly when it is within the configured one and, where threads are requested, within their number |
| WorkerBudget.EveryRunIsSafe | src/batch/aggregate_scheduler.rs:160-218 | in every interleaving of load, compare-and-swap and drop, helpers in use equal the sum of live permits and stay within the limit, each grant is between one and the request, and no release underflows |
| WorkerBudget.AttemptOutcome | src/batch/aggregate_scheduler.rs:160-185 | a successful swap grants what the request and the free budget allow at that instant; a refusal means an empty request or a budget read as exhausted; a failed swap, real or spurious, adopts the current value and leaves the budget alone |
| WorkerBudget.FreshAttemptIsGranted | src/batch/aggregate_scheduler.rs:160-185 | an attempt on the current value, the first or the retry after a failed swap, is granted while budget is free unless it fails spuriously |
| WorkerBudget.QuiescentBudgetIsFree | src/batch/aggregate_scheduler.rs:210-218 | when no permit is live the whole budget is free again |
| ParallelDriver.RunGroupedAggregate | src/batch/aggregate_scheduler.rs:331-394 | for every fault schedule a lawful aggregate returns exactly what one sequential chunk over all rows returns; helpers are spawned in lane order up to the first failure, all of them are joined in that order, the permits are released, and only then, exactly when nothing was admitted or a helper was lost, is the input repeated |
| ParallelDriver.CollectMeans | src/batch/aggregate_scheduler.rs:384-389 | collecting yields every partial in order, or the error of the first lane that has one |
| GroupedBoolCount.Partial.Observe | src/batch/grouped_bool_count.rs:53-74 | one row moves its key's two counters and the first-seen key, or reports the operation's overflow exactly when a counter would leave `i64` |
| GroupedBoolCount.Scan | src/batch/grouped_bool_count.rs:144-180 | a chunk scan yields the exact tally, or overflow exactly when a counter of it exceeds `i64::MAX` |
| GroupedBoolCount.ReduceOrdered | src/batch/grouped_bool_count.rs:182-207 | the checked reduction yields the sum of the partials with the first key seen, or overflow exactly when the sum is not representable |
| GroupedBoolCount.CountingIsLawful | src/batch/grouped_bool_count.rs:125-207 | cutting the rows into any contiguous parts changes nothing: rows, counts, first-seen key and overflow error alike |
| GroupedBoolCount.Reduce | src/batch/grouped_bool_count.rs:79-142 | under every fault schedule the counters are the numbers of positions with each key and of the counted ones among them, with the key of the first row; overflow exactly when a number of positions is no `i64` |
| GlobalSumAvg.ExactIsBounded | src/batch/global_int64_sum_avg.rs:55-65 | the sum of any selection is at most its present count times 2^63 in magnitude |
| GlobalSumAvg.ExactOfOne | src/batch/global_int64_sum_avg.rs:118-142 | nothing sums to zero, and one row to its own value, counted once if it has one; with the next row this determines every sum |
| GlobalSumAvg.ExactConcat | src/batch/global_int64_sum_avg.rs:118-157 | sum and count of two selections together are those of the one plus those of the other |
| GlobalSumAvg.Scan | src/batch/global_int64_sum_avg.rs:118-142 | no selection of fewer than 2^64 rows overflows the `i128` sum or the `u64` count, and the partial is exact |
| GlobalSumAvg.SummingIsLawful | src/batch/global_int64_sum_avg.rs:98-157 | ordered reduction of any contiguous parts is exact and never overflows |
| GlobalSumAvg.Reduce | src/batch/global_int64_sum_avg.rs:68-116 | under every fault schedule the result is the exact sum and present count |
| ScalarExtremum.ChunkIsExtremum | src/batch/global_scalar_extremum.rs:202-216 | the chunk yields the value at the first selected position that nothing beats, ignoring `NULL` |
| ScalarExtremum.ExtremumUnique | src/batch/global_scalar_extremum.rs:202-216 | at most one value is the first extremum of a selection, so the previous row determines the result |
| ScalarExtremum.ChunkConcat | src/batch/global_scalar_extremum.rs:202-227 | merging the extrema of two neighbouring chunks, the left one winning ties, is the extremum of both together |
| ScalarExtremum.ReduceScalar | src/batch/global_scalar_extremum.rs:134-200 | under every fault schedule the reduction equals one chunk over the whole selection |
| ScalarExtremum.MinAndMaxFloat | src/batch/global_scalar_extremum.rs:43-69 | parallel float `MIN` and `MAX` return the least and greatest present real value, and of several such, the two zeros among them, the first |
| ScalarExtremum.MinAndMaxInt | src/batch/global_scalar_extremum.rs:11-41 | parallel `Int64` `MIN` and `MAX` return the least and greatest present value, `NULL` without one |
| GroupedBoolExtremum.Partial.Observe | src/batch/grouped_bool_min.rs:53-60 | a row updates its key's slot, keeping the earlier value on a tie, and records the first key once |
| GroupedBoolExtremum.Scan | src/batch/grouped_bool_min.rs:124-138 | the loop over one chunk computes, per key, the first extremum of its rows, and the first key seen |
| GroupedBoolExtremum.AbsorbKeepsFirstKey | src/batch/grouped_bool_min.rs:141-160 | replaying a partial's slots keeps the first-seen key, because a stored extremum implies a recorded key |
| GroupedBoolExtremum.UnrecordedKeyWouldBeInvented | src/batch/grouped_bool_min.rs:141-160 | the recorded key is needed: replaying a partial with both extrema and no first key would make `false` the first key |
| GroupedBoolExtremum.PartsReduceExactly | src/batch/grouped_bool_min.rs:101-160 | reducing any contiguous parts in order gives the slots and first key of the whole selection |
| GroupedBoolExtremum.Reduce | src/batch/grouped_bool_max.rs:63-160 | under every fault schedule grouped `MIN` and `MAX` hold per key the value at the first position of that key that no row of the key beats, nothing without such a row, and the key of the first row |
| CsvReader.DataRecords.Next | src/batch/csv.rs:342-412 | one step of the splitter loop: the record, its first line and the position behind its line ending, or the line of a lone carriage return |
| CsvReader.ScanRecord | src/batch/csv.rs:505-559 | the scanner collects the fields of a record, or the column of the first malformed quoting |
| CsvScanning.ScanInvertsJoined | src/batch/csv.rs:505-559 | the scanner returns given fields exactly for the record that joins them, bare fields holding no comma or quote and quoted text holding quotes only in pairs |
| CsvSplitting.SplitFields | src/batch/csv.rs:355-407 | the splitter passes over a joined record exactly when no bare field breaks the line and every carriage return in a quoted one is followed by a line feed: both stages agree on quote state |
| CsvSplitting.ReadInvertsText | src/batch/csv.rs:342-559 | both stages together return given lines exactly for the text of those lines, and only lines of the grammar |
| CsvIngest.ParseRecord | src/batch/csv.rs:269-315 | row limit before syntax, syntax before value limit, value limit before arity, and all of them before any conversion |
| CsvIngest.ParseDataRows | src/batch/csv.rs:258-317 | the record loop computes the row-by-row ingestion, first error and all |
| CsvRoundTrip.IngestIsRead | src/batch/csv.rs:258-317 | ingestion yields given rows exactly when the lines read convert to them within the limits |
| CsvLaws.FaultsInOrder | src/batch/csv.rs:269-291 | of several faults of a record the row limit is reported before the syntax, the syntax before the value limit and that before the number of columns, each with its numbers |
| CsvLaws.ScanFaultIsNamed | src/batch/csv.rs:505-559 | a record that does not scan is reported with the number of the first field that is none: whole fields precede it, and no field of the grammar begins there |
| CsvLaws.FirstInvalidIsNamed | src/batch/csv.rs:293-312 | a row that does not convert is reported with its line and its first field without a cell |
| CsvLaws.LinesAreCounted | src/batch/csv.rs:342-412 | every line feed passed counts, quoted ones included, and a lone carriage return is reported on the line it stands in |
| CsvLaws.OnlyBareNullIsNull | src/batch/csv.rs:297-299 | a cell is `NULL` exactly for the bare token in a nullable column, so never for a quoted one |
| CsvWriter.WriteCsvField | src/batch/format.rs:376-389 | a field is written bare, or quoted with every quote doubled |
| CsvWriter.WriteCsvRows | src/batch/format.rs:359-374 | the rows are written as joined fields, each row ended by a line feed, `NULL` bare |
| CsvLaws.BareWhenPossible | src/batch/format.rs:376-389 | a text is written bare exactly when it holds no comma, quote or line break |
| CsvLaws.RowWrittenOut | src/batch/format.rs:359-389 | one row written out: a text with a comma and a quote, `NULL` and a plain text |
| CsvRoundTrip.WrittenRowsAreReadBack | src/batch/format.rs:359-389 | reading back what was written recovers every row whose cells the columns can carry |
| CsvRoundTrip.TextSurvivesExactly | src/batch/format.rs:359-389 | text rows survive writing and reading exactly when there are none, or they have a column and every carriage return in them is followed by a line feed |
| CsvRoundTrip.LoneReturnIsLost | src/batch/format.rs:359-389 | one row holding a lone carriage return does not survive |
| CsvRoundTrip.ParseWriteParse | src/batch/csv.rs:258-317 | for any accepted input, writing its rows and parsing again gives the same rows |
| ScalarText.ParseOfIntText | src/batch/csv.rs:572-576 | parsing a printed `Int64` gives the number back |
| ScalarText.NumbersWrittenOut | src/batch/csv.rs:572-576 | three printed numbers, every digit among them |
| ScalarText.ParseWriteParse | src/batch/csv.rs:258-317 | for columns of text, `Int64` and `Bool` the previous law holds with no assumption on printing |
| Escaping.WriteEscaped | src/batch/format.rs:436-457 | the copying loop of the escaping writers emits every character's escape, or the character |
| Escaping.HexDigitCount | src/batch/format.rs:229-232 | the digit count taken from the bit length is the number of hexadecimal digits written |
| Tsv.WriteTsvRows | src/batch/format.rs:419-434 | rows of escaped cells with tabs between and a line feed behind |
| Tsv.NoTextIsNull | src/batch/format.rs:436-457 | no String renders as the `NULL` token |
| Tsv.UniquelyDecodable | src/batch/format.rs:419-457 | for fixed column types, equal output means equal rows |
| TsvReading.OutputIsSplit | src/batch/format.rs:419-457 | cutting the output at tabs and line feeds gives one raw cell for every cell of every row; rows have a cell |
| TsvReading.CellsAreReadBack | src/batch/format.rs:419-457 | undoing the escape letters gives every cell back, `NULL` as `NULL` and text as text |
| ScalarText.UniquelyDecodable | src/batch/format.rs:419-457 | for columns of text, `Int64` and `Bool`, `NULL` included, equal output means equal rows, with no assumption on printing |
| ScalarText.PrintingIsBare | src/batch/format.rs:680-690 | printed `Int64` and `Bool` values are bare words of JSON and plain cells of TSV, so that the readings above and below hold for them |
| TableText.MeasureText | src/batch/format.rs:220-240 | the metrics are the character and byte counts of the escaped text, unless the byte count is no `usize` |
| TableText.TableAligned | src/batch/format.rs:99-119 | the table text is lines of one common character width with a line feed between each two |
| TableWriter.TableWidths | src/batch/format.rs:161-175 | each width is the greatest of the column's name and cells |
| TableWriter.TableStringBytes | src/batch/format.rs:177-212 | the sizing formula adds up to the bytes of the table text |
| TableWriter.TableRenderedBytes | src/batch/format.rs:177-194 | the checked sum is the exact size, or nothing exactly when that is no `usize` |
| TableWriter.WriteTable | src/batch/format.rs:99-152 | within the bound the output is exactly prefix, table and suffix; over it nothing is written and the exact size is reported |
| TableReading.LinesOfTable | src/batch/format.rs:99-119 | the lines of the text are a border, the names, a border, the rows in order and a border |
| TableReading.CellIsReadBack | src/batch/format.rs:276-334 | undoing the escapes in the columns of a line gives each cell back, up to the spaces that fill its column |
| JsonEachRow.RenderedBytes | src/batch/format.rs:591-616 | nothing when a row is wider than the columns; otherwise the exact size of the output, shorter rows included |
| JsonEachRow.Write | src/batch/format.rs:552-589 | within the bound every row is written as its object; over it, or with too wide a row, nothing is |
| JsonReading.WrittenString | src/batch/format.rs:692-722 | a reader of the string grammar of section 7 of RFC 8259 gets every text back from its written string |
| JsonReading.OutputIsReadBack | src/batch/format.rs:552-589 | reading the output by that grammar gives one object per row and line |
| JsonReading.MembersMean | src/batch/format.rs:552-589 | whose members are the columns in order, each name with its cell: `null` for `NULL`, a string for text, the printed scalar otherwise |
| ListenerReport.RecordKeepsBalance | src/http.rs:1086-1127 | recording a completion keeps every accepted connection in flight, succeeded, or failed with its own error |
| ListenerReport.BalancedReportIsOrdered | src/http.rs:1048-1051 | with nothing in flight the sorted failures are exactly the failing connections, strictly increasing by acceptance number, and all others succeeded |
| ListenerMachine.StepIsSafe | src/http.rs:750-838 | every step of the listener thread or a worker keeps the invariant |
| ListenerMachine.EveryRunIsSafe | src/http.rs:732-852 | in every run in-flight workers stay within the cap, accepted equals successes plus failures plus in-flight, and each received completion names a live worker |
| ListenerMachine.NothingDispatchedAfterStop | src/http.rs:751-754 | whatever follows a read of the stop flag that was true, nothing more is dispatched, the connection of a racing accept included |
| ListenerMachine.FinalReport | src/http.rs:836-851 | a finished run reports all accepted exchanges, failures in strictly increasing order |
| ListenerMachine.WaitsAreAnswered | src/http.rs:1060-1084 | a listener waiting for a completion has one queued or a worker still running that will send it |
| ListenerRuns.DispatchesAreCounted | src/http.rs:750-838 | in every run the connections counted are exactly those returned by an accept and followed by a false read of the stop flag, each is in flight or ended as its own event says, and the listener thread stands where its events, read without the machine, put it |
| ListenerRuns.ReportFollowsCompletions | src/http.rs:1060-1127 | completions are received in the order in which the exchanges ended, and the report counts and lists exactly those received |
| ListenerRuns.EventsAdmitted | src/http.rs:732-852 | which events a run may go on with, stage by stage |
| ListenerRuns.FirstConnection | src/http.rs:740-833 | from the start, a false read and a set up listener open admission, and a connection then returned and not recalled is counted and in flight |
| ConcurrentListener.ServeSequentially | src/http.rs:1129-1159 | the sequential loop accepts, serves and records one connection after the other |
| ConcurrentListener.Listener.FinishCompletion | src/http.rs:1086-1105 | the named worker leaves the list by swap-removal and its exchange is recorded |
| ConcurrentListener.Listener.Serve | src/http.rs:979-1056 | whatever the interleaving, the final world and outcomes are those of serving every accepted connection once, in some order, the number of connections in flight never exceeds the cap, and the failures come out ordered and complete; with cap one, report, accept failure and world are those of the sequential listener |
| Scan.MatchingMeans | src/scan.rs:173-200 | the matching rows in source order, each once, and only those |
| Scan.OperatorsPartitionRows | src/scan.rs:23-52 | every row matches exactly one of an operator, its complement and `IS NULL` |
| Scan.SelectedByOrder | src/scan.rs:23-52 | which rows each operator, `IS NULL` and `IS NOT NULL` select, by the order of the integers alone |
| Scan.SelectionsAreClosed | src/scan.rs:23-52 | `<` and `<=` select everything below what they select, `>` and `>=` everything above, and the literal is selected by `=`, `<=` and `>=` alone |
| Scan.ScanMatchingRows | src/scan.rs:173-200 | the scan returns all matches, or fails exactly when there are more than the bound |
| Bits.ToggledTopBit | src/order.rs:168 | exclusive or with a word whose top bit alone is set adds the weight of that bit or takes it away, at every width |
| Bits.NegatedCountsDown | src/order.rs:171 | complementing all bits counts down from the greatest number of the width |
| Order.RanksFollowOrder | src/order.rs:166-174 | with both operators defined on the 64 bits, flipping the sign bit keeps signed order as unsigned order, and the complement reverses it |
| Order.KeysFollowRows | src/order.rs:147-181 | comparing keys is comparing rows by null placement, direction and source position |
| Order.StableOrderMeans | src/order.rs:131-144 | the stable order holds every row once, each strictly before the next in SQL order |
| Order.SelectTop | src/order.rs:128-138 | the bounded heap keeps exactly the first keys of the sorted order |
| Order.OrderNullableI64 | src/order.rs:101-144 | the result is the first min(limit, n) rows of the stable order, or the violated bound |
| Join.InnerMeans | src/join.rs:146-177 | the nested loop holds exactly the pairs with equal present values, each once, in left-major order |
| Join.LeftOuterMeans | src/join.rs:211-238 | the left outer output holds exactly the pairs with equal present values and the left rows that are NULL or match nothing, each once, in left-major order |
| Join.LeftOuterWithoutUnmatched | src/join.rs:211-238 | the left outer output without its unmatched rows is the inner output |
| Join.IndexRightRows | src/join.rs:240-251 | the index holds under each present value its right rows in order, and no empty entry |
| Join.CountOutputPairs | src/join.rs:275-294 | the counting pass fails exactly when the true size exceeds the limit, and its remaining capacity never underflows |
| Join.CountLeftOuterOutputPairs | src/join.rs:296-317 | the same for the left outer join, an unmatched row counting once |
| Join.InnerEquiJoin | src/join.rs:146-177 | the hash join returns exactly the nested-loop result, or the first violated bound |
| Join.LeftOuterEquiJoin | src/join.rs:211-238 | the left outer hash join returns exactly the nested-loop result, or the first violated bound |
| Aggregate.ValidSelections | src/aggregate.rs:286-313 | validation accepts exactly the strictly increasing selections of existing rows |
| Aggregate.FirstFault | src/aggregate.rs:286-313 | the fault reported is the first, and is what stands at its position |
| Aggregate.CountNullableI64 | src/aggregate.rs:155-175 | row count and present count of a valid selection, which no sum can make fail |
| Aggregate.AggregateNullableI64 | src/aggregate.rs:245-337 | exact counts and sum of a valid selection; overflow is reported exactly when the exact sum is no `Int64` |
| Execution.ExecuteSelect | src/execution.rs:679-755 | a successful SELECT is filter, then stable sort, then take; otherwise the first unknown name or violated bound |
| Execution.ScanIsFilter | src/execution.rs:710-721 | looking up the scanned rows gives the filtered values |
| Execution.DefaultBoundsSuffice | src/execution.rs:657-672 | with the default bounds a SELECT fails only on a name |
| SelectLaws.SelectMeans | src/execution.rs:679-755 | value by value: a SELECT returns only passing rows, all of them unless the limit is reached, in the order of its clause, and no passing row that the limit cut off belongs before one it returned |
| SelectLaws.FilterOfOneRow | src/scan.rs:23-52 | a single row passes each condition by integer comparison of its own value, and `NULL` passes only `IS NULL` |
| SelectLaws.OrderedMeans | src/order.rs:131-144 | ordered values are the same values, each as often, in the order of the clause |
| SelectLaws.SelectNamesDecide | src/execution.rs:679-709 | a SELECT is refused for a name exactly when one of its names is not the table's, a wrong table first |
| SelectLaws.SelectBoundsDecide | src/execution.rs:710-755 | and for a bound exactly when the rows read, the rows that pass or the limit exceed theirs |
| Execution.ScannedSelectionIsValid | src/execution.rs:441-456 | a filtered aggregate never reports a selection out of order or out of bounds |
| Execution.ExecuteScalarCount | src/execution.rs:413-462 | the count of the rows that pass, or of the present ones, or the first fault |
| Execution.ExecuteScalarSum | src/execution.rs:517-556 | the exact sum of the values that pass, `NULL` without a present one, and overflow exactly when it is no `Int64` |
| SelectLaws.TotalsOfConcat | src/execution.rs:517-556 | counts and sums add up over neighbouring values, and one value counts and sums as itself |
| SelectLaws.SumDecides | src/execution.rs:517-556 | `SUM` is `NULL` exactly without a present value, and overflows exactly when the total is no signed 64-bit number |
| Execution.FilteredCountsAgree | src/execution.rs:456-461 | under a comparison `COUNT(*)` and `COUNT(column)` agree |
| Execution.ExecuteInnerJoin | src/execution.rs:187-227 | the left values of the inner pairs, or the first unknown name or violated bound |
| JoinLaws.InnerJoinCounts | src/execution.rs:187-227 | the inner join returns each present value as often as it stands on the left times as often as on the right, and no `NULL` |
| SelectLaws.JoinNamesDecide | src/execution.rs:187-322 | a join is refused for a name exactly when some name is not that of its table; an inner join projects a left column, a left join a right one |
| Execution.ExecuteLeftJoin | src/execution.rs:273-322 | the right values of the outer pairs with `NULL` for the unmatched, or the first fault |
| JoinLaws.LeftJoinCounts | src/execution.rs:273-322 | the left join returns each present value as often as the inner join, and a `NULL` for every left row that is `NULL` or matches nothing |
| Execution.LeftJoinWithoutNulls | src/execution.rs:187-322 | without its `NULL` rows the left join projects exactly what the inner join projects |

## Left out

- Widths: `usize` has 64 bits, no slice is longer than `isize::MAX`, and allocation never fails.
- Text is a sequence of Unicode scalar values with its UTF-8 size counted; the positions a loop moves through are characters, not bytes, and the valid prefix that a UTF-8 error reports is kept only in the table payload.
- Scalar text: how values print and parse is a parameter of the CSV, TSV and JSONEachRow models; `ScalarText` supplies it for `Int64` and `Bool`, and the printing and parsing of `Float64` is not part of this model.
- CsvRoundTrip.ParseWriteParse: assumes of that parameter that parsing a printed scalar gives the scalar back, and that no printed scalar is `NULL` or holds a lone carriage return; this is proved for `Int64` and `Bool` and assumed for `Float64`.
- Tsv.UniquelyDecodable: assumes that the printed scalars of one type are distinct and hold no tab, line feed or backslash; this is proved for `Int64` and `Bool` and assumed for `Float64`.
- TsvReading.OutputIsSplit: assumes that printed scalars hold no tab, line feed or backslash, which is proved for `Int64` and `Bool` and assumed for `Float64`; and that no row is without cells, because an empty row is written like a row of one empty text.
- JsonReading.OutputIsReadBack: assumes that printed scalars are bare words other than `null`, which is proved for `Int64` and `Bool` and assumed for `Float64`. The reader takes bare words as they stand and no surrogate pairs, which the writer never emits; it is a reading of the grammar, not a model of source code.
- TableReading.CellIsReadBack: a cell comes back with the spaces that fill its column, from which the format cannot tell its own trailing spaces.
- CSV headers, the byte limit of a whole input and the UTF-8 check before it; `parse_data_rows` is modelled from there on, up to the hand-over to table storage.
- CSV visitor: `scan_record` collects its fields instead of calling back, and the conversions of its second call run over that list.
- Output errors: writers append to a buffer that never fails, so a partial output after an I/O error is not modelled. Names-with-header variants and the other JSON formats are left out as easier forms of the same writers.
- One loop, `WriteEscaped`, stands for the three escaping writers, which differ only in their escape tables.
- Table cells are given as their display texts, and a row shorter than its columns, on which the source panics, is excluded by a precondition.
- The network: an accept call is its outcome, an interrupted accept of the finite listener is retried invisibly, an exchange is one step of a shared world, and panicking exchanges are excluded. Deadlines, authentication, parsing and routing are left out.
- ConcurrentListener.Listener.Serve: exchanges take effect one at a time, at the moment they end.
- File-system calls are the abstract directory of `AtomicReplace`; other processes, real metadata, path parsing and crashes between calls are left out. A schedule may report any error from any call, also one that a given system would not. A failed call has no effect, except that a write may have stored some bytes and that `NotFound` from removing a file stands for the entry having gone already, and takes it away.
- Atomics are sequentially consistent; thread names and memory orderings are left out.
- A panic in the coordinating thread's own chunk and the parallel execution of chunks are not modelled; chunks are functions of their rows.
- Columns of the parallel reducers are functions of the row index, so a selection outside its column is not modelled.
- ScalarExtremum.MinAndMaxFloat: floats are real values with a sign of zero; NaN and infinities, which the database does not store, are left out.
- The library heap of `Order` is represented by its keys in ascending order.
- `MIN` over a selection, `DISTINCT`, inserts, the parser, catalogs, locking wrappers and the command line only add easier members; the engine, the write-ahead log and sparse indexes are not part of this model.
