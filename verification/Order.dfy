/** Bounded top-k ordering of a nullable `Int64` column (`src/order.rs`). */
module Order {
  import opened Bits
  import opened Words

  datatype Direction = Asc | Desc

  datatype NullOrder = First | Last

  datatype OrderLimits = OrderLimits(maxInputRows: usize, maxLimit: usize)

  datatype OrderError =
    | InputLimitExceeded(rows: nat, maxRows: nat)
    | LimitExceeded(limit: nat, maxLimit: nat)

  // ---------- the SQL order ----------

  /** Whether one value sorts strictly before another: `NULL` where the clause puts it, present
      values in the clause's direction. */
  predicate ValueBefore(direction: Direction, nullOrder: NullOrder, a: Row, b: Row) {
    if a.None? then b.Some? && nullOrder.First?
    else if b.None? then nullOrder.Last?
    else if direction.Asc? then a.value < b.value
    else a.value > b.value
  }

  /** Rows with equal values keep their source order. */
  predicate RowBefore(direction: Direction, nullOrder: NullOrder, values: seq<Row>, i: nat, j: nat)
    requires i < |values| && j < |values|
  {
    ValueBefore(direction, nullOrder, values[i], values[j]) || (values[i] == values[j] && i < j)
  }

  // ---------- order keys ----------

  datatype OrderKey = OrderKey(nullRank: nat, valueRank: u64, sourceIndex: nat)

  /** `value as u64`: two's complement. */
  function AsU64(value: i64): (r: u64) {
    if value < 0 then value + U64_LIMIT else value
  }

  lemma SixtyFourBits()
    ensures Pow2(64) == U64_LIMIT && Pow2(63) == I64_LIMIT
  {
    for k: nat := 0 to 8
      invariant Pow2(8 * k) == Pow256(k)
    {
      Pow2PlusEight(8 * k);
    }
    assert Pow256(8) == U64_LIMIT;
    assert Pow2(64) == 2 * Pow2(63);
  }

  /** `word ^ (1 << 63)`, on the 64 bits of the word. */
  function FlipSignBit(word: u64): (r: u64) {
    SixtyFourBits();
    BitsOfNumber(Xored(BitsOf(word, 64), TopBit(64)));
    Number(Xored(BitsOf(word, 64), TopBit(64)))
  }

  /** `!word`, on the 64 bits of the word. */
  function Complement(word: u64): (r: u64) {
    SixtyFourBits();
    BitsOfNumber(Negated(BitsOf(word, 64)));
    Number(Negated(BitsOf(word, 64)))
  }

  lemma FlipIsOffset(word: u64)
    ensures FlipSignBit(word) == if word < I64_LIMIT then word + I64_LIMIT else word - I64_LIMIT
  {
    SixtyFourBits();
    NumberOfBitsOf(word, 64, U64_LIMIT);
    ToggledTopBit(BitsOf(word, 64));
  }

  lemma ComplementCountsDown(word: u64)
    ensures Complement(word) == U64_LIMIT - 1 - word
  {
    SixtyFourBits();
    NumberOfBitsOf(word, 64, U64_LIMIT);
    NegatedCountsDown(BitsOf(word, 64));
  }

  function ValueRank(direction: Direction, value: i64): (r: u64) {
    var ascendingRank := FlipSignBit(AsU64(value));
    if direction.Asc? then ascendingRank else Complement(ascendingRank)
  }

  /** `OrderKey::new`. */
  function NewKey(direction: Direction, nullOrder: NullOrder, value: Row, sourceIndex: nat): (r: OrderKey) {
    OrderKey(if value.None? == nullOrder.First? then 0 else 1,
             if value.None? then 0 else ValueRank(direction, value.value),
             sourceIndex)
  }

  /** The derived lexicographic order. */
  predicate Less(a: OrderKey, b: OrderKey) {
    a.nullRank < b.nullRank
    || (a.nullRank == b.nullRank
        && (a.valueRank < b.valueRank || (a.valueRank == b.valueRank && a.sourceIndex < b.sourceIndex)))
  }

  /** Flipping the sign bit of a two's complement word keeps the signed order as an unsigned one,
      and complementing the bits reverses it. */
  lemma RanksFollowOrder(a: i64, b: i64)
    ensures ValueRank(Asc, a) < ValueRank(Asc, b) <==> a < b
    ensures ValueRank(Desc, a) < ValueRank(Desc, b) <==> a > b
    ensures forall direction :: ValueRank(direction, a) == ValueRank(direction, b) <==> a == b
  {
    RankIsOffset(a);
    RankIsOffset(b);
  }

  lemma RankIsOffset(value: i64)
    ensures ValueRank(Asc, value) == value + I64_LIMIT
    ensures ValueRank(Desc, value) == I64_LIMIT - 1 - value
  {
    hide FlipSignBit, Complement;
    FlipIsOffset(AsU64(value));
    ComplementCountsDown(FlipSignBit(AsU64(value)));
  }

  function KeyAt(direction: Direction, nullOrder: NullOrder, values: seq<Row>, i: nat): (r: OrderKey)
    requires i < |values|
  {
    NewKey(direction, nullOrder, values[i], i)
  }

  /** Comparing keys is comparing rows. */
  lemma KeysFollowRows(direction: Direction, nullOrder: NullOrder, values: seq<Row>, i: nat, j: nat)
    requires i < |values| && j < |values|
    ensures Less(KeyAt(direction, nullOrder, values, i), KeyAt(direction, nullOrder, values, j))
       <==> RowBefore(direction, nullOrder, values, i, j)
  {
    if values[i].Some? && values[j].Some? {
      hide ValueRank;
      RanksFollowOrder(values[i].value, values[j].value);
    }
  }

  // ---------- stable sorting ----------

  predicate Ascending(keys: seq<OrderKey>) {
    forall i, j :: 0 <= i < j < |keys| ==> Less(keys[i], keys[j])
  }

  function Insert(key: OrderKey, sorted: seq<OrderKey>): (r: seq<OrderKey>)
    ensures |r| == |sorted| + 1
  {
    if sorted == [] || Less(key, sorted[0]) then [key] + sorted
    else [sorted[0]] + Insert(key, sorted[1..])
  }

  /** The keys of the first `n` rows in ascending order. */
  function SortedKeys(direction: Direction, nullOrder: NullOrder, values: seq<Row>, n: nat): (r: seq<OrderKey>)
    requires n <= |values|
    ensures |r| == n
  {
    if n == 0 then []
    else Insert(KeyAt(direction, nullOrder, values, n - 1), SortedKeys(direction, nullOrder, values, n - 1))
  }

  function SourceIndices(keys: seq<OrderKey>): (r: seq<nat>)
    ensures |r| == |keys|
    ensures forall i :: 0 <= i < |keys| ==> r[i] == keys[i].sourceIndex
  {
    seq(|keys|, i requires 0 <= i < |keys| => keys[i].sourceIndex)
  }

  /** The source rows in SQL order, ties in source order. */
  function StableOrder(direction: Direction, nullOrder: NullOrder, values: seq<Row>): (r: seq<nat>)
    ensures |r| == |values|
  {
    SourceIndices(SortedKeys(direction, nullOrder, values, |values|))
  }

  lemma {:induction false} InsertKeepsAscending(key: OrderKey, sorted: seq<OrderKey>)
    requires Ascending(sorted) && forall i :: 0 <= i < |sorted| ==> sorted[i].sourceIndex != key.sourceIndex
    ensures Ascending(Insert(key, sorted))
    ensures forall k :: k in Insert(key, sorted) <==> k == key || k in sorted
    decreases |sorted|
  {
    if sorted != [] {
      if Less(key, sorted[0]) {
        forall j | 0 <= j < |sorted|
          ensures Less(key, sorted[j])
        {
        }
      } else {
        var rest := Insert(key, sorted[1..]);
        InsertKeepsAscending(key, sorted[1..]);
        forall j | 0 <= j < |rest|
          ensures Less(sorted[0], rest[j])
        {
          var k := rest[j];
          assert k in rest;
          if k != key {
            var m :| 0 <= m < |sorted[1..]| && sorted[1..][m] == k;
            assert sorted[m + 1] == k;
          }
        }
        assert sorted == [sorted[0]] + sorted[1..];
      }
    }
  }

  lemma {:induction false} SortedKeysMean(direction: Direction, nullOrder: NullOrder, values: seq<Row>, n: nat)
    requires n <= |values|
    ensures Ascending(SortedKeys(direction, nullOrder, values, n))
    ensures forall k :: k in SortedKeys(direction, nullOrder, values, n)
                   <==> k.sourceIndex < n && k == KeyAt(direction, nullOrder, values, k.sourceIndex)
    decreases n
  {
    hide Insert, Less, ValueRank;
    if n > 0 {
      SortedKeysMean(direction, nullOrder, values, n - 1);
      var before := SortedKeys(direction, nullOrder, values, n - 1);
      MembersAreEarlier(before, n - 1);
      InsertKeepsAscending(KeyAt(direction, nullOrder, values, n - 1), before);
    }
  }

  lemma MembersAreEarlier(keys: seq<OrderKey>, n: nat)
    requires forall k :: k in keys ==> k.sourceIndex < n
    ensures forall i :: 0 <= i < |keys| ==> keys[i].sourceIndex < n
  {
    forall i | 0 <= i < |keys|
      ensures keys[i].sourceIndex < n
    {
      var k := keys[i];
      assert k in keys;
    }
  }

  /** The stable order is every row once, each strictly before the next in SQL order. */
  lemma StableOrderMeans(direction: Direction, nullOrder: NullOrder, values: seq<Row>)
    ensures var rows := StableOrder(direction, nullOrder, values);
      && (forall i: nat :: i in rows <==> i < |values|)
      && (forall m, n :: 0 <= m < n < |rows| ==>
            rows[m] < |values| && rows[n] < |values| && RowBefore(direction, nullOrder, values, rows[m], rows[n]))
  {
    var keys := SortedKeys(direction, nullOrder, values, |values|);
    var rows := StableOrder(direction, nullOrder, values);
    SortedKeysMean(direction, nullOrder, values, |values|);
    forall m | 0 <= m < |rows|
      ensures rows[m] < |values| && keys[m] == KeyAt(direction, nullOrder, values, rows[m])
    {
      var k := keys[m];
      assert k in keys;
    }
    forall i: nat
      ensures i in rows <==> i < |values|
    {
      if i < |values| {
        var k := KeyAt(direction, nullOrder, values, i);
        assert k in keys;
        var m :| 0 <= m < |keys| && keys[m] == k;
        assert rows[m] == i;
      }
    }
    forall m, n | 0 <= m < n < |rows|
      ensures RowBefore(direction, nullOrder, values, rows[m], rows[n])
    {
      KeysFollowRows(direction, nullOrder, values, rows[m], rows[n]);
    }
  }

  // ---------- the bounded heap ----------

  /** The first `k` keys. */
  function Best(keys: seq<OrderKey>, k: nat): (r: seq<OrderKey>) {
    if |keys| <= k then keys else keys[..k]
  }

  /** Inserting into a sorted list and cutting it is cutting first and replacing the greatest kept
      key, if the new one is smaller. */
  lemma {:induction false} InsertThenCut(key: OrderKey, sorted: seq<OrderKey>, k: nat)
    requires 0 < k <= |sorted| && Ascending(sorted)
    requires forall i :: 0 <= i < |sorted| ==> sorted[i].sourceIndex != key.sourceIndex
    ensures Insert(key, sorted)[..k]
         == if Less(key, sorted[k - 1]) then Insert(key, sorted[..k - 1]) else sorted[..k]
    decreases k
  {
    var inserted := Insert(key, sorted);
    if Less(key, sorted[0]) {
      assert inserted[..k] == [key] + sorted[..k - 1];
      if k > 1 {
        assert sorted[..k - 1][0] == sorted[0];
      }
    } else {
      var rest := sorted[1..];
      assert inserted[..k] == [sorted[0]] + Insert(key, rest)[..k - 1];
      if k > 1 {
        InsertThenCut(key, rest, k - 1);
        assert rest[..k - 2] == sorted[1..k - 1] && rest[..k - 1] == sorted[1..k];
        assert sorted[..k - 1][1..] == sorted[1..k - 1] && sorted[..k] == [sorted[0]] + sorted[1..k];
      }
    }
  }

  /** One turn of the selection loop. The heap is held as its keys in ascending order, so its
      greatest key, the one `peek_mut` shows, is the last. */
  function Considered(heap: seq<OrderKey>, candidate: OrderKey, retainedRows: nat): (r: seq<OrderKey>)
    requires 0 < retainedRows
  {
    if |heap| < retainedRows then Insert(candidate, heap)
    else if Less(candidate, heap[|heap| - 1]) then Insert(candidate, heap[..|heap| - 1])
    else heap
  }

  lemma BestOfInsert(candidate: OrderKey, sorted: seq<OrderKey>, k: nat)
    requires 0 < k && Ascending(sorted)
    requires forall i :: 0 <= i < |sorted| ==> sorted[i].sourceIndex != candidate.sourceIndex
    ensures Best(Insert(candidate, sorted), k) == Considered(Best(sorted, k), candidate, k)
  {
    if k <= |sorted| {
      InsertThenCut(candidate, sorted, k);
      assert sorted[..k][..k - 1] == sorted[..k - 1];
    }
  }

  lemma BestStep(direction: Direction, nullOrder: NullOrder, values: seq<Row>, i: nat, k: nat)
    requires i < |values| && 0 < k
    ensures Best(SortedKeys(direction, nullOrder, values, i + 1), k)
         == Considered(Best(SortedKeys(direction, nullOrder, values, i), k), KeyAt(direction, nullOrder, values, i), k)
  {
    var sorted := SortedKeys(direction, nullOrder, values, i);
    SortedKeysMean(direction, nullOrder, values, i);
    MembersAreEarlier(sorted, i);
    BestOfInsert(KeyAt(direction, nullOrder, values, i), sorted, k);
  }

  /** The selection loop: the bounded heap keeps exactly the first keys of the sorted order. */
  method SelectTop(direction: Direction, nullOrder: NullOrder, values: seq<Row>, retainedRows: nat)
    returns (topRows: seq<OrderKey>)
    requires 0 < retainedRows
    ensures topRows == Best(SortedKeys(direction, nullOrder, values, |values|), retainedRows)
  {
    hide ValueRank, Less;
    topRows := [];
    for sourceIndex := 0 to |values|
      invariant topRows == Best(SortedKeys(direction, nullOrder, values, sourceIndex), retainedRows)
    {
      BestStep(direction, nullOrder, values, sourceIndex, retainedRows);
      var candidate := NewKey(direction, nullOrder, values[sourceIndex], sourceIndex);
      if |topRows| < retainedRows {
        topRows := Insert(candidate, topRows);
      } else {
        var worst := topRows[|topRows| - 1];
        if Less(candidate, worst) {
          topRows := Insert(candidate, topRows[..|topRows| - 1]);
        }
      }
    }
  }

  function OrderOutcome(direction: Direction, nullOrder: NullOrder, values: seq<Row>, limit: nat, limits: OrderLimits):
      (r: Result<seq<nat>, OrderError>)
  {
    if |values| > limits.maxInputRows then Err(InputLimitExceeded(|values|, limits.maxInputRows))
    else if limit > limits.maxLimit then Err(LimitExceeded(limit, limits.maxLimit))
    else Ok(StableOrder(direction, nullOrder, values)[..Min(limit, |values|)])
  }

  /** `order_nullable_i64`: the first `min(limit, n)` rows of the stable order. */
  method OrderNullableI64(direction: Direction, nullOrder: NullOrder, values: seq<Row>, limit: nat, limits: OrderLimits)
      returns (r: Result<seq<nat>, OrderError>)
    ensures r == OrderOutcome(direction, nullOrder, values, limit, limits)
  {
    if |values| > limits.maxInputRows {
      return Err(InputLimitExceeded(|values|, limits.maxInputRows));
    }
    if limit > limits.maxLimit {
      return Err(LimitExceeded(limit, limits.maxLimit));
    }
    if limit == 0 || values == [] {
      return Ok([]);
    }
    var topRows := SelectTop(direction, nullOrder, values, Min(limit, |values|));
    FirstIndices(SortedKeys(direction, nullOrder, values, |values|), Min(limit, |values|));
    return Ok(SourceIndices(topRows));
  }

  lemma FirstIndices(keys: seq<OrderKey>, k: nat)
    requires k <= |keys|
    ensures Best(keys, k) == keys[..k] && SourceIndices(keys[..k]) == SourceIndices(keys)[..k]
  {
  }
}
