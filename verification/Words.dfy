/** Fixed-width machine words, their little-endian byte layout, and the result
    types shared by every component. */
module Words {

  datatype Option<+T> = None | Some(value: T)

  datatype Result<+T, +E> = Ok(value: T) | Err(error: E)

  const U64_LIMIT: nat := 0x1_0000_0000_0000_0000
  const I64_LIMIT: nat := 0x8000_0000_0000_0000

  type byte = n: nat | n < 256
  type u16 = n: nat | n < 0x1_0000
  type u64 = n: nat | n < 0x1_0000_0000_0000_0000
  /** A 64-bit target: every `u64` also fits a `usize`. */
  type usize = n: nat | n < 0x1_0000_0000_0000_0000
  type i64 = v: int | -0x8000_0000_0000_0000 <= v < 0x8000_0000_0000_0000

  /** A nullable `Int64` cell. */
  type Row = Option<i64>

  /** No Rust slice holds more than `isize::MAX` bytes. */
  const ISIZE_MAX: nat := 0x7FFF_FFFF_FFFF_FFFF

  function CheckedAdd(a: nat, b: nat): (r: Option<usize>) {
    if a + b < U64_LIMIT then Some(a + b) else None
  }

  function CheckedMul(a: nat, b: nat): (r: Option<usize>) {
    if a * b < U64_LIMIT then Some(a * b) else None
  }

  function SaturatingAdd(a: nat, b: nat): (r: usize)
    ensures a + b < U64_LIMIT ==> r == a + b
  {
    if a + b < U64_LIMIT then a + b else U64_LIMIT - 1
  }

  function SaturatingSub(a: nat, b: nat): (r: nat) {
    if a < b then 0 else a - b
  }

  function Min(a: nat, b: nat): (r: nat) {
    if a <= b then a else b
  }

  /** The number of distinct values of `width` bytes. */
  function Pow256(width: nat): (r: nat) {
    if width == 0 then 1 else 256 * Pow256(width - 1)
  }

  /** `n` without its `k` low bytes. */
  function Shifted(n: nat, k: nat): (r: nat)
    decreases k, n
  {
    if k == 0 then n else Shifted(n / 256, k - 1)
  }

  /** The low `width` bytes of `n`, least significant first. */
  function LeBytes(n: nat, width: nat): (r: seq<byte>)
    ensures |r| == width
  {
    seq(width, i requires 0 <= i < width => Shifted(n, i) % 256)
  }

  /** The number that the bytes `b[i..end]` denote, least significant first. */
  function LeValue(b: seq<byte>, i: nat, end: nat): (r: nat)
    requires i <= end <= |b|
    decreases end - i, b
  {
    if i == end then 0 else b[i] + 256 * LeValue(b, i + 1, end)
  }

  lemma {:induction false} ShiftedNext(n: nat, k: nat)
    ensures Shifted(n, k + 1) == Shifted(n, k) / 256
    decreases k
  {
    if k > 0 {
      ShiftedNext(n / 256, k - 1);
    }
  }

  lemma {:induction false} ShiftedOut(n: nat, width: nat)
    requires n < Pow256(width)
    ensures Shifted(n, width) == 0
    decreases width
  {
    if width > 0 {
      ShiftedOut(n / 256, width - 1);
    }
  }

  lemma {:induction false} LeValueOfLeBytesFrom(n: nat, width: nat, i: nat)
    requires n < Pow256(width) && i <= width
    ensures LeValue(LeBytes(n, width), i, width) == Shifted(n, i)
    decreases width - i
  {
    if i == width {
      ShiftedOut(n, width);
    } else {
      LeValueOfLeBytesFrom(n, width, i + 1);
      ShiftedNext(n, i);
    }
  }

  lemma LeValueOfLeBytes(n: nat, width: nat)
    requires n < Pow256(width)
    ensures LeValue(LeBytes(n, width), 0, width) == n
  {
    LeValueOfLeBytesFrom(n, width, 0);
  }

  lemma {:induction false} ShiftedLeValue(b: seq<byte>, i: nat)
    requires i <= |b|
    ensures Shifted(LeValue(b, 0, |b|), i) == LeValue(b, i, |b|)
    decreases i
  {
    if i > 0 {
      ShiftedLeValue(b, i - 1);
      ShiftedNext(LeValue(b, 0, |b|), i - 1);
    }
  }

  lemma LeBytesOfLeValue(b: seq<byte>)
    ensures LeBytes(LeValue(b, 0, |b|), |b|) == b
  {
    forall i | 0 <= i < |b|
      ensures LeBytes(LeValue(b, 0, |b|), |b|)[i] == b[i]
    {
      ShiftedLeValue(b, i);
    }
  }

  lemma {:induction false} LeValueBound(b: seq<byte>, i: nat, end: nat)
    requires i <= end <= |b|
    ensures LeValue(b, i, end) < Pow256(end - i)
    decreases end - i
  {
    if i < end {
      LeValueBound(b, i + 1, end);
    }
  }

  lemma LeValueFits(b: seq<byte>, i: nat, end: nat)
    requires i <= end <= |b|
    ensures end - i == 2 ==> LeValue(b, i, end) < 0x1_0000
    ensures end - i == 8 ==> LeValue(b, i, end) < U64_LIMIT
  {
    LeValueBound(b, i, end);
  }

  lemma {:induction false} LeValueOfSlice(p: seq<byte>, offset: nat, b: seq<byte>, i: nat)
    requires offset + |b| <= |p| && p[offset..offset + |b|] == b && i <= |b|
    ensures LeValue(b, i, |b|) == LeValue(p, offset + i, offset + |b|)
    decreases |b| - i
  {
    if i < |b| {
      LeValueOfSlice(p, offset, b, i + 1);
    }
  }

  /** `to_le_bytes` for each width; signed words are laid out in two's complement. */
  function U16Bytes(n: u16): (r: seq<byte>)
    ensures |r| == 2
  {
    LeBytes(n, 2)
  }

  function U64Bytes(n: u64): (r: seq<byte>)
    ensures |r| == 8
  {
    LeBytes(n, 8)
  }

  function I64Bytes(v: i64): (r: seq<byte>)
    ensures |r| == 8
  {
    U64Bytes(if v < 0 then v + U64_LIMIT else v)
  }

  /** `from_le_bytes(read_array(p, offset))` for each width. */
  function U16At(p: seq<byte>, offset: nat): (r: u16)
    requires offset + 2 <= |p|
  {
    LeValueFits(p, offset, offset + 2);
    LeValue(p, offset, offset + 2)
  }

  function U64At(p: seq<byte>, offset: nat): (r: u64)
    requires offset + 8 <= |p|
  {
    LeValueFits(p, offset, offset + 8);
    LeValue(p, offset, offset + 8)
  }

  function I64At(p: seq<byte>, offset: nat): (r: i64)
    requires offset + 8 <= |p|
  {
    var word := U64At(p, offset);
    if word < I64_LIMIT then word else word - U64_LIMIT
  }

  // ---------- what the bytes are ----------

  lemma MultipleOutgrows(k: int, d: int)
    requires d > 0
    ensures (k >= 1 ==> k * d >= d) && (k <= -1 ==> k * d <= -d)
  {
  }

  lemma QuotientIs(n: nat, divisor: nat, quotient: nat, remainder: nat)
    requires divisor > 0 && n == divisor * quotient + remainder && remainder < divisor
    ensures n / divisor == quotient
  {
    var k := quotient - n / divisor;
    assert n == divisor * (n / divisor) + n % divisor;
    assert k * divisor == divisor * quotient - divisor * (n / divisor);
    MultipleOutgrows(k, divisor);
  }

  lemma {:induction false} PowersArePositive(k: nat)
    ensures Pow256(k) > 0
    decreases k
  {
    if k > 0 {
      PowersArePositive(k - 1);
    }
  }

  lemma DivideTwice(n: nat, m: nat)
    requires m > 0
    ensures n / (256 * m) == n / 256 / m
  {
    var q := n / 256;
    assert q == m * (q / m) + q % m;
    assert n == 256 * m * (q / m) + (256 * (q % m) + n % 256) by {
      assert 256 * (m * (q / m)) == 256 * m * (q / m);
    }
    QuotientIs(n, 256 * m, q / m, 256 * (q % m) + n % 256);
  }

  lemma {:induction false} ShiftedMeans(n: nat, k: nat)
    requires Pow256(k) > 0
    ensures Shifted(n, k) == n / Pow256(k)
    decreases k
  {
    if k > 0 {
      PowersArePositive(k - 1);
      ShiftedMeans(n / 256, k - 1);
      DivideTwice(n, Pow256(k - 1));
    }
  }

  /** The byte `i` of a number counts its 256^i. */
  lemma LeBytesMean(n: nat, width: nat, i: nat)
    requires i < width
    ensures Pow256(i) > 0 && LeBytes(n, width)[i] == n / Pow256(i) % 256
  {
    PowersArePositive(i);
    ShiftedMeans(n, i);
  }

  lemma {:induction false} ComplementedBytes(n: nat, m: nat, width: nat, i: nat)
    requires n + m + 1 == Pow256(width) && i < width
    ensures LeBytes(n, width)[i] == 255 - LeBytes(m, width)[i]
    decreases i
  {
    ComplementedShift(n, m, width, i);
  }

  lemma {:induction false} ComplementedShift(n: nat, m: nat, width: nat, i: nat)
    requires n + m + 1 == Pow256(width) && i < width
    ensures Shifted(n, i) % 256 == 255 - Shifted(m, i) % 256
    decreases i
  {
    if i == 0 {
      assert Pow256(width) == 256 * Pow256(width - 1);
    } else {
      assert n / 256 + m / 256 + 1 == Pow256(width - 1);
      ComplementedShift(n / 256, m / 256, width - 1, i - 1);
    }
  }

  /** A signed word is laid out in two's complement: the bytes of a number that is not negative,
      lowest first, and the complements of the bytes of `-1 - v` for a negative one. */
  lemma I64BytesMean(v: i64, i: nat)
    requires i < 8
    ensures Pow256(i) > 0
    ensures v >= 0 ==> I64Bytes(v)[i] == v / Pow256(i) % 256
    ensures v < 0 ==> I64Bytes(v)[i] == 255 - (-1 - v) / Pow256(i) % 256
  {
    assert Pow256(8) == U64_LIMIT;
    if v >= 0 {
      LeBytesMean(v, 8, i);
    } else {
      LeBytesMean(-1 - v, 8, i);
      ComplementedBytes(v + U64_LIMIT, -1 - v, 8, i);
    }
  }

  lemma PowersAre()
    ensures Pow256(0) == 1 && Pow256(1) == 0x100 && Pow256(2) == 0x1_0000 && Pow256(3) == 0x100_0000
    ensures Pow256(4) == 0x1_0000_0000 && Pow256(5) == 0x100_0000_0000 && Pow256(6) == 0x1_0000_0000_0000
    ensures Pow256(7) == 0x100_0000_0000_0000
  {
    assert Pow256(2) == 256 * Pow256(1);
    assert Pow256(4) == 256 * Pow256(3);
    assert Pow256(6) == 256 * Pow256(5);
  }

  function Above(low: nat, high: nat): (r: nat) {
    low + 256 * high
  }

  /** Four bytes written out, lowest first. */
  lemma FourBytes(n: nat, b: seq<byte>)
    requires |b| == 4 && n == Above(b[0], Above(b[1], Above(b[2], b[3])))
    ensures LeBytes(n, 4) == b
  {
    assert LeValue(b, 3, 4) == b[3] + 256 * LeValue(b, 4, 4);
    assert LeValue(b, 1, 4) == Above(b[1], Above(b[2], LeValue(b, 3, 4)));
    assert LeValue(b, 0, 4) == Above(b[0], LeValue(b, 1, 4));
    LeBytesOfLeValue(b);
  }

  /** Eight bytes written out, lowest first. */
  lemma EightBytes(n: nat, b: seq<byte>)
    requires |b| == 8
    requires n == Above(b[0], Above(b[1], Above(b[2], Above(b[3], Above(b[4], Above(b[5], Above(b[6], b[7])))))))
    ensures LeBytes(n, 8) == b
  {
    assert LeValue(b, 7, 8) == b[7] + 256 * LeValue(b, 8, 8);
    assert LeValue(b, 5, 8) == Above(b[5], Above(b[6], LeValue(b, 7, 8)));
    assert LeValue(b, 3, 8) == Above(b[3], Above(b[4], LeValue(b, 5, 8)));
    assert LeValue(b, 1, 8) == Above(b[1], Above(b[2], LeValue(b, 3, 8)));
    assert LeValue(b, 0, 8) == Above(b[0], LeValue(b, 1, 8));
    LeBytesOfLeValue(b);
  }

  /** Written out: small numbers, and one below zero. */
  lemma WordsWrittenOut()
    ensures U64Bytes(0x0102) == [2, 1, 0, 0, 0, 0, 0, 0]
    ensures I64Bytes(5) == [5, 0, 0, 0, 0, 0, 0, 0]
    ensures I64Bytes(-2) == [254, 255, 255, 255, 255, 255, 255, 255]
  {
    hide LeBytes;
    EightBytes(0x0102, [2, 1, 0, 0, 0, 0, 0, 0]);
    EightBytes(5, [5, 0, 0, 0, 0, 0, 0, 0]);
    EightBytes(U64_LIMIT - 2, [254, 255, 255, 255, 255, 255, 255, 255]);
  }

  /** The decimal text of a number. */
  function Decimal(n: nat): (r: string) {
    var digit := [(n % 10) as char + '0'];
    if n < 10 then digit else Decimal(n / 10) + digit
  }

  lemma DecimalNext(n: nat, front: string, last: char)
    requires n >= 10 && Decimal(n / 10) == front && last as int == '0' as int + n % 10
    ensures Decimal(n) == front + [last]
  {
  }

  /** `n` copies of a value. */
  function Repeat<T>(x: T, n: nat): (r: seq<T>)
    ensures |r| == n
  {
    seq(n, i => x)
  }

  lemma FirstAndRest<T>(s: seq<T>)
    requires s != []
    ensures [s[0]] + s[1..] == s
  {
  }

  lemma ConsParts<T>(x: T, rest: seq<T>)
    ensures ([x] + rest)[0] == x && ([x] + rest)[1..] == rest
  {
  }

  lemma Associates<T>(a: seq<T>, b: seq<T>, c: seq<T>)
    ensures (a + b) + c == a + (b + c)
  {
  }

  // ---------- fields at an offset ----------

  /** `p` holds exactly `b` from `offset` on. */
  predicate HoldsAt<T(==)>(p: seq<T>, offset: nat, b: seq<T>)
    decreases |b|, p
  {
    offset + |b| <= |p| && (b == [] || (p[offset] == b[0] && HoldsAt(p, offset + 1, b[1..])))
  }

  lemma {:induction false} HoldsAtSlice<T>(p: seq<T>, offset: nat, b: seq<T>)
    ensures HoldsAt(p, offset, b) <==> offset + |b| <= |p| && p[offset..offset + |b|] == b
    decreases |b|
  {
    if b != [] && offset + |b| <= |p| {
      HoldsAtSlice(p, offset + 1, b[1..]);
      assert p[offset..offset + |b|] == [p[offset]] + p[offset + 1..offset + |b|];
      assert b == [b[0]] + b[1..];
    }
  }

  lemma {:induction false} HoldsAtConcat<T>(p: seq<T>, offset: nat, a: seq<T>, b: seq<T>)
    ensures HoldsAt(p, offset, a + b) <==> HoldsAt(p, offset, a) && HoldsAt(p, offset + |a|, b)
    decreases |a|
  {
    if a == [] {
      assert a + b == b;
    } else {
      assert (a + b)[1..] == a[1..] + b;
      HoldsAtConcat(p, offset + 1, a[1..], b);
    }
  }

  lemma HoldsAtFour<T>(p: seq<T>, a: seq<T>, b: seq<T>, c: seq<T>, d: seq<T>)
    ensures HoldsAt(p, 0, a + b + c + d)
       <==> (HoldsAt(p, 0, a) && HoldsAt(p, |a|, b) && HoldsAt(p, |a| + |b|, c) && HoldsAt(p, |a| + |b| + |c|, d))
  {
    HoldsAtConcat(p, 0, a, b);
    HoldsAtConcat(p, 0, a + b, c);
    HoldsAtConcat(p, 0, a + b + c, d);
  }

  lemma HoldsAtWhole<T>(p: seq<T>, b: seq<T>)
    ensures p == b <==> HoldsAt(p, 0, b) && |p| == |b|
  {
    HoldsAtSlice(p, 0, b);
    assert p[0..|p|] == p;
  }

  /** The word codecs are mutually inverse: reading yields `n` exactly where the bytes of `n` lie. */
  lemma LeValueHolds(p: seq<byte>, offset: nat, n: nat, width: nat)
    requires n < Pow256(width)
    ensures HoldsAt(p, offset, LeBytes(n, width))
       <==> offset + width <= |p| && LeValue(p, offset, offset + width) == n
  {
    if offset + width <= |p| {
      var b := p[offset..offset + width];
      LeValueOfSlice(p, offset, b, 0);
      LeBytesOfLeValue(b);
      LeValueOfLeBytes(n, width);
    }
    HoldsAtSlice(p, offset, LeBytes(n, width));
  }

  lemma U16AtHolds(p: seq<byte>, offset: nat, n: u16)
    ensures HoldsAt(p, offset, U16Bytes(n)) <==> offset + 2 <= |p| && U16At(p, offset) == n
  {
    LeValueHolds(p, offset, n, 2);
  }

  lemma U64AtHolds(p: seq<byte>, offset: nat, n: u64)
    ensures HoldsAt(p, offset, U64Bytes(n)) <==> offset + 8 <= |p| && U64At(p, offset) == n
  {
    LeValueHolds(p, offset, n, 8);
  }

  lemma I64AtHolds(p: seq<byte>, offset: nat, v: i64)
    ensures HoldsAt(p, offset, I64Bytes(v)) <==> offset + 8 <= |p| && I64At(p, offset) == v
  {
    U64AtHolds(p, offset, if v < 0 then v + U64_LIMIT else v);
  }
}
