/** Words as their bits, least significant first, and the bitwise operators on them. */
module Bits {
  import opened Words

  /** The low `k` bits of `n`, least significant first, and the number they denote. */
  function BitsOf(n: nat, k: nat): (r: seq<bool>)
    ensures |r| == k
    decreases k, n
  {
    if k == 0 then [] else [n % 2 == 1] + BitsOf(n / 2, k - 1)
  }

  function Number(bits: seq<bool>): (r: nat) {
    if bits == [] then 0 else (if bits[0] then 1 else 0) + 2 * Number(bits[1..])
  }

  function Pow2(k: nat): (r: nat) {
    if k == 0 then 1 else 2 * Pow2(k - 1)
  }

  lemma Pow2PlusEight(k: nat)
    ensures Pow2(k + 8) == 256 * Pow2(k)
  {
    assert Pow2(k + 8) == 4 * Pow2(k + 6) && Pow2(k + 6) == 4 * Pow2(k + 4);
    assert Pow2(k + 4) == 4 * Pow2(k + 2) && Pow2(k + 2) == 4 * Pow2(k);
  }

  lemma {:induction false} NumberOfBitsOf(n: nat, k: nat, limit: nat)
    requires n < limit && limit == Pow2(k)
    ensures Number(BitsOf(n, k)) == n
    decreases k
  {
    if k > 0 {
      NumberOfBitsOf(n / 2, k - 1, Pow2(k - 1));
      assert BitsOf(n, k)[1..] == BitsOf(n / 2, k - 1);
    }
  }

  lemma {:induction false} BitsOfNumber(bits: seq<bool>)
    ensures BitsOf(Number(bits), |bits|) == bits
    ensures Number(bits) < Pow2(|bits|)
    decreases |bits|
  {
    if bits != [] {
      BitsOfNumber(bits[1..]);
      var rest := Number(bits[1..]);
      var low := if bits[0] then 1 else 0;
      assert (low + 2 * rest) / 2 == rest && (low + 2 * rest) % 2 == low;
    }
  }

  // ---------- bitwise operators as arithmetic ----------

  /** Bitwise exclusive or of two words of one width. */
  function Xored(a: seq<bool>, b: seq<bool>): (r: seq<bool>)
    requires |a| == |b|
    ensures |r| == |a|
  {
    seq(|a|, i requires 0 <= i < |a| => a[i] != b[i])
  }

  /** Bitwise complement. */
  function Negated(a: seq<bool>): (r: seq<bool>)
    ensures |r| == |a|
  {
    seq(|a|, i requires 0 <= i < |a| => !a[i])
  }

  /** A word of `width` bits of which only the top one is set. */
  function TopBit(width: nat): (r: seq<bool>)
    requires width > 0
    ensures |r| == width
  {
    Repeat(false, width - 1) + [true]
  }

  /** Toggling the top bit adds its weight, or takes it away where it was set. */
  lemma {:induction false} ToggledTopBit(bits: seq<bool>)
    requires bits != []
    ensures Number(Xored(bits, TopBit(|bits|)))
         == if Number(bits) < Pow2(|bits| - 1) then Number(bits) + Pow2(|bits| - 1) else Number(bits) - Pow2(|bits| - 1)
    decreases |bits|
  {
    BitsOfNumber(bits);
    if |bits| > 1 {
      var rest := bits[1..];
      assert Xored(bits, TopBit(|bits|))[1..] == Xored(rest, TopBit(|rest|));
      ToggledTopBit(rest);
    } else {
      assert Number(bits[1..]) == 0;
    }
  }

  /** The complement counts down from the greatest number of the width. */
  lemma {:induction false} NegatedCountsDown(bits: seq<bool>)
    ensures Number(Negated(bits)) == Pow2(|bits|) - 1 - Number(bits)
    decreases |bits|
  {
    if bits != [] {
      assert Negated(bits)[1..] == Negated(bits[1..]);
      NegatedCountsDown(bits[1..]);
    }
  }
}
