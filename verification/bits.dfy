/** Bit-level facts about 32-bit storage words (the `u32` items of the bit
    set).  Bit positions are `bv5` values, so that every shift is a pure
    bit-vector operation and every position is below 32 by its type. */
module Bits {

  /** Bit `i` of `w` is set: `w & (1 << i) != 0`. */
  predicate Bit(w: bv32, i: bv5)
  {
    w & (1 << i) != 0
  }

  /** Every bit of `w` below position `k` is clear. */
  predicate ClearBelow(w: bv32, k: bv5)
  {
    w & ((1 << k) - 1) == 0
  }

  /** `w | (1 << k)` sets bit `k` and no other. */
  lemma SetBit(w: bv32, k: bv5, i: bv5)
    ensures Bit(w | (1 << k), i) <==> Bit(w, i) || i == k
  {
  }

  /** `w & !(1 << k)` clears bit `k` and no other. */
  lemma ClearBit(w: bv32, k: bv5, i: bv5)
    ensures Bit(w & !(1 << k), i) <==> Bit(w, i) && i != k
  {
  }

  /** The zero word has no bit set. */
  lemma NoBitOfZero(i: bv5)
    ensures !Bit(0, i)
  {
  }

  lemma ScanStep(w: bv32, k: bv5)
    requires w != 0 && ClearBelow(w, k) && !Bit(w, k)
    ensures k < 31 && ClearBelow(w, k + 1)
  {
  }

  /** The position of the lowest set bit of `w` at or above `k`, scanning
      upwards; there is one because `w` is non-zero and clear below `k`. */
  function TrailingZerosFrom(w: bv32, k: bv5): (t: bv5)
    requires w != 0 && ClearBelow(w, k)
    ensures k <= t && Bit(w, t)
    decreases 31 - k
  {
    if Bit(w, k) then k
    else
      ScanStep(w, k);
      TrailingZerosFrom(w, k + 1)
  }

  /** `u32::trailing_zeros` of a non-zero word. */
  function TrailingZeros(w: bv32): (t: bv5)
    requires w != 0
    ensures Bit(w, t)
  {
    TrailingZerosFrom(w, 0)
  }

  lemma {:induction false} TrailingZerosFromIsLowest(w: bv32, k: bv5)
    requires w != 0 && ClearBelow(w, k)
    ensures ClearBelow(w, TrailingZerosFrom(w, k))
    decreases 31 - k
  {
    if !Bit(w, k) {
      ScanStep(w, k);
      TrailingZerosFromIsLowest(w, k + 1);
    }
  }

  /** `trailing_zeros` finds the LOWEST set bit: nothing below it is set. */
  lemma TrailingZerosIsLowest(w: bv32, i: bv5)
    requires w != 0 && i < TrailingZeros(w)
    ensures !Bit(w, i)
  {
    TrailingZerosFromIsLowest(w, 0);
    BelowClear(w, TrailingZeros(w), i);
  }

  lemma BelowClear(w: bv32, t: bv5, i: bv5)
    requires i < t && ClearBelow(w, t)
    ensures !Bit(w, i)
  {
  }

  lemma ClearLowestBit(w: bv32, t: bv5, i: bv5)
    requires Bit(w, t) && ClearBelow(w, t)
    ensures Bit(w & (w - 1), i) <==> Bit(w, i) && i != t
  {
  }

  /** `w &= w - 1` clears exactly the bit `trailing_zeros` reported. */
  lemma ClearTrailingBit(w: bv32, i: bv5)
    requires w != 0
    ensures Bit(w & (w - 1), i) <==> Bit(w, i) && i != TrailingZeros(w)
  {
    TrailingZerosFromIsLowest(w, 0);
    ClearLowestBit(w, TrailingZeros(w), i);
  }
}
