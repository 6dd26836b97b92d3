/**
 * The colour-pair index under which the terminal front end draws a tile:
 * 0 for an empty cell, k + 1 for the tile 2^k with k below the number of
 * colours, and one shared pair for every other value.
 */
module Render {
  import opened Ints

  /** `NR_OF_COLORS`: how many tile values get a colour pair of their own. */
  const NR_OF_COLORS: nat := 14

  /**
   * The search of `pair_for_value` from exponent `k` on: the index k' + 1 of
   * the first k' >= k below NR_OF_COLORS with `value == 1U << k'`, or the
   * shared pair NR_OF_COLORS + 1 when there is none.
   */
  function PairFrom(value: u32, k: nat): nat
    requires k <= NR_OF_COLORS
    decreases NR_OF_COLORS - k
  {
    if k == NR_OF_COLORS then NR_OF_COLORS + 1
    else if value == Pow2(k) then k + 1
    else PairFrom(value, k + 1)
  }

  /**
   * What the search finds: an index above k that names a power of two equal
   * to `value`, or the shared pair exactly when no exponent from k on fits.
   */
  lemma {:induction false} PairFromMeaning(value: u32, k: nat)
    requires k <= NR_OF_COLORS
    ensures k + 1 <= PairFrom(value, k) <= NR_OF_COLORS + 1
    ensures PairFrom(value, k) <= NR_OF_COLORS ==> value == Pow2(PairFrom(value, k) - 1)
    ensures PairFrom(value, k) == NR_OF_COLORS + 1 <==> forall j :: k <= j < NR_OF_COLORS ==> value != Pow2(j)
    decreases NR_OF_COLORS - k
  {
    if k < NR_OF_COLORS && value != Pow2(k) {
      PairFromMeaning(value, k + 1);
    }
  }

  /** `pair_for_value`: 0 for an empty cell, else the search from exponent 0. */
  function PairForValue(value: u32): (p: nat)
    ensures p <= NR_OF_COLORS + 1
    ensures p == 0 <==> value == 0
  {
    if value == 0 then 0
    else
      PairFromMeaning(value, 0);
      PairFrom(value, 0)
  }

  /** The tile 2^k, for k below NR_OF_COLORS, gets the pair k + 1. */
  lemma PairOfPower(value: u32, k: nat)
    requires k < NR_OF_COLORS && value == Pow2(k)
    ensures PairForValue(value) == k + 1
  {
    PairFromMeaning(value, 0);
    var p := PairFrom(value, 0);
    if p != k + 1 {
      if p - 1 < k {
        Pow2Monotone(p - 1, k);
      } else if p <= NR_OF_COLORS {
        Pow2Monotone(k, p - 1);
      }
    }
  }

  /**
   * The shared pair NR_OF_COLORS + 1 goes to exactly the nonzero values that
   * are not 2^k for any k below NR_OF_COLORS.
   */
  lemma PairOfOther(value: u32)
    ensures PairForValue(value) == NR_OF_COLORS + 1 <==>
      value != 0 && forall k :: 0 <= k < NR_OF_COLORS ==> value != Pow2(k)
  {
    if value != 0 {
      PairFromMeaning(value, 0);
    }
  }

  /** A pair between 1 and NR_OF_COLORS names the power of two it was given. */
  lemma PairNamesPower(value: u32)
    ensures 1 <= PairForValue(value) <= NR_OF_COLORS ==> value == Pow2(PairForValue(value) - 1)
  {
    if value != 0 {
      PairFromMeaning(value, 0);
    }
  }

  /** Distinct tiles with colours of their own get distinct pairs. */
  lemma PairInjective(a: u32, b: u32)
    requires a != b && PairForValue(a) <= NR_OF_COLORS
    ensures PairForValue(a) != PairForValue(b)
  {
    PairNamesPower(a);
    PairNamesPower(b);
  }

  /** The tile 2048 = 2^11 is drawn with pair 12. */
  lemma PairOf2048()
    ensures PairForValue(2048) == 12
  {
    assert Pow2(11) == 2048;
    PairOfPower(2048, 11);
  }
}
