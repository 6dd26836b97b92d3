/** Fixed-width unsigned integers of C, and powers of two. */
module Ints {

  const TWO_16: int := 0x1_0000
  const TWO_32: int := 0x1_0000_0000

  /** A `uint32_t`. */
  type u32 = x: int | 0 <= x < 0x1_0000_0000

  /** A `uint16_t`. */
  type u16 = x: int | 0 <= x < 0x1_0000

  /** 2^k, as `1U << k` computes it for k < 32. */
  function Pow2(k: nat): (p: nat)
    ensures p >= 1
  {
    if k == 0 then 1 else 2 * Pow2(k - 1)
  }

  /** Powers of two grow strictly with their exponent. */
  lemma {:induction false} Pow2Monotone(j: nat, k: nat)
    requires j < k
    ensures Pow2(j) < Pow2(k)
  {
    if j < k - 1 {
      Pow2Monotone(j, k - 1);
    }
  }

  /** Exponents add when powers of two multiply. */
  lemma {:induction false} Pow2Add(a: nat, b: nat)
    ensures Pow2(a + b) == Pow2(a) * Pow2(b)
  {
    if a > 0 {
      Pow2Add(a - 1, b);
    }
  }

  /** 2^32 is the modulus of `uint32_t` arithmetic. */
  lemma Pow2Of32()
    ensures Pow2(32) == TWO_32
  {
    assert Pow2(4) == 16;
    Pow2Add(4, 4);
    Pow2Add(8, 8);
    Pow2Add(16, 16);
  }

  /**
   * a*b as repeated addition. Cell offsets of a board are stated with it, so
   * that reasoning about them stays linear; MulIsProduct ties it to `*`.
   */
  function Mul(a: nat, b: nat): nat
  {
    if a == 0 then 0 else Mul(a - 1, b) + b
  }

  /** Mul is multiplication. */
  lemma {:induction false} MulIsProduct(a: nat, b: nat)
    ensures Mul(a, b) == a * b
  {
    if a > 0 {
      MulIsProduct(a - 1, b);
      assert a * b == (a - 1) * b + b;
    }
  }

  /** Row a of a b-wide board starts no later than row c when a <= c. */
  lemma {:induction false} MulMonotone(a: nat, c: nat, b: nat)
    requires a <= c
    ensures Mul(a, b) <= Mul(c, b)
    decreases c - a
  {
    if a < c {
      MulMonotone(a, c - 1, b);
    }
  }

  /** n zero values, as `calloc` leaves them. */
  function Zeros(n: nat): (z: seq<u32>)
    ensures |z| == n
  {
    if n == 0 then [] else [0] + Zeros(n - 1)
  }

  /** Every item of Zeros(n) is 0. */
  lemma {:induction false} ZerosAreZero(n: nat)
    ensures forall k :: 0 <= k < n ==> Zeros(n)[k] == 0
  {
    if n > 0 {
      ZerosAreZero(n - 1);
    }
  }

  /** `a + b` in `uint32_t` arithmetic: the sum wraps around at 2^32. */
  function AddWrapped(a: nat, b: nat): (r: u32)
    ensures a + b < TWO_32 ==> r == a + b
    ensures a + b >= TWO_32 ==> r < a + b
  {
    (a + b) % TWO_32
  }

  /**
   * Adding a partial sum that was already wrapped gives the same result as
   * adding the unwrapped sum.
   */
  lemma AddWrappedAbsorbs(a: nat, x: nat, d: nat)
    requires d == x % TWO_32
    ensures AddWrapped(a, d) == AddWrapped(a, x)
  {
    ModAddBack(x, d, a, a + x);
  }

  /** Reducing one summand modulo 2^32 first does not change the sum modulo 2^32. */
  lemma ModAddBack(x: int, xm: int, y: int, z: int)
    requires xm == x % TWO_32 && z == x + y
    ensures (xm + y) % TWO_32 == z % TWO_32
    ensures (y + xm) % TWO_32 == z % TWO_32
  {
    var q := x / TWO_32;
    assert x == q * TWO_32 + x % TWO_32;
    assert x + y == (x % TWO_32 + y) + q * TWO_32;
  }

  /** A tile value of the board: empty (0) or 2^k with 1 <= k < 32. */
  ghost predicate IsTile(v: int)
  {
    v == 0 || exists k :: 1 <= k < 32 && v == Pow2(k)
  }
}
