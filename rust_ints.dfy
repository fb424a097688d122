/**
 * The 64-bit unsigned arithmetic that segment construction and routing rely
 * on: `usize::next_power_of_two`, `usize::trailing_zeros`, `>>` and `&`.
 * The target is 64-bit, so `usize` and `u64` have the same range.
 * Values are unbounded naturals restricted to that range; the bit operations
 * are defined on their binary expansion.
 */
module RustInts {
  import opened Options

  /** Width of `usize` (and `u64`) in bits. */
  const USIZE_BITS: nat := 64
  /** 2^64, one more than the largest `u64`. */
  const U64_LIMIT: nat := 0x1_0000_0000_0000_0000
  /** 2^63, the largest power of two a `usize` can hold. */
  const MAX_POWER_OF_TWO: nat := 0x8000_0000_0000_0000

  type u64 = x: nat | x < 0x1_0000_0000_0000_0000
  type usize = u64

  function Pow2(b: nat): (p: nat)
    ensures p >= 1
  {
    if b == 0 then 1 else 2 * Pow2(b - 1)
  }

  /** n is 1, 2, 4, 8, ... */
  predicate IsPowerOfTwo(n: nat)
  {
    n == 1 || (n >= 2 && n % 2 == 0 && IsPowerOfTwo(n / 2))
  }

  /** `usize::next_power_of_two` as a debug build computes it: the result
      would not fit above 2^63, and there the call panics. */
  function NextPowerOfTwo(n: nat): (p: nat)
    requires n <= MAX_POWER_OF_TWO
    ensures IsPowerOfTwo(p) && n <= p && p >= 1
    ensures n <= 1 ==> p == 1
  {
    if n <= 1 then 1
    else
      var half := (n + 1) / 2;
      var p := NextPowerOfTwo(half);
      assert IsPowerOfTwo(2 * p) by {
        assert (2 * p) / 2 == p;
      }
      2 * p
  }

  /** `usize::trailing_zeros`: the number of low zero bits (64 for zero). */
  function TrailingZeros(n: usize): (z: nat)
    ensures z <= USIZE_BITS
  {
    if n == 0 then USIZE_BITS
    else if n % 2 == 1 then 0
    else
      var z' := TrailingZeros(n / 2);
      if z' == USIZE_BITS then USIZE_BITS else 1 + z'
  }

  /** Unsigned division `x / d`, which truncates: the largest q with
      q * d <= x. (A zero divisor panics in Rust; no caller divides by 0.) */
  function Div(x: nat, d: nat): (q: nat)
    requires d > 0
    ensures q * d <= x < q * d + d
  {
    x / d
  }

  /** The logical right shift `x >> s` for any shift amount: 0 once every
      bit has been shifted out. */
  function ShiftRight(x: nat, s: nat): nat
  {
    Div(x, Pow2(s))
  }

  /** `x >> s` on a `u64` as a debug build evaluates it: a shift amount of
      64 or more is an arithmetic overflow and panics (None); a smaller one
      divides by 2^s, rounding down. */
  function CheckedShiftRight(x: u64, s: nat): (r: Option<nat>)
    ensures r.Some? ==> r.value * Pow2(s) <= x < r.value * Pow2(s) + Pow2(s)
  {
    if s < USIZE_BITS then Some(ShiftRight(x, s)) else None
  }

  /** Bitwise `x & y`, bit by bit from the least significant end. */
  function BitAnd(x: nat, y: nat): nat
    decreases x
  {
    if x == 0 || y == 0 then 0
    else 2 * BitAnd(x / 2, y / 2) + (if x % 2 == 1 && y % 2 == 1 then 1 else 0)
  }

  // ---------------------------------------------------------------------
  // Facts about powers of two

  lemma {:induction false} Pow2Add(a: nat, b: nat)
    ensures Pow2(a + b) == Pow2(a) * Pow2(b)
  {
    if a > 0 {
      Pow2Add(a - 1, b);
      assert Pow2(a + b) == 2 * Pow2(a - 1 + b);
      assert 2 * (Pow2(a - 1) * Pow2(b)) == (2 * Pow2(a - 1)) * Pow2(b);
    }
  }

  lemma {:induction false} Pow2Monotone(a: nat, b: nat)
    requires a <= b
    ensures Pow2(a) <= Pow2(b)
  {
    if a < b {
      Pow2Monotone(a, b - 1);
    }
  }

  lemma Pow2Limits()
    ensures Pow2(USIZE_BITS) == U64_LIMIT
    ensures Pow2(USIZE_BITS - 1) == MAX_POWER_OF_TWO
  {
    assert Pow2(2) == 4;
    Pow2Add(2, 2);
    assert Pow2(4) == 16;
    Pow2Add(4, 4);
    assert Pow2(8) == 0x100;
    Pow2Add(8, 8);
    assert Pow2(16) == 0x1_0000;
    Pow2Add(16, 16);
    assert Pow2(32) == 0x1_0000_0000;
    Pow2Add(32, 32);
    assert Pow2(64) == 2 * Pow2(63);
  }

  /** Every power of two is 2^b for b its number of trailing zeros. */
  lemma {:induction false} PowerOfTwoExponent(n: usize)
    requires IsPowerOfTwo(n)
    ensures TrailingZeros(n) < USIZE_BITS
    ensures Pow2(TrailingZeros(n)) == n
  {
    if n != 1 {
      PowerOfTwoExponent(n / 2);
      var b := TrailingZeros(n / 2);
      if b + 1 >= USIZE_BITS {
        Pow2Monotone(USIZE_BITS, b + 1);
        Pow2Limits();
        assert false;
      }
    }
  }

  /** 2^b is a power of two with exactly b trailing zeros. */
  lemma {:induction false} Pow2Exponent(b: nat)
    requires b < USIZE_BITS
    ensures Pow2(b) < U64_LIMIT
    ensures IsPowerOfTwo(Pow2(b)) && TrailingZeros(Pow2(b)) == b
  {
    Pow2Monotone(b, USIZE_BITS - 1);
    Pow2Limits();
    if b > 0 {
      Pow2Exponent(b - 1);
      assert Pow2(b) / 2 == Pow2(b - 1);
    }
  }

  /** `next_power_of_two` returns the least power of two that is at least n. */
  lemma {:induction false} NextPowerOfTwoIsLeast(n: nat, b: nat)
    requires n <= MAX_POWER_OF_TWO && n <= Pow2(b)
    ensures NextPowerOfTwo(n) <= Pow2(b)
  {
    if n > 1 {
      assert b > 0;
      NextPowerOfTwoIsLeast((n + 1) / 2, b - 1);
    }
  }

  /** `next_power_of_two` never exceeds 2^63 on the inputs where it does
      not panic, so its result is a valid `usize`. */
  lemma NextPowerOfTwoFits(n: nat)
    requires n <= MAX_POWER_OF_TWO
    ensures NextPowerOfTwo(n) <= MAX_POWER_OF_TWO
  {
    Pow2Limits();
    NextPowerOfTwoIsLeast(n, USIZE_BITS - 1);
  }

  // ---------------------------------------------------------------------
  // Facts about division and masking

  lemma MulMonotone(d: nat, a: nat, b: nat)
    requires a <= b
    ensures d * a <= d * b
  {
    assert d * b == d * a + d * (b - a);
  }

  /** One step of `&` against an odd mask: the low bit of x survives. */
  lemma BitAndOddStep(x: nat, y: nat)
    requires x > 0 && y % 2 == 1
    ensures BitAnd(x, y) == 2 * BitAnd(x / 2, y / 2) + x % 2
  {
  }

  /** Masking a value below 2^b with 2^b - 1 leaves it unchanged. */
  lemma {:induction false} BitAndLowMask(x: nat, b: nat)
    requires x < Pow2(b)
    ensures BitAnd(x, Pow2(b) - 1) == x
  {
    if b > 0 && x > 0 {
      var p := Pow2(b - 1);
      assert Pow2(b) == 2 * p;
      var y := 2 * p - 1;
      assert y % 2 == 1 && y / 2 == p - 1;
      BitAndOddStep(x, y);
      BitAndLowMask(x / 2, b - 1);
    }
  }

  /** Shifting a `u64` right by 64 - b leaves at most its top b bits. */
  lemma TopBitsBound(x: u64, b: nat)
    requires b <= USIZE_BITS
    ensures ShiftRight(x, USIZE_BITS - b) < Pow2(b)
  {
    var d, e := Pow2(USIZE_BITS - b), Pow2(b);
    assert d * e == U64_LIMIT by {
      Pow2Add(USIZE_BITS - b, b);
      Pow2Limits();
    }
    var q := x / d;
    assert d * q <= x;
    if q >= e {
      MulMonotone(d, e, q);
      assert false;
    }
  }
}
