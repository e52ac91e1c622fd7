/** Constants of the allocator and the integer arithmetic its size classes
    and address computations are built from (`usize` operations modelled
    on unbounded naturals). */
module Arith {

  /** `MULTIPLE`: spacing of the small size classes. */
  const MULTIPLE: nat := 16
  /** `mem::size_of::<usize>()` on a 64-bit target. */
  const WORD_SIZE: nat := 8
  /** `ELFMALLOC_PAGE_SIZE` (2 MiB): every pointer rounded down to it finds a type tag. */
  const PAGE_SIZE: nat := 0x20_0000
  /** `ELFMALLOC_SMALL_PAGE_SIZE` (256 KiB). */
  const SMALL_PAGE_SIZE: nat := 0x4_0000
  /** `ELFMALLOC_SMALL_CUTOFF` (64 KiB), a quarter of the small page. */
  const SMALL_CUTOFF: nat := 0x1_0000
  /** `mmap::page_size()`, the operating system's page size, which the source
      asks for at run time; fixed here at 4 KiB. */
  const SYSTEM_PAGE_SIZE: nat := 0x1000

  /* Quotient and remainder by the constants the allocator aligns to, for a
     value already written as `q * d + r`. */

  lemma Split16(q: int, r: int)
    requires 0 <= r < 16
    ensures (q * 16 + r) / 16 == q && (q * 16 + r) % 16 == r
  {
  }

  lemma Split4K(q: int, r: int)
    requires 0 <= r < 0x1000
    ensures (q * 0x1000 + r) / 0x1000 == q && (q * 0x1000 + r) % 0x1000 == r
  {
  }

  lemma Split64K(q: int, r: int)
    requires 0 <= r < 0x1_0000
    ensures (q * 0x1_0000 + r) / 0x1_0000 == q && (q * 0x1_0000 + r) % 0x1_0000 == r
  {
  }

  lemma Split2M(q: int, r: int)
    requires 0 <= r < 0x20_0000
    ensures (q * 0x20_0000 + r) / 0x20_0000 == q && (q * 0x20_0000 + r) % 0x20_0000 == r
  {
  }

  function Min(a: nat, b: nat): nat {
    if a <= b then a else b
  }

  /** 2 to the power `e`. */
  function Pow2(e: nat): (r: nat)
    ensures r >= 1
  {
    if e == 0 then 1 else 2 * Pow2(e - 1)
  }

  /** `usize::is_power_of_two`: false for 0. */
  predicate IsPowerOfTwo(x: nat)
    decreases x
  {
    x == 1 || (x >= 2 && x % 2 == 0 && IsPowerOfTwo(x / 2))
  }

  /** `2^16` is the 64 KiB cutoff; the powers of two reaching it are those
      from `2^16` on, and each is a multiple of it. */
  lemma Pow2Cutoff(e: nat)
    ensures Pow2(16) == SMALL_CUTOFF
    ensures SMALL_CUTOFF <= Pow2(e) <==> 16 <= e
    ensures 16 <= e ==> Pow2(e) % SMALL_CUTOFF == 0
  {
    assert Pow2(4) == 16;
    Pow2Add(4, 4);
    Pow2Add(8, 8);
    Pow2Monotone(16, e);
    if 16 <= e {
      Pow2Add(16, e - 16);
      Split64K(Pow2(e - 16), 0);
    }
  }

  /** An address aligned to a multiple of the 64 KiB cutoff is aligned to
      the cutoff. */
  lemma AlignedToMultipleOfCutoff(x: nat, size: nat)
    requires size > 0 && size % SMALL_CUTOFF == 0 && x % size == 0
    ensures x % SMALL_CUTOFF == 0
  {
    var k, m := x / size, size / SMALL_CUTOFF;
    assert x == k * size;
    assert size == m * SMALL_CUTOFF;
    assert x == (k * m) * SMALL_CUTOFF;
    Split64K(k * m, 0);
  }

  /** The word size and the operating system's page are powers of two. */
  lemma WordAndPageArePowersOfTwo()
    ensures IsPowerOfTwo(WORD_SIZE) && IsPowerOfTwo(SYSTEM_PAGE_SIZE)
  {
  }

  lemma {:induction false} Pow2IsPowerOfTwo(e: nat)
    ensures IsPowerOfTwo(Pow2(e))
  {
    if e > 0 {
      Pow2IsPowerOfTwo(e - 1);
      assert Pow2(e) / 2 == Pow2(e - 1);
    }
  }

  /** Every power of two is `Pow2` of its exponent. */
  lemma {:induction false} PowerOfTwoIsPow2(x: nat) returns (e: nat)
    requires IsPowerOfTwo(x)
    ensures Pow2(e) == x
    decreases x
  {
    if x == 1 {
      e := 0;
    } else {
      var e' := PowerOfTwoIsPow2(x / 2);
      e := e' + 1;
    }
  }

  lemma DoubleLeft(x: nat, y: nat)
    ensures (2 * x) * y == 2 * (x * y)
  {
  }

  lemma {:induction false} Pow2Add(a: nat, b: nat)
    ensures Pow2(a) * Pow2(b) == Pow2(a + b)
    decreases a
  {
    if a > 0 {
      Pow2Add(a - 1, b);
      DoubleLeft(Pow2(a - 1), Pow2(b));
      assert Pow2(a + b) == 2 * Pow2(a - 1 + b);
    }
  }

  /** `Pow2` is strictly increasing, so it determines its exponent. */
  lemma {:induction false} Pow2Monotone(a: nat, b: nat)
    ensures a < b <==> Pow2(a) < Pow2(b)
    ensures a <= b <==> Pow2(a) <= Pow2(b)
    decreases a + b
  {
    if a > 0 && b > 0 {
      Pow2Monotone(a - 1, b - 1);
    } else if a == 0 && b > 0 {
      Pow2Monotone(0, b - 1);
    } else if a > 0 && b == 0 {
      Pow2Monotone(a - 1, 0);
    }
  }

  /** A power of two of at least 16 is a multiple of 16. */
  lemma PowerOfTwoMultiple(p: nat)
    requires IsPowerOfTwo(p) && MULTIPLE <= p
    ensures p % MULTIPLE == 0
  {
    var e := PowerOfTwoIsPow2(p);
    assert Pow2(4) == 16;
    Pow2Monotone(4, e);
    Pow2Add(4, e - 4);
  }

  /** The exponent of the smallest power of two that is at least `n`. */
  function CeilLog2(n: nat): (e: nat)
    ensures n <= Pow2(e)
    ensures e == 0 || Pow2(e - 1) < n
  {
    if n <= 1 then 0 else 1 + CeilLog2((n + 1) / 2)
  }

  /** `usize::next_power_of_two`: the smallest power of two that is at least `n`
      (1 for 0). */
  function NextPowerOfTwo(n: nat): (r: nat)
    ensures IsPowerOfTwo(r) && n <= r
    ensures r == 1 || r / 2 < n
  {
    Pow2IsPowerOfTwo(CeilLog2(n));
    Pow2(CeilLog2(n))
  }

  /** `NextPowerOfTwo(n)` is below every power of two that holds `n`. */
  lemma NextPowerOfTwoLeast(n: nat, p: nat)
    requires IsPowerOfTwo(p) && n <= p
    ensures NextPowerOfTwo(n) <= p
  {
    var e := PowerOfTwoIsPow2(p);
    var c := CeilLog2(n);
    if c > e {
      Pow2Monotone(e, c - 1);
    }
    Pow2Monotone(c, e);
  }

  lemma NextPowerOfTwoMonotone(m: nat, n: nat)
    requires m <= n
    ensures NextPowerOfTwo(m) <= NextPowerOfTwo(n)
  {
    NextPowerOfTwoLeast(m, NextPowerOfTwo(n));
  }

  /** A power of two is its own next power of two. */
  lemma NextPowerOfTwoIdempotent(p: nat)
    requires IsPowerOfTwo(p)
    ensures NextPowerOfTwo(p) == p
  {
    NextPowerOfTwoLeast(p, p);
  }

  /** `usize::trailing_zeros` of a non-zero value. */
  function TrailingZeros(x: nat): nat
    requires x > 0
  {
    if x % 2 == 1 then 0 else 1 + TrailingZeros(x / 2)
  }

  /** The trailing zeros of a power of two are its exponent, which is what
      turns `next_power_of_two().trailing_zeros()` into a base-2 logarithm. */
  lemma {:induction false} TrailingZerosPow2(e: nat)
    ensures TrailingZeros(Pow2(e)) == e
  {
    if e > 0 {
      TrailingZerosPow2(e - 1);
      assert Pow2(e) / 2 == Pow2(e - 1);
    }
  }

  /** Dividing by 16 keeps the order. */
  lemma Div16Monotone(x: nat, y: nat)
    requires x <= y
    ensures x / 16 <= y / 16
  {
  }

  /** `round_up`: adds 15 and clears the low four bits, giving the smallest
      multiple of 16 at or above `n`. */
  function RoundUp(n: nat): (r: nat)
    ensures r % MULTIPLE == 0
    ensures n <= r < n + MULTIPLE
  {
    var q := (n + (MULTIPLE - 1)) / MULTIPLE;
    Split16(q, 0);
    q * MULTIPLE
  }

  lemma RoundUpMonotone(m: nat, n: nat)
    requires m <= n
    ensures RoundUp(m) <= RoundUp(n)
  {
    Div16Monotone(m + 15, n + 15);
  }

  /** `round_up(n)` is below every multiple of 16 that holds `n`. */
  lemma RoundUpLeast(n: nat, m: nat)
    requires n <= m && m % MULTIPLE == 0
    ensures RoundUp(n) <= m
  {
    Div16Monotone(n + 15, m + 15);
    Split16(m / 16, 15);
  }

  /** A multiple of 16 is left as it is. */
  lemma RoundUpIdempotent(n: nat)
    requires n % MULTIPLE == 0
    ensures RoundUp(n) == n
  {
    Split16(n / 16, 15);
  }
}
