/**
 * The compile-time `log2` of both kernels: a recursive ceiling base-2 logarithm on
 * 32-bit unsigned integers, used to name the number of rounds of the local scan.
 */
module Logarithm {

  /** The C++ `unsigned int`. */
  newtype U32 = x: int | 0 <= x < 0x1_0000_0000

  const UINT_MAX: U32 := 0xFFFF_FFFF

  function Pow2(k: nat): (p: nat)
    ensures p >= 1
  {
    if k == 0 then 1 else 2 * Pow2(k - 1)
  }

  /** r is the ceiling of log2(n) for n >= 2, and 0 for n <= 1. */
  ghost predicate IsCeilLog2(n: nat, r: nat) {
    if n <= 1 then r == 0 else r >= 1 && Pow2(r - 1) < n <= Pow2(r)
  }

  /** `log2` as written: `n + 1` is computed in `unsigned int` and wraps at UINT_MAX. */
  function Log2(n: U32): (r: nat)
    decreases n
  {
    if n <= 1 then 0 else 1 + Log2((((n as int + 1) % 0x1_0000_0000) / 2) as U32)
  }

  lemma {:induction false} Log2IsCeilLog2(n: U32)
    requires n < UINT_MAX
    ensures IsCeilLog2(n as nat, Log2(n))
    decreases n
  {
    if n > 1 {
      var m := ((n as int + 1) / 2) as U32;
      assert (n as int + 1) % 0x1_0000_0000 == n as int + 1;
      assert Log2(n) == 1 + Log2(m);
      assert 2 * (m as int) <= n as int + 1 <= 2 * (m as int) + 1;
      Log2IsCeilLog2(m);
      if m > 1 {
        assert Pow2(Log2(m)) == 2 * Pow2(Log2(m) - 1);
      }
    }
  }

  /** The wrap-around: UINT_MAX + 1 is 0, so the recursion stops one step in. */
  lemma Log2WrapsAtMax()
    ensures Log2(UINT_MAX) == 1
    ensures !IsCeilLog2(UINT_MAX as nat, Log2(UINT_MAX))
  {
    assert Log2(0) == 0;
  }

  /** `log2` with the halving rounded up without the overflowing `n + 1`. */
  function Log2Fixed(n: U32): (r: nat)
    decreases n
  {
    if n <= 1 then 0 else 1 + Log2Fixed(n / 2 + n % 2)
  }

  lemma {:induction false} Log2FixedIsCeilLog2(n: U32)
    ensures IsCeilLog2(n as nat, Log2Fixed(n))
    decreases n
  {
    if n > 1 {
      var m := n / 2 + n % 2;
      Log2FixedIsCeilLog2(m);
      if m > 1 {
        assert Pow2(Log2Fixed(m)) == 2 * Pow2(Log2Fixed(m) - 1);
      }
    }
  }

  lemma {:induction false} Pow2Monotone(a: nat, b: nat)
    requires a <= b
    ensures Pow2(a) <= Pow2(b)
    decreases b
  {
    if a < b {
      Pow2Monotone(a, b - 1);
    }
  }

  /** The ceiling logarithm is unique. */
  lemma CeilLog2Unique(n: nat, r1: nat, r2: nat)
    requires IsCeilLog2(n, r1) && IsCeilLog2(n, r2)
    ensures r1 == r2
  {
    if n > 1 && r1 != r2 {
      if r1 < r2 {
        Pow2Monotone(r1, r2 - 1);
      } else {
        Pow2Monotone(r2, r1 - 1);
      }
    }
  }

  /** Below UINT_MAX the written `log2` and the corrected one agree. */
  lemma Log2AgreesWithFixed(n: U32)
    requires n < UINT_MAX
    ensures Log2(n) == Log2Fixed(n)
  {
    Log2IsCeilLog2(n);
    Log2FixedIsCeilLog2(n);
    CeilLog2Unique(n as nat, Log2(n), Log2Fixed(n));
  }

  /** The two group widths of the repository: 512 and 64. */
  lemma Log2OfGroupWidths()
    ensures Log2(512) == 9 && Log2(64) == 6
  {
    assert Pow2(6) == 64;
    assert Pow2(9) == 512;
    Log2IsCeilLog2(512);
    Log2IsCeilLog2(64);
    CeilLog2Unique(512, Log2(512), 9);
    CeilLog2Unique(64, Log2(64), 6);
  }
}
