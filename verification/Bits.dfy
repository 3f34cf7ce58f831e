/** Powers of two, bit counts, and the unsigned 32-bit operations of `history_tree.rs`. */
module Bits {
  function Pow2(k: nat): (p: nat)
    ensures p >= 1
  {
    if k == 0 then 1 else 2 * Pow2(k - 1)
  }

  lemma {:induction false} Pow2Monotone(a: nat, b: nat)
    requires a <= b
    ensures Pow2(a) <= Pow2(b)
    decreases b
  {
    if a < b {
      Pow2Monotone(a, b - 1);
    }
  }

  lemma DoubleBelow(a: nat, b: nat)
    requires a < b
    ensures 2 * Pow2(a) <= Pow2(b)
  {
    Pow2Monotone(a + 1, b);
  }

  function PopCount(n: nat): nat {
    if n == 0 then 0 else n % 2 + PopCount(n / 2)
  }

  function TrailingOnes(n: nat): nat {
    if n % 2 == 0 then 0 else 1 + TrailingOnes(n / 2)
  }

  predicate BitSet(n: nat, b: nat) {
    if b == 0 then n % 2 == 1 else BitSet(n / 2, b - 1)
  }

  /** The lowest `k` bits of `n` are all clear. */
  predicate LowClear(n: nat, k: nat) {
    k == 0 || (n % 2 == 0 && LowClear(n / 2, k - 1))
  }

  lemma {:induction false} LowClearWeaken(n: nat, k: nat, j: nat)
    requires LowClear(n, k) && j <= k
    ensures LowClear(n, j)
  {
    if j > 0 { LowClearWeaken(n / 2, k - 1, j - 1); }
  }

  lemma {:induction false} ZeroIsClear(k: nat)
    ensures LowClear(0, k) && !BitSet(0, k)
  {
    if k > 0 { ZeroIsClear(k - 1); }
  }

  /** Setting bit `a` of a number whose bits up to `a` are clear adds one set bit, and it is that one. */
  lemma {:induction false} SetLowBit(n: nat, a: nat)
    requires LowClear(n, a + 1)
    ensures PopCount(n + Pow2(a)) == PopCount(n) + 1
    ensures LowClear(n + Pow2(a), a) && !LowClear(n + Pow2(a), a + 1)
  {
    if a == 0 {
      assert (n + 1) / 2 == n / 2;
    } else {
      SetLowBit(n / 2, a - 1);
      assert (n + Pow2(a)) / 2 == n / 2 + Pow2(a - 1) && (n + Pow2(a)) % 2 == 0;
    }
  }

  lemma {:induction false} SetLowBitSet(n: nat, a: nat, b: nat)
    requires LowClear(n, a + 1)
    ensures BitSet(n + Pow2(a), b) <==> b == a || BitSet(n, b)
  {
    if a == 0 {
      assert (n + 1) / 2 == n / 2;
    } else {
      assert (n + Pow2(a)) / 2 == n / 2 + Pow2(a - 1) && (n + Pow2(a)) % 2 == 0;
      if b > 0 { SetLowBitSet(n / 2, a - 1, b - 1); }
    }
  }

  lemma {:induction false} PopCountOfNext(n: nat)
    ensures PopCount(n + 1) + TrailingOnes(n) == PopCount(n) + 1
  {
    if n % 2 == 0 {
      assert (n + 1) / 2 == n / 2;
    } else {
      PopCountOfNext(n / 2);
      assert (n + 1) / 2 == n / 2 + 1;
    }
  }

  /** The value of the lowest set bit. */
  function LowestBit(n: nat): (p: nat)
    requires n > 0
    ensures 1 <= p <= n
  {
    if n % 2 == 1 then 1 else 2 * LowestBit(n / 2)
  }

  /** It is the power of two that is left when the number is divided by the next one. */
  lemma {:induction false} LowestBitExact(n: nat, k: nat)
    requires n > 0
    ensures LowestBit(n) == Pow2(k) <==> n % Pow2(k + 1) == Pow2(k)
  {
    if k == 0 {
      assert Pow2(1) == 2;
      if n % 2 == 0 { assert LowestBit(n) >= 2; }
    } else {
      var m, q := n / 2, Pow2(k);
      assert Pow2(k + 1) == 2 * q && q == 2 * Pow2(k - 1);
      DoubleModulus(n, q);
      if n % 2 == 0 { LowestBitExact(m, k - 1); }
    }
  }

  lemma DoubleModulus(n: nat, q: nat)
    requires q > 0
    ensures n % (2 * q) == 2 * (n / 2 % q) + n % 2
  {
    var m := n / 2;
    var r := m % q;
    assert m == m / q * q + r;
    var t := m / q;
    assert n == t * (2 * q) + (2 * r + n % 2) by {
      assert n == 2 * m + n % 2;
      assert 2 * (t * q) == t * (2 * q);
    }
    RemainderOf(n, t, 2 * q, 2 * r + n % 2);
  }

  lemma RemainderOf(n: nat, t: nat, d: nat, r: nat)
    requires d > 0 && n == t * d + r && r < d
    ensures n % d == r
  {
    var u, s := n / d, n % d;
    assert n == u * d + s;
    assert (u - t) * d == u * d - t * d && (t - u) * d == t * d - u * d;
    if u > t {
      Multiple(u - t, d);
    } else if u < t {
      Multiple(t - u, d);
    }
  }

  lemma Multiple(k: nat, d: nat)
    requires k > 0
    ensures k * d >= d
  {
    assert k * d == (k - 1) * d + d;
  }

  /** Below a number whose bits up to `a` are clear, bit `a` is the lowest. */
  lemma {:induction false} LowestOfSet(m: nat, a: nat)
    requires LowClear(m, a + 1)
    ensures LowestBit(m + Pow2(a)) == Pow2(a)
  {
    if a > 0 {
      LowestOfSet(m / 2, a - 1);
      assert (m + Pow2(a)) / 2 == m / 2 + Pow2(a - 1) && (m + Pow2(a)) % 2 == 0;
    }
  }

  // Unsigned 32-bit arithmetic. Each operation's precondition is that it does not overflow.

  const U32_LIMIT: nat := 0x1_0000_0000

  type u32 = x: int | 0 <= x < U32_LIMIT

  function Add32(a: u32, b: u32): u32
    requires a + b < U32_LIMIT
  {
    a + b
  }

  function Sub32(a: u32, b: u32): u32
    requires b <= a
  {
    a - b
  }

  /** `1 << k`. */
  function OneShl32(k: u32): (r: u32)
    requires k < 32
  {
    Pow2Below32(k);
    Pow2(k)
  }

  lemma Pow2Below32(k: nat)
    requires k < 32
    ensures Pow2(k) < U32_LIMIT
  {
    Pow2Of32();
    Pow2Monotone(k + 1, 32);
  }

  lemma Pow2Of32()
    ensures Pow2(31) == 0x8000_0000 && Pow2(32) == U32_LIMIT
  {
    assert Pow2(8) == 256;
    assert Pow2(16) == 0x1_0000 by { assert Pow2(12) == 4096; }
    assert Pow2(20) == 0x10_0000;
    assert Pow2(24) == 0x100_0000;
    assert Pow2(28) == 0x1000_0000;
  }

  /** `u32::leading_zeros`, one bit at a time from the top. */
  function LeadingZeros(x: u32): (z: u32)
    ensures z <= 32 && x < Pow2(32 - z)
    ensures x != 0 ==> z < 32 && Pow2(31 - z) <= x
  {
    Pow2Of32();
    ZerosFrom(x, 32)
  }

  /** The number of clear bits at the top of the `w`-bit number `x`, counted within 32 bits. */
  function ZerosFrom(x: nat, w: nat): (z: nat)
    requires w <= 32 && x < Pow2(w)
    ensures 32 - w <= z <= 32 && x < Pow2(32 - z)
    ensures x != 0 ==> z < 32 && Pow2(31 - z) <= x
  {
    if w > 0 && x < Pow2(w - 1) then ZerosFrom(x, w - 1) else 32 - w
  }
}
