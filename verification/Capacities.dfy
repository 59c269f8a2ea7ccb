/** Rounding of capacities, shared by arrays and heaps. */
module Capacities {
  function Pow2(n: nat): (p: nat)
    ensures n < p
  {
    if n == 0 then 1 else 2 * Pow2(n - 1)
  }

  /** Position of the highest set bit, counted from 1. */
  function Flsl(mask: nat): (k: nat)
    ensures mask < Pow2(k)
    ensures 0 < mask ==> 0 < k && Pow2(k - 1) <= mask
  {
    if mask == 0 then 0 else Flsl(mask / 2) + 1
  }

  /** `1 << k` in a 32-bit signed int, the shift count taken modulo 32. */
  function IntShift(k: nat): int {
    if k % 32 == 31 then -0x8000_0000 else Pow2(k % 32)
  }

  function RoundUpCapacity(capacity: nat): int {
    if capacity < 4 then 4 else IntShift(Flsl(capacity))
  }

  const LARGEST: nat := 0x4000_0000

  lemma {:induction false} Pow2Monotone(m: nat, n: nat)
    requires m <= n
    ensures Pow2(m) <= Pow2(n)
  {
    if m < n { Pow2Monotone(m, n - 1); }
  }

  lemma Pow2Values()
    ensures Pow2(0) == 1 && Pow2(2) == 4 && Pow2(3) == 8 && Pow2(30) == LARGEST && Pow2(31) == 2 * LARGEST
  {
    assert Pow2(8) == 256;
    assert Pow2(16) == 65536;
    assert Pow2(24) == 16777216;
    assert Pow2(30) == LARGEST;
  }

  lemma Halve(n: nat)
    requires n > 0
    ensures Pow2(n) == 2 * Pow2(n - 1)
  {
  }

  lemma RoundUpBelow(capacity: nat)
    requires 4 <= capacity < LARGEST
    ensures capacity < RoundUpCapacity(capacity) <= LARGEST && RoundUpCapacity(capacity) % 2 == 0
  {
    hide Pow2;
    Pow2Values();
    var k := Flsl(capacity);
    if 31 <= k {
      Pow2Monotone(30, k - 1);
      assert false;
    }
    Halve(k);
    Pow2Monotone(k, 30);
  }

  lemma RoundUpAbove(capacity: nat)
    requires LARGEST <= capacity
    ensures RoundUpCapacity(capacity) <= if capacity < 2 * LARGEST then -1 else LARGEST
  {
    hide Pow2;
    Pow2Values();
    var k := Flsl(capacity);
    if k < 31 {
      Pow2Monotone(k, 30);
      assert false;
    }
    if k % 32 != 31 {
      Pow2Monotone(k % 32, 30);
      Pow2Monotone(31, k - 1);
    }
  }

  /** Rounding up gives more than was asked for exactly below 2^30, where the shift still fits an int. */
  lemma RoundUpFits(capacity: nat)
    ensures capacity < RoundUpCapacity(capacity) <==> capacity < LARGEST
    ensures capacity < LARGEST ==> 4 <= RoundUpCapacity(capacity) <= LARGEST && RoundUpCapacity(capacity) % 2 == 0
    ensures capacity < 4 ==> RoundUpCapacity(capacity) == 4
  {
    hide Pow2, IntShift, Flsl;
    if LARGEST <= capacity { RoundUpAbove(capacity); } else if 4 <= capacity { RoundUpBelow(capacity); }
  }

  lemma FlslIs(mask: nat, k: nat)
    requires Pow2(k) <= mask < Pow2(k + 1)
    ensures Flsl(mask) == k + 1
  {
    hide Pow2;
    var n := Flsl(mask);
    if n < k + 1 { Pow2Monotone(n, k); }
    if k + 1 < n { Pow2Monotone(k + 1, n - 1); }
  }

  /** A capacity from 2^k on and below 2^(k+1) is rounded up to 2^(k+1), as long as the shift fits; from 2^30
      on it gives -2^31, and beyond 2^31 the shift starts again from 1. */
  lemma RoundUpIs(capacity: nat, k: nat)
    requires 4 <= capacity && Pow2(k) <= capacity < Pow2(k + 1)
    ensures k < 30 ==> RoundUpCapacity(capacity) == 2 * Pow2(k)
    ensures k == 30 ==> RoundUpCapacity(capacity) == -0x8000_0000
    ensures 31 <= k < 62 ==> RoundUpCapacity(capacity) == Pow2(k - 31)
  {
    hide Pow2, Flsl;
    FlslIs(capacity, k);
    if k < 30 {
      Halve(k + 1);
    } else if 31 <= k < 62 {
      assert (k + 1) % 32 == k - 31;
    }
  }
}
