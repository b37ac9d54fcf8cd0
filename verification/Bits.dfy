/**
 Binary arithmetic of addresses and frame numbers, by recursion on the binary digits:
 powers of two, alignment, the exclusive-or with one bit, trailing zeros and the two
 roundings to a power of two.
 */
module Bits {
  import opened Common

  function Pow2(k: nat): (p: nat)
    ensures p >= 1
  {
    if k == 0 then 1 else 2 * Pow2(k - 1)
  }

  /** The low `k` binary digits of `x` are zero. */
  predicate Aligned(x: nat, k: nat)
    decreases k
  {
    k == 0 || (x % 2 == 0 && Aligned(x / 2, k - 1))
  }

  /** `x ^ (1 << k)`: the k-th binary digit is inverted, the others stay. */
  function FlipBit(x: nat, k: nat): nat
    decreases k
  {
    if k == 0 then (if x % 2 == 0 then x + 1 else x - 1)
    else 2 * FlipBit(x / 2, k - 1) + x % 2
  }

  /** `x & !((1 << k) - 1)`: the low `k` binary digits are cleared. */
  function Floor(x: nat, k: nat): nat
    decreases k
  {
    if k == 0 then x else 2 * Floor(x / 2, k - 1)
  }

  /** The number of trailing zero digits of a nonzero number. */
  function TrailingZeros(x: nat): nat
    requires x > 0
  {
    if x % 2 == 1 then 0 else 1 + TrailingZeros(x / 2)
  }

  /** `x & (!x + 1)` for a nonzero `x`: its lowest set bit. */
  function LowBit(x: nat): nat
    requires x > 0
  {
    if x % 2 == 1 then 1 else 2 * LowBit(x / 2)
  }

  /** `1 << (BITS - leading_zeros - 1)`: the highest set bit. */
  function PrevPow2(x: nat): nat
    requires x > 0
  {
    if x == 1 then 1 else 2 * PrevPow2(x / 2)
  }

  /** `usize::next_power_of_two`, which sends 0 to 1. */
  function NextPow2(x: nat): nat
  {
    if x <= 1 then 1 else 2 * NextPow2((x + 1) / 2)
  }

  ghost predicate IsPow2(x: nat) {
    x > 0 && x == Pow2(TrailingZeros(x))
  }

  lemma {:induction false} Pow2Monotone(j: nat, k: nat)
    requires j <= k
    ensures Pow2(j) <= Pow2(k)
    ensures j < k ==> 2 * Pow2(j) <= Pow2(k)
    decreases k
  {
    if j < k {
      Pow2Monotone(j, k - 1);
    }
  }

  lemma {:induction false} TrailingZerosOfPow2(k: nat)
    ensures TrailingZeros(Pow2(k)) == k
    ensures IsPow2(Pow2(k))
  {
    if k > 0 {
      TrailingZerosOfPow2(k - 1);
    }
  }

  /** The larger of two powers of two is a power of two with the larger exponent. */
  lemma MaxOfPow2(j: nat, k: nat)
    ensures Max(Pow2(j), Pow2(k)) == Pow2(Max(j, k))
  {
    if j <= k {
      Pow2Monotone(j, k);
    } else {
      Pow2Monotone(k, j);
    }
  }

  lemma {:induction false} LowBitIsPow2(x: nat)
    requires x > 0
    ensures LowBit(x) == Pow2(TrailingZeros(x))
    ensures Aligned(x, TrailingZeros(x))
    ensures !Aligned(x, TrailingZeros(x) + 1)
    decreases x
  {
    if x % 2 == 0 {
      LowBitIsPow2(x / 2);
    }
  }

  /** The exponent of `PrevPow2`. */
  function Log2(x: nat): nat
    requires x > 0
  {
    if x == 1 then 0 else 1 + Log2(x / 2)
  }

  lemma {:induction false} PrevPow2Bounds(x: nat)
    requires x > 0
    ensures PrevPow2(x) == Pow2(Log2(x))
    ensures PrevPow2(x) <= x < 2 * PrevPow2(x)
    decreases x
  {
    if x > 1 {
      PrevPow2Bounds(x / 2);
    }
  }

  /** The exponent of `NextPow2`. */
  function CeilLog2(x: nat): nat
  {
    if x <= 1 then 0 else 1 + CeilLog2((x + 1) / 2)
  }

  lemma {:induction false} NextPow2Bounds(x: nat)
    ensures NextPow2(x) == Pow2(CeilLog2(x))
    ensures x <= NextPow2(x)
    ensures x > 0 ==> NextPow2(x) < 2 * x
    decreases x
  {
    if x > 1 {
      NextPow2Bounds((x + 1) / 2);
    }
  }

  lemma {:induction false} AlignedWeaken(x: nat, j: nat, k: nat)
    requires j <= k
    requires Aligned(x, k)
    ensures Aligned(x, j)
    decreases k
  {
    if j > 0 {
      AlignedWeaken(x / 2, j - 1, k - 1);
    }
  }

  /** A number aligned to `k + 1` digits is the left one of a pair of order-k siblings. */
  lemma {:induction false} LeftSibling(x: nat, k: nat)
    requires Aligned(x, k + 1)
    ensures Aligned(x, k)
    ensures FlipBit(x, k) == x + Pow2(k)
    ensures Aligned(x + Pow2(k), k)
    ensures FlipBit(x + Pow2(k), k) == x
    ensures !Aligned(x + Pow2(k), k + 1)
    decreases k
  {
    if k > 0 {
      LeftSibling(x / 2, k - 1);
      assert (x + Pow2(k)) / 2 == x / 2 + Pow2(k - 1);
    }
  }

  /** An order-k aligned number is the left or the right one of its pair of siblings. */
  lemma {:induction false} SiblingCases(x: nat, k: nat)
    requires Aligned(x, k)
    ensures Aligned(x, k + 1) || (x >= Pow2(k) && Aligned(x - Pow2(k), k + 1))
    decreases k
  {
    if k == 0 {
      assert x % 2 == 0 ==> Aligned(x / 2, 0);
      assert x % 2 == 1 ==> Aligned((x - 1) / 2, 0);
    } else {
      SiblingCases(x / 2, k - 1);
      if !Aligned(x / 2, k) {
        var y := x - Pow2(k);
        assert y / 2 == x / 2 - Pow2(k - 1) && y % 2 == 0;
      }
    }
  }

  /** Aligned ranges are nested as soon as they meet. */
  lemma {:induction false} NestedWhenMeeting(x: nat, j: nat, y: nat, k: nat)
    requires j <= k
    requires Aligned(x, j) && Aligned(y, k)
    requires x < y + Pow2(k) && y < x + Pow2(j)
    ensures y <= x && x + Pow2(j) <= y + Pow2(k)
    decreases j
  {
    if j > 0 {
      NestedWhenMeeting(x / 2, j - 1, y / 2, k - 1);
    }
  }

  /** Clearing the low digits gives the start of the aligned range that holds the number. */
  lemma {:induction false} FloorBounds(x: nat, k: nat)
    ensures Aligned(Floor(x, k), k)
    ensures Floor(x, k) <= x < Floor(x, k) + Pow2(k)
    decreases k
  {
    if k > 0 {
      FloorBounds(x / 2, k - 1);
    }
  }

  /** Multiples of a power of two are aligned, and alignment survives adding one. */
  lemma {:induction false} AlignedAdd(x: nat, y: nat, k: nat)
    requires Aligned(x, k) && Aligned(y, k)
    ensures Aligned(x + y, k)
    decreases k
  {
    if k > 0 {
      AlignedAdd(x / 2, y / 2, k - 1);
      assert (x + y) / 2 == x / 2 + y / 2;
    }
  }

  lemma {:induction false} AlignedSub(x: nat, y: nat, k: nat)
    requires Aligned(x, k) && Aligned(y, k) && y <= x
    ensures Aligned(x - y, k)
    decreases k
  {
    if k > 0 {
      AlignedSub(x / 2, y / 2, k - 1);
      assert (x - y) / 2 == x / 2 - y / 2;
    }
  }

  lemma {:induction false} Pow2Aligned(j: nat, k: nat)
    requires k <= j
    ensures Aligned(Pow2(j), k)
    decreases k
  {
    if k > 0 {
      Pow2Aligned(j - 1, k - 1);
      assert Pow2(j) % 2 == 0 && Pow2(j) / 2 == Pow2(j - 1);
    }
  }

  /** A positive number aligned to `k` digits is at least `Pow2(k)`. */
  lemma {:induction false} AlignedIsLarge(x: nat, k: nat)
    requires Aligned(x, k) && x > 0
    ensures x >= Pow2(k)
    decreases k
  {
    if k > 0 {
      AlignedIsLarge(x / 2, k - 1);
    }
  }
}
