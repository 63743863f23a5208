/** Bit arithmetic on natural numbers, in place of machine words. */
module Bits {

  /** x << i */
  function Shl(x: nat, i: nat): nat {
    if i == 0 then x else 2 * Shl(x, i - 1)
  }

  /** x >> i */
  function Shr(x: nat, i: nat): nat
    decreases i
  {
    if i == 0 then x else Shr(x / 2, i - 1)
  }

  /** 1 << i */
  function Pow2(i: nat): (p: nat)
    ensures p >= 1
  {
    if i == 0 then 1 else 2 * Pow2(i - 1)
  }

  /** The position of the highest set bit: bits.Len(x) - 1. */
  function Log2(x: nat): nat
    requires x > 0
  {
    if x == 1 then 0 else 1 + Log2(x / 2)
  }

  /** The position of the lowest set bit. */
  function TrailingZeros(x: nat): nat
    requires x > 0
  {
    if x % 2 == 1 then 0 else 1 + TrailingZeros(x / 2)
  }

  function OnesCount(x: nat): nat {
    if x == 0 then 0 else x % 2 + OnesCount(x / 2)
  }

  function BitLen(x: nat): nat {
    if x == 0 then 0 else 1 + BitLen(x / 2)
  }

  /** a ^ b */
  function BitXor(a: nat, b: nat): nat
    decreases a + b
  {
    if a == 0 && b == 0 then 0 else (a % 2 + b % 2) % 2 + 2 * BitXor(a / 2, b / 2)
  }

  /** mask &^ x: the bits of mask where x has a zero. */
  function AndNot(mask: nat, x: nat): nat {
    if mask == 0 then 0 else (mask % 2) * (1 - x % 2) + 2 * AndNot(mask / 2, x / 2)
  }

  /** at is a multiple of 2^i.  Stated for every v so that it is unfolded only where AlignedIs is
      called. */
  ghost predicate Aligned(at: nat, i: nat) {
    forall v: bool :: AlignedIf(v, at, i)
  }

  ghost predicate AlignedIf(v: bool, at: nat, i: nat) {
    v ==> at == Shl(Shr(at, i), i)
  }

  lemma AlignedIs(at: nat, i: nat)
    ensures Aligned(at, i) <==> at == Shl(Shr(at, i), i)
  {
    assert AlignedIf(true, at, i) <==> at == Shl(Shr(at, i), i);
  }

  // ---------- shifts ----------

  lemma {:induction false} ShlAdd(x: nat, y: nat, i: nat)
    ensures Shl(x + y, i) == Shl(x, i) + Shl(y, i)
  {
    if i > 0 {
      ShlAdd(x, y, i - 1);
    }
  }

  lemma {:induction false} ShlOne(i: nat)
    ensures Shl(1, i) == Pow2(i) && Shl(0, i) == 0
  {
    if i > 0 {
      ShlOne(i - 1);
    }
  }

  lemma ShlNext(x: nat, i: nat)
    ensures Shl(x + 1, i) == Shl(x, i) + Pow2(i)
  {
    ShlAdd(x, 1, i);
    ShlOne(i);
  }

  lemma {:induction false} ShlDouble(x: nat, i: nat)
    ensures Shl(2 * x, i) == Shl(x, i + 1)
  {
    if i > 0 {
      ShlDouble(x, i - 1);
    }
  }

  lemma {:induction false} ShlMonotone(x: nat, y: nat, i: nat)
    requires x <= y
    ensures Shl(x, i) <= Shl(y, i)
  {
    if i > 0 {
      ShlMonotone(x, y, i - 1);
    }
  }

  lemma {:induction false} ShrStep(x: nat, i: nat)
    ensures Shr(x, i + 1) == Shr(x, i) / 2
    decreases i
  {
    if i > 0 {
      ShrStep(x / 2, i - 1);
    }
  }

  lemma {:induction false} ShrShl(x: nat, i: nat)
    ensures Shr(Shl(x, i), i) == x
    decreases i
  {
    if i > 0 {
      ShrShl(x, i - 1);
      assert Shl(x, i) / 2 == Shl(x, i - 1);
    }
  }

  lemma AlignedShl(x: nat, i: nat)
    ensures Aligned(Shl(x, i), i)
  {
    ShrShl(x, i);
    AlignedIs(Shl(x, i), i);
  }

  /** Alignment to a power of two is alignment to every smaller one. */
  lemma AlignedDown(at: nat, i: nat, j: nat)
    requires Aligned(at, i) && j <= i
    ensures Aligned(at, j)
    decreases i - j
  {
    if j < i {
      var x := Shr(at, i);
      AlignedIs(at, i);
      ShlDouble(x, i - 1);
      AlignedShl(2 * x, i - 1);
      AlignedDown(at, i - 1, j);
    }
  }

  /** at + 2^j stays aligned to 2^j. */
  lemma AlignedNext(at: nat, j: nat)
    requires Aligned(at, j)
    ensures Aligned(at + Pow2(j), j)
  {
    AlignedIs(at, j);
    ShlNext(Shr(at, j), j);
    AlignedShl(Shr(at, j) + 1, j);
  }

  lemma {:induction false} ShrBelow(x: nat, i: nat)
    ensures x < Pow2(i) <==> Shr(x, i) == 0
    decreases i
  {
    if i > 0 {
      ShrBelow(x / 2, i - 1);
    }
  }

  lemma {:induction false} Pow2Monotone(i: nat, j: nat)
    requires i <= j
    ensures Pow2(i) <= Pow2(j)
    decreases j
  {
    if i < j {
      Pow2Monotone(i, j - 1);
    }
  }

  lemma Pow2Strict(i: nat, j: nat)
    requires Pow2(i) < Pow2(j)
    ensures i < j
  {
    if j <= i {
      Pow2Monotone(j, i);
    }
  }

  // ---------- logarithms ----------

  lemma {:induction false} Log2Bounds(x: nat)
    requires x > 0
    ensures Pow2(Log2(x)) <= x < 2 * Pow2(Log2(x))
  {
    if x > 1 {
      Log2Bounds(x / 2);
    }
  }

  lemma {:induction false} Log2Unique(x: nat, k: nat)
    requires Pow2(k) <= x < 2 * Pow2(k)
    ensures x > 0 && Log2(x) == k
  {
    if k > 0 {
      Log2Unique(x / 2, k - 1);
    }
  }

  lemma {:induction false} TrailingZerosAligned(x: nat, i: nat)
    requires x > 0
    ensures Aligned(x, i) <==> i <= TrailingZeros(x)
  {
    AlignedIs(x, i);
    if i > 0 {
      if x % 2 == 0 {
        AlignedIs(x / 2, i - 1);
        TrailingZerosAligned(x / 2, i - 1);
      }
    } else {
      assert Shr(x, 0) == x;
    }
  }

  /** An aligned number between two consecutive multiples of 2^i is one of them. */
  lemma {:induction false} NoMultipleBetween(x: nat, y: nat, i: nat)
    requires Shl(x, i) <= y < Shl(x + 1, i) && Aligned(y, i)
    ensures y == Shl(x, i)
  {
    var z := Shr(y, i);
    AlignedIs(y, i);
    if z > x {
      ShlMonotone(x + 1, z, i);
    } else if z < x {
      ShlMonotone(z + 1, x, i);
      ShlNext(z, i);
    }
  }
}
