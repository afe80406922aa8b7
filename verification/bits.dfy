/** Unsigned machine-word arithmetic used by the arena: 64-bit words, a
    bitwise AND over naturals, and the power-of-two test `x & (x - 1) == 0`. */
module Bits {

  /** 2^64: one more than the largest `uintptr_t` / `size_t`. */
  const WORD: nat := 0x1_0000_0000_0000_0000

  /** Bitwise AND of two naturals, bit by bit from the least significant end. */
  function And(a: nat, b: nat): (r: nat)
    ensures r <= a && r <= b
    decreases a
  {
    if a == 0 || b == 0 then 0
    else (if a % 2 == 1 && b % 2 == 1 then 1 else 0) + 2 * And(a / 2, b / 2)
  }

  /** Number of one bits of `x`. */
  function BitCount(x: nat): nat
    decreases x
  {
    if x == 0 then 0 else x % 2 + BitCount(x / 2)
  }

  /** `x - 1` on a 64-bit unsigned word: 0 wraps to 2^64 - 1. */
  function PredWrap(x: nat): (r: nat)
    requires x < WORD
    ensures r < WORD
  {
    if x == 0 then WORD - 1 else x - 1
  }

  /** Models `is_power_of_two`: `(x & (x - 1)) == 0` on a 64-bit word. */
  predicate IsPowerOfTwo(x: nat)
    requires x < WORD
  {
    And(x, PredWrap(x)) == 0
  }

  lemma {:induction false} AndSelf(x: nat)
    ensures And(x, x) == x
    decreases x
  {
    if x > 0 {
      AndSelf(x / 2);
    }
  }

  lemma {:induction false} BitCountPositive(x: nat)
    requires x > 0
    ensures BitCount(x) >= 1
    decreases x
  {
    if x % 2 == 0 {
      BitCountPositive(x / 2);
    }
  }

  /** `x & (x - 1)` clears the lowest set bit, so it is zero exactly when at
      most one bit is set. */
  lemma {:induction false} AndPredZero(x: nat)
    requires x > 0
    ensures And(x, x - 1) == 0 <==> BitCount(x) == 1
    decreases x
  {
    if x == 1 {
    } else if x % 2 == 0 {
      assert (x - 1) / 2 == x / 2 - 1;
      AndPredZero(x / 2);
    } else {
      var k := x / 2;
      assert (x - 1) / 2 == k;
      AndSelf(k);
      BitCountPositive(k);
    }
  }

  /** The source's power-of-two test holds exactly when at most one bit is
      set; in particular it also holds of 0. */
  lemma IsPowerOfTwoIffOneBit(x: nat)
    requires x < WORD
    ensures IsPowerOfTwo(x) <==> BitCount(x) <= 1
    ensures IsPowerOfTwo(0)
  {
    if x > 0 {
      AndPredZero(x);
    }
  }

  /** Euclidean division is determined by any quotient/remainder pair. */
  lemma DivModUnique(x: nat, d: nat, q: nat, r: nat)
    requires d > 0 && r < d && x == d * q + r
    ensures x % d == r && x / d == q
  {
    var q0, r0 := x / d, x % d;
    assert x == d * q0 + r0;
    if q0 < q {
      assert d * q >= d * (q0 + 1) by { MulMono(d, q0 + 1, q); }
      assert false;
    } else if q0 > q {
      assert d * q0 >= d * (q + 1) by { MulMono(d, q + 1, q0); }
      assert false;
    }
  }

  lemma MulMono(d: nat, a: nat, b: nat)
    requires a <= b
    ensures d * a <= d * b
  {
  }

  lemma ModDouble(p: nat, h: nat)
    requires h >= 1
    ensures p % (2 * h) == p % 2 + 2 * ((p / 2) % h)
  {
    var q := (p / 2) / h;
    var s := (p / 2) % h;
    assert p / 2 == h * q + s;
    assert p == 2 * (p / 2) + p % 2;
    assert p == (2 * h) * q + (2 * s + p % 2);
    DivModUnique(p, 2 * h, q, 2 * s + p % 2);
  }

  /** For a power of two `a`, masking with `a - 1` is the remainder mod `a`. */
  lemma {:induction false} MaskIsMod(p: nat, a: nat)
    requires a >= 1 && BitCount(a) == 1
    ensures And(p, a - 1) == p % a
    decreases a
  {
    if a == 1 {
    } else {
      if a % 2 == 1 {
        BitCountPositive(a / 2);
        assert false;
      }
      var h := a / 2;
      assert BitCount(h) == 1;
      assert (a - 1) / 2 == h - 1;
      assert (a - 1) % 2 == 1;
      MaskIsMod(p / 2, h);
      ModDouble(p, h);
      if p == 0 {
      } else {
        assert And(p, a - 1) == p % 2 + 2 * And(p / 2, h - 1);
      }
    }
  }

  /** Alignments accepted by the arena: words with exactly one bit set. */
  predicate IsAlignment(a: nat)
  {
    1 <= a < WORD && BitCount(a) == 1
  }

  /** The alignments are exactly the non-zero words passing `is_power_of_two`. */
  lemma AlignmentIsNonZeroPowerOfTwo(a: nat)
    requires a < WORD
    ensures IsAlignment(a) <==> a != 0 && IsPowerOfTwo(a)
  {
    IsPowerOfTwoIffOneBit(a);
    if a != 0 {
      BitCountPositive(a);
    }
  }

  lemma AlignmentMask(p: nat, a: nat)
    requires IsAlignment(a)
    ensures And(p, a - 1) == p % a
  {
    MaskIsMod(p, a);
  }
}
