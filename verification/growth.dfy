/** Capacity growth by repeated doubling, shared by the two growable strings. */
module Growth {

  function Pow2(k: nat): (r: nat)
    ensures r >= 1
  {
    if k == 0 then 1 else 2 * Pow2(k - 1)
  }

  /** The capacity `while (cap < need) cap *= 2;` ends with, starting at `c`. */
  function GrowTo(c: nat, need: nat): (r: nat)
    requires c > 0
    ensures r >= need && r >= c
    ensures c >= need ==> r == c
    decreases need - c
  {
    if c >= need then c else GrowTo(2 * c, need)
  }

  /** The grown capacity is `c` times a power of two ... */
  lemma {:induction false} GrowToIsPowerMultiple(c: nat, need: nat) returns (k: nat)
    requires c > 0
    ensures GrowTo(c, need) == c * Pow2(k)
    decreases need - c
  {
    if c >= need {
      k := 0;
    } else {
      var j := GrowToIsPowerMultiple(2 * c, need);
      k := j + 1;
      assert c * Pow2(k) == (2 * c) * Pow2(j);
    }
  }

  /** ... and no larger than any such multiple that reaches `need`. */
  lemma {:induction false} GrowToLeast(c: nat, need: nat, k: nat)
    requires c > 0 && c * Pow2(k) >= need
    ensures GrowTo(c, need) <= c * Pow2(k)
    decreases k
  {
    if c < need {
      assert k > 0;
      assert c * Pow2(k) == (2 * c) * Pow2(k - 1);
      GrowToLeast(2 * c, need, k - 1);
    }
  }

  lemma MultipleAtLeast(c: nat, j: nat)
    ensures c <= c * Pow2(j)
  {
    assert c * Pow2(j) == c + c * (Pow2(j) - 1);
  }

  /** Doubling towards `x` and then towards `y` is doubling towards the
      larger of the two. */
  lemma {:induction false} GrowToTwice(c: nat, x: nat, y: nat)
    requires c > 0
    ensures GrowTo(GrowTo(c, x), y) == GrowTo(c, if x <= y then y else x)
    decreases x - c
  {
    if c < x {
      GrowToTwice(2 * c, x, y);
    }
  }

  /** A larger target never gives a smaller capacity. */
  lemma GrowToMonotone(c: nat, x: nat, y: nat)
    requires c > 0 && x <= y
    ensures GrowTo(c, x) <= GrowTo(c, y)
  {
    GrowToTwice(c, x, y);
  }
}
