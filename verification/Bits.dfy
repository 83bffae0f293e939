/** Bitwise operators on natural numbers, by their binary digits. */
module Bits {

  function Pow2(k: nat): (p: nat)
    ensures p >= 1
  {
    if k == 0 then 1 else 2 * Pow2(k - 1)
  }

  function Or(x: nat, y: nat): nat {
    if x == 0 && y == 0 then 0 else 2 * Or(x / 2, y / 2) + if x % 2 == 1 || y % 2 == 1 then 1 else 0
  }

  /** Go's `x &^ y`. */
  function AndNot(x: nat, y: nat): nat {
    if x == 0 then 0 else 2 * AndNot(x / 2, y / 2) + if x % 2 == 1 && y % 2 == 0 then 1 else 0
  }

  lemma {:induction false} OrZero(y: nat)
    ensures Or(0, y) == y && Or(y, 0) == y
  {
    if y == 0 {
    } else {
      OrZero(y / 2);
    }
  }

  lemma HalfShift(high: nat, k: nat)
    requires k > 0
    ensures high * Pow2(k) == 2 * (high * Pow2(k - 1))
  {
  }

  /** A disjunction of disjoint bit ranges is a sum. */
  lemma {:induction false} OrIsSum(high: nat, k: nat, low: nat)
    requires low < Pow2(k)
    ensures Or(high * Pow2(k), low) == high * Pow2(k) + low && Or(low, high * Pow2(k)) == high * Pow2(k) + low
  {
    if k == 0 {
      OrZero(high);
    } else {
      HalfShift(high, k);
      OrIsSum(high, k - 1, low / 2);
    }
  }

  lemma {:induction false} AndNotZero(x: nat)
    ensures AndNot(x, 0) == x
  {
    if x == 0 {
    } else {
      AndNotZero(x / 2);
    }
  }

  lemma {:induction false} AndNotSelf(x: nat)
    ensures AndNot(x, x) == 0
  {
    if x == 0 {
    } else {
      AndNotSelf(x / 2);
    }
  }

  /** Clearing the high range leaves the low one. */
  lemma {:induction false} AndNotIsLow(high: nat, k: nat, low: nat)
    requires low < Pow2(k)
    ensures AndNot(high * Pow2(k) + low, high * Pow2(k)) == low
  {
    if k == 0 {
      AndNotSelf(high);
    } else {
      HalfShift(high, k);
      AndNotIsLow(high, k - 1, low / 2);
    }
  }

  /** The two laws for a named power `p`, as the callers have it. */
  lemma DisjointBits(shifted: nat, high: nat, k: nat, p: nat, low: nat)
    requires p == Pow2(k) && shifted == high * p && low < p
    ensures Or(shifted, low) == shifted + low && Or(low, shifted) == shifted + low
    ensures AndNot(shifted + low, shifted) == low
  {
    OrIsSum(high, k, low);
    AndNotIsLow(high, k, low);
  }
}
