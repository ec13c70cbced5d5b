/** Bitwise operations on natural numbers. */
module Bits {

  /** Bitwise or, least significant bit first. */
  function Or(a: nat, b: nat): (r: nat)
    ensures b == 0 ==> r == a
    ensures a == 0 ==> r == b
  {
    if a == 0 && b == 0 then 0 else 2 * Or(a / 2, b / 2) + (if a % 2 == 1 || b % 2 == 1 then 1 else 0)
  }

  function Pow2(k: nat): (r: nat)
    ensures r >= 1
  {
    if k == 0 then 1 else 2 * Pow2(k - 1)
  }

  lemma {:induction false} OrStep(a: nat, b: nat)
    ensures Or(a, 2 * b) == 2 * Or(a / 2, b) + a % 2
  {
    assert 2 * b / 2 == b && 2 * b % 2 == 0;
  }

  /** A number shifted above another one: the bits do not meet, so or is a sum. */
  lemma {:induction false} OrShifted(a: nat, b: nat, k: nat)
    requires a < Pow2(k)
    ensures Or(a, b * Pow2(k)) == a + b * Pow2(k)
    decreases k
  {
    if k == 0 {
      assert b * Pow2(k) == b;
    } else {
      var half := b * Pow2(k - 1);
      assert b * Pow2(k) == 2 * half;
      OrStep(a, half);
      OrShifted(a / 2, b, k - 1);
    }
  }

  lemma Pow2Of12()
    ensures Pow2(12) == 4096
  {
    assert Pow2(4) == 16;
    assert Pow2(8) == 256;
  }
}
