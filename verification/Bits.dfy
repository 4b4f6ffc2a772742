/**
 Shifts and bitwise operators on natural numbers, bit by bit, and their arithmetic.
 */
module Bits {

  /** x >> j. */
  function Shr(x: nat, j: nat): nat
    decreases j
  {
    if j == 0 then x else Shr(x / 2, j - 1)
  }

  /** x | y. */
  function Or(x: nat, y: nat): nat
    decreases x + y
  {
    if x == 0 && y == 0 then 0
    else 2 * Or(x / 2, y / 2) + if x % 2 == 1 || y % 2 == 1 then 1 else 0
  }

  /** x & y. */
  function And(x: nat, y: nat): nat
    decreases x
  {
    if x == 0 || y == 0 then 0
    else 2 * And(x / 2, y / 2) + if x % 2 == 1 && y % 2 == 1 then 1 else 0
  }

  function Pow2(k: nat): nat { if k == 0 then 1 else 2 * Pow2(k - 1) }

  lemma {:induction false} ShiftOfZero(j: nat)
    ensures Shr(0, j) == 0
  {
    if j > 0 { ShiftOfZero(j - 1); }
  }

  lemma OrUnfold(x: nat, y: nat)
    ensures Or(x, y) == 2 * Or(x / 2, y / 2) + if x % 2 == 1 || y % 2 == 1 then 1 else 0
  {
  }

  lemma {:induction false} OrZero(x: nat)
    ensures Or(0, x) == x
  {
    if x > 0 { OrZero(x / 2); }
  }

  /** Or'ing bits below the k-th to a number without any adds them. */
  lemma {:induction false} OrDisjoint(x: nat, y: nat, k: nat)
    requires x < Pow2(k)
    ensures Or(x, Pow2(k) * y) == x + Pow2(k) * y
    decreases k
  {
    if k == 0 {
      OrZero(y);
    } else {
      var z := Pow2(k) * y;
      assert z == 2 * (Pow2(k - 1) * y);
      OrUnfold(x, z);
      OrDisjoint(x / 2, y, k - 1);
    }
  }

  /** Masking with the k lowest bits is the remainder. */
  lemma {:induction false} AndMask(x: nat, k: nat)
    ensures Pow2(k) >= 1 && And(x, Pow2(k) - 1) == x % Pow2(k)
    decreases k
  {
    if k > 0 {
      AndMask(x / 2, k - 1);
      HalfRemainder(x, Pow2(k - 1));
    }
  }

  /** Halving first: the quotient and the remainder by twice a number. */
  lemma HalfRemainder(x: nat, p: nat)
    requires p >= 1
    ensures x % (2 * p) == 2 * (x / 2 % p) + x % 2 && x / (2 * p) == x / 2 / p
  {
    var q, r := x / 2 / p, x / 2 % p;
    assert x / 2 == q * p + r;
    assert x == (2 * p) * q + (2 * r + x % 2);
    Remainder(x, 2 * p, q, 2 * r + x % 2);
  }

  lemma Remainder(x: nat, d: nat, q: nat, r: nat)
    requires d >= 1 && x == d * q + r && r < d
    ensures x % d == r && x / d == q
  {
    var m := x / d - q;
    assert d * m == r - x % d;
    if m != 0 { Multiple(d, m); }
  }

  lemma Multiple(d: nat, m: int)
    requires m != 0
    ensures d * m >= d || d * m <= -(d as int)
  {
  }

  /** A shift is a division. */
  lemma {:induction false} ShrDivides(x: nat, k: nat)
    ensures Pow2(k) >= 1 && Shr(x, k) == x / Pow2(k)
    decreases k
  {
    if k > 0 {
      ShrDivides(x / 2, k - 1);
      HalfRemainder(x, Pow2(k - 1));
    }
  }
}
