/** Shifts, masks and the bitwise operators on natural numbers, and bit lengths. */
module Bits {
  import opened Powers

  function Shl(a: int, k: nat): int {
    if k == 0 then a else 2 * Shl(a, k - 1)
  }

  /** a >> k, the floor of a / 2**k, also for negative a */
  function Shr(a: int, k: nat): int {
    if k == 0 then a else Shr(a, k - 1) / 2
  }

  /** The low k bits of a */
  function Low(a: int, k: nat): int {
    a - Shl(Shr(a, k), k)
  }

  function BitLength(a: nat): nat {
    if a == 0 then 0 else 1 + BitLength(a / 2)
  }

  function And(a: nat, b: nat): nat {
    if a == 0 || b == 0 then 0
    else 2 * And(a / 2, b / 2) + (if a % 2 == 1 && b % 2 == 1 then 1 else 0)
  }

  function Or(a: nat, b: nat): nat {
    if a == 0 then b
    else if b == 0 then a
    else 2 * Or(a / 2, b / 2) + (if a % 2 == 1 || b % 2 == 1 then 1 else 0)
  }

  function Xor(a: nat, b: nat): nat {
    if a == 0 then b
    else if b == 0 then a
    else 2 * Xor(a / 2, b / 2) + (if a % 2 != b % 2 then 1 else 0)
  }

  // ----- shifts

  lemma {:induction false} ShlOrder(a: int, b: int, k: nat)
    ensures a < b <==> Shl(a, k) < Shl(b, k)
    ensures a == b <==> Shl(a, k) == Shl(b, k)
  {
    if k > 0 {
      ShlOrder(a, b, k - 1);
    }
  }

  lemma {:induction false} ShlSum(a: int, b: int, k: nat)
    ensures Shl(a + b, k) == Shl(a, k) + Shl(b, k)
  {
    if k > 0 {
      ShlSum(a, b, k - 1);
    }
  }

  lemma {:induction false} ShlTwice(a: int, j: nat, k: nat)
    ensures Shl(Shl(a, j), k) == Shl(a, j + k)
  {
    if k > 0 {
      ShlTwice(a, j, k - 1);
    }
  }

  lemma {:induction false} ShlZero(k: nat)
    ensures Shl(0, k) == 0
  {
    if k > 0 {
      ShlZero(k - 1);
    }
  }

  lemma {:induction false} ShlTimes(a: int, b: int, k: nat)
    ensures Shl(a * b, k) == a * Shl(b, k)
  {
    if k > 0 {
      ShlTimes(a, b, k - 1);
      MulPull(2, a, Shl(b, k - 1));
    }
  }

  lemma ShlPositive(k: nat)
    ensures Shl(1, k) > 0
  {
    ShlOrder(0, 1, k);
    ShlZero(k);
  }

  /** Shr is the floor of the quotient, Low the remainder. */
  lemma {:induction false} ShrBracket(a: int, k: nat)
    ensures Shl(Shr(a, k), k) <= a < Shl(Shr(a, k) + 1, k)
    ensures 0 <= Low(a, k) < Shl(1, k)
  {
    ShlSum(Shr(a, k), 1, k);
    if k > 0 {
      ShrBracket(a, k - 1);
      var s := Shr(a, k - 1);
      ShlTwice(s / 2, 1, k - 1);
      ShlTwice(1, 1, k - 1);
      assert Shl(s / 2, 1) == 2 * Shl(s / 2, 0) == 2 * (s / 2);
      assert Shl(1, 1) == 2 * Shl(1, 0) == 2;
      ShlSum(2 * (s / 2), s % 2, k - 1);
      ShlSum(1, 1, k - 1);
      ShlZero(k - 1);
      ShlSum(s, 1, k - 1);
      ShlOrder(0, 1, k - 1);
      if s % 2 == 0 {
        assert s == 2 * (s / 2);
      } else {
        assert s == 2 * (s / 2) + 1;
      }
    }
  }

  /** Only one quotient and remainder fit. */
  lemma ShrUnique(a: int, k: nat, q: int, r: int)
    requires a == Shl(q, k) + r && 0 <= r < Shl(1, k)
    ensures Shr(a, k) == q && Low(a, k) == r
  {
    ShrBracket(a, k);
    var q' := Shr(a, k);
    ShlSum(q, 1, k);
    ShlSum(q', 1, k);
    ShlOrder(q', q + 1, k);
    ShlOrder(q, q' + 1, k);
  }

  // ----- bit lengths

  lemma {:induction false} BitLengthBounds(a: nat)
    ensures a < Shl(1, BitLength(a))
    ensures a > 0 ==> BitLength(a) >= 1 && Shl(1, BitLength(a) - 1) <= a
  {
    if a > 0 {
      BitLengthBounds(a / 2);
    }
  }

  lemma {:induction false} BitLengthAtMost(a: nat, k: nat)
    ensures BitLength(a) <= k <==> a < Shl(1, k)
  {
    ShlZero(k);
    ShlPositive(k);
    if a > 0 && k > 0 {
      BitLengthAtMost(a / 2, k - 1);
    }
  }

  lemma BitLengthShr(a: nat, k: nat)
    requires BitLength(a) >= k
    ensures Shr(a, k) >= 0
    ensures BitLength(Shr(a, k)) == BitLength(a) - k
    decreases k
  {
    ShrNat(a, k);
    if k > 0 {
      BitLengthShr(a / 2, k - 1);
      ShrHalved(a, k);
    }
  }

  // ----- the bitwise operators as arithmetic

  /** a & ((1 << k) - 1) keeps the low k bits. */
  lemma {:induction false} AndMask(a: nat, k: nat)
    ensures Shl(1, k) - 1 >= 0
    ensures And(a, Shl(1, k) - 1) == Low(a, k)
  {
    ShlPositive(k);
    if k == 0 {
    } else if a == 0 {
      ShlZero(k);
      ShrUnique(0, k, 0, 0);
    } else {
      AndMask(a / 2, k - 1);
      ShlPositive(k - 1);
      var m := Shl(1, k) - 1;
      assert m / 2 == Shl(1, k - 1) - 1 && m % 2 == 1;
      LowHalved(a, k);
    }
  }

  lemma LowHalved(a: nat, k: nat)
    requires k > 0
    ensures Low(a, k) == 2 * Low(a / 2, k - 1) + a % 2
  {
    var q := Shr(a / 2, k - 1);
    ShrBracket(a / 2, k - 1);
    ShrUnique(a, k, q, 2 * Low(a / 2, k - 1) + a % 2);
  }

  /** (a << k) | b is a sum when b has at most k bits. */
  lemma {:induction false} OrShifted(a: nat, b: nat, k: nat)
    requires b < Shl(1, k)
    ensures Shl(a, k) >= 0
    ensures Or(Shl(a, k), b) == Shl(a, k) + b
  {
    ShlOrder(0, a, k);
    ShlZero(k);
    if k > 0 && b > 0 && a > 0 {
      OrShifted(a, b / 2, k - 1);
    }
  }

  /** a ^ ((a >> k) << k) is the low k bits of a. */
  lemma {:induction false} XorHigh(a: nat, k: nat)
    ensures Shl(Shr(a, k), k) >= 0
    ensures Xor(a, Shl(Shr(a, k), k)) == Low(a, k)
  {
    ShrNat(a, k);
    if k == 0 {
      XorSelf(a);
    } else {
      XorHigh(a / 2, k - 1);
      ShrHalved(a, k);
      LowHalved(a, k);
      var h := Shl(Shr(a, k), k);
      assert h == 2 * Shl(Shr(a / 2, k - 1), k - 1);
    }
  }

  lemma {:induction false} ShrHalved(a: int, k: nat)
    requires k > 0
    ensures Shr(a, k) == Shr(a / 2, k - 1)
  {
    if k > 1 {
      ShrHalved(a, k - 1);
    }
  }

  lemma {:induction false} ShrNat(a: nat, k: nat)
    ensures 0 <= Shr(a, k) <= a && Shl(Shr(a, k), k) >= 0
  {
    ShlOrder(0, Shr(a, k), k);
    ShlOrder(Shr(a, k), 0, k);
    ShlZero(k);
    if k > 0 {
      ShrNat(a, k - 1);
    }
  }

  lemma {:induction false} XorSelf(a: nat)
    ensures Xor(a, a) == 0
  {
    if a > 0 {
      XorSelf(a / 2);
    }
  }
}
