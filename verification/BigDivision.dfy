/** Recursive division of big integers after Burnikel and Ziegler. */
module BigDivision {
  import opened Powers
  import opened Bits

  /** The quotient and remainder of a by b > 0 */
  predicate Divides(a: int, b: int, q: int, r: int) {
    a == b * q + r && 0 <= r < b
  }

  /** Two steps of a division in base 2**h are one step in base 2**2h. */
  lemma TwoSteps(b: int, h: nat, a1: int, a2: int, q1: int, r1: int, q2: int, r2: int)
    requires a1 == b * q1 + r1
    requires Shl(r1, h) + a2 == b * q2 + r2
    ensures Shl(a1, h) + a2 == b * (Shl(q1, h) + q2) + r2
  {
    ShlSum(b * q1, r1, h);
    ShlTimes(b, q1, h);
    assert b * (Shl(q1, h) + q2) == b * Shl(q1, h) + b * q2;
  }

  lemma {:induction false} ShrTwice(a: int, j: nat, k: nat)
    ensures Shr(Shr(a, j), k) == Shr(a, j + k)
  {
    if k > 0 {
      ShrTwice(a, j, k - 1);
    }
  }

  /**
   Divides a, of at most 2n bits, by b, of exactly n bits: directly when the quotient has at most
   limit bits, and otherwise in two steps of half the size.
   */
  method Div2n1n(a: nat, b: nat, n: nat, limit: nat) returns (q: nat, r: nat)
    requires n > 0 && BitLength(b) == n && a < Shl(b, n)
    ensures Divides(a, b, q, r)
    decreases n, 0
  {
    if BitLength(a) - n <= limit {
      Direct(a, b);
      return a / b, a % b;
    }
    OneBitIsDirect(a, b, n);
    var a', b', n' := a, b, n;
    var pad := n % 2 == 1;
    if pad {
      PadOne(a, b, n);
      a', b', n' := Shl(a, 1), Shl(b, 1), n + 1;
    }
    q, r := DivHalves(a', b', n' / 2, limit);
    if pad {
      Unpad(a, b, q, r);
      r := Shr(r, 1);
    }
  }

  lemma Direct(a: nat, b: nat)
    requires BitLength(b) > 0
    ensures b > 0 && a / b >= 0 && Divides(a, b, a / b, a % b)
  {
    DivPositive(a, b);
    DivIdentity(a, b);
    SwapFactors(a / b, b);
  }

  lemma SwapFactors(x: int, y: int)
    ensures x * y == y * x
  {
  }

  /** The two recursive steps, on operands of an even number of bits */
  method DivHalves(a: nat, b: nat, half: nat, limit: nat) returns (q: nat, r: nat)
    requires half > 0 && BitLength(b) == 2 * half && a < Shl(b, 2 * half)
    ensures Divides(a, b, q, r)
    decreases half, 3
  {
    CutDivisor(b, half);
    CutDividend(a, b, half);
    var mask := Shl(1, half) - 1;
    var b1, b2 := Shr(b, half), And(b, mask);
    var q1, r1, _ := Div3n2n(Shr(a, 2 * half), And(Shr(a, half), mask), b, b1, b2, half, limit);
    var q2, r2, _ := Div3n2n(r1, And(a, mask), b, b1, b2, half, limit);
    TwoSteps(b, half, Shr(a, half), Low(a, half), q1, r1, q2, r2);
    OrShifted(q1, q2, half);
    q, r := Or(Shl(q1, half), q2), r2;
  }

  lemma CutDivisor(b: nat, h: nat)
    requires h > 0 && BitLength(b) == 2 * h
    ensures Shl(1, h) - 1 >= 0 && Shr(b, h) >= 0
    ensures And(b, Shl(1, h) - 1) < Shl(1, h) && BitLength(Shr(b, h)) == h
    ensures b == Shl(Shr(b, h), h) + And(b, Shl(1, h) - 1)
  {
    AndMask(b, h);
    ShrBracket(b, h);
    BitLengthShr(b, h);
  }

  lemma CutDividend(a: nat, b: nat, h: nat)
    requires h > 0 && a < Shl(b, 2 * h)
    ensures Shl(1, h) - 1 >= 0 && Shr(a, 2 * h) >= 0 && Shr(a, h) >= 0
    ensures Shr(a, 2 * h) < b
    ensures And(a, Shl(1, h) - 1) == Low(a, h) < Shl(1, h) && a == Shl(Shr(a, h), h) + Low(a, h)
    ensures And(Shr(a, h), Shl(1, h) - 1) < Shl(1, h)
    ensures Shr(a, h) == Shl(Shr(a, 2 * h), h) + And(Shr(a, h), Shl(1, h) - 1)
  {
    ShrNat(a, 2 * h);
    ShrNat(a, h);
    ShrBracket(a, 2 * h);
    ShlOrder(b, Shr(a, 2 * h), 2 * h);
    ShrTwice(a, h, h);
    AndMask(a, h);
    AndMask(Shr(a, h), h);
    ShrBracket(a, h);
    ShrBracket(Shr(a, h), h);
  }

  /** A dividend of at most 2n bits over n = 1 bit never reaches the recursion. */
  lemma OneBitIsDirect(a: nat, b: nat, n: nat)
    requires n > 0 && BitLength(b) == n && a < Shl(b, n) && BitLength(a) > n
    ensures n >= 2
  {
    if n == 1 {
      assert b == 1;
      assert Shl(1, 1) == 2;
      BitLengthAtMost(a, 1);
    }
  }

  lemma PadOne(a: nat, b: nat, n: nat)
    requires a < Shl(b, n) && BitLength(b) == n && n > 0
    ensures Shl(a, 1) == 2 * a && Shl(b, 1) == 2 * b
    ensures 2 * a < Shl(2 * b, n + 1) && BitLength(2 * b) == n + 1
  {
    assert Shl(a, 1) == 2 * Shl(a, 0);
    assert Shl(b, 1) == 2 * Shl(b, 0);
    ShlSum(b, b, n);
    ShlOrder(0, b, n);
    ShlZero(n);
  }

  lemma Unpad(a: nat, b: nat, q: nat, r: nat)
    requires Divides(2 * a, 2 * b, q, r)
    ensures Shr(r, 1) >= 0 && Divides(a, b, q, Shr(r, 1))
  {
    assert Shr(r, 1) == Shr(r, 0) / 2 == r / 2;
    assert 2 * b * q == 2 * (b * q);
  }

  /** The estimate of the quotient from the leading halves is never below the quotient. */
  lemma EstimateFits(a12: nat, a3: nat, b: nat, b1: nat, b2: nat, n: nat, q: nat, r: int)
    requires b == Shl(b1, n) + b2 && 0 <= b2 && a12 == b1 * q + r
    ensures Shl(a12, n) + a3 == b * q + (Shl(r, n) + a3 - q * b2)
  {
    var q1 := q * b1;
    assert a12 == q1 + r;
    ShlSum(q1, r, n);
    ShlTimes(q, b1, n);
    SplitDivisor(Shl(b1, n), b2, q);
  }

  lemma SplitDivisor(x: int, y: int, q: int)
    ensures (x + y) * q == q * x + q * y
  {
  }

  /** It is at most two too large. */
  lemma EstimateWithinTwo(b: nat, b1: nat, b2: nat, n: nat, q: nat)
    requires n > 0 && BitLength(b1) == n && b == Shl(b1, n) + b2 && b2 < Shl(1, n) && q < Shl(1, n)
    ensures q * b2 < 2 * b
  {
    assert q * b2 <= Shl(b2, n) by {
      MulMonotone(b2, q, Shl(1, n));
      ShlTimes(b2, 1, n);
      assert b2 * 1 == b2;
    }
    BitLengthBounds(b1);
    ShlOrder(b2, Shl(1, n), n);
    ShlOrder(Shl(1, n - 1), b1, n);
    ShlSum(Shl(1, n - 1), Shl(1, n - 1), n);
    assert Shl(1, n) == Shl(1, n - 1) + Shl(1, n - 1);
  }

  /** When the leading half of the dividend equals that of the divisor, the estimate is all ones. */
  lemma AllOnes(a12: nat, a3: nat, b: nat, b1: nat, b2: nat, n: nat)
    requires b == Shl(b1, n) + b2 && a12 < b && Shr(a12, n) == b1 && a3 < Shl(1, n)
    ensures a12 - Shl(b1, n) >= 0 && Shl(1, n) >= 1
    ensures a12 == b1 * (Shl(1, n) - 1) + (a12 - Shl(b1, n) + b1)
    ensures Shl(a12 - Shl(b1, n) + b1, n) + a3 - (Shl(1, n) - 1) * b2 < b
  {
    ShrBracket(a12, n);
    ShlTimes(b1, 1, n);
    ShlPositive(n);
    var low := a12 - Shl(b1, n);
    ShlSum(low, b1, n);
    assert low <= b2 - 1;
    ShlOrder(b2 - 1, low, n);
    ShlTimes(b2, 1, n);
    ShlSum(b2 - 1, 1, n);
    OneLess(Shl(1, n), b2);
    OneLess(Shl(1, n), b1);
  }

  lemma OneLess(p: int, b: int)
    ensures (p - 1) * b == b * p - b == b * (p - 1)
    ensures b * 1 == b
  {
  }

  /** A dividend below b1 * 2**n leaves, after the estimate, less than b. */
  lemma BelowDivisor(b: nat, b1: nat, b2: nat, n: nat, q: nat, r: nat, a3: nat)
    requires b == Shl(b1, n) + b2 && r < b1 && a3 < Shl(1, n)
    ensures Shl(r, n) + a3 - q * b2 < b
  {
    ShlSum(r, 1, n);
    ShlOrder(b1, r + 1, n);
    MulMonotone(q, 0, b2);
  }

  lemma QuotientBelow(a: int, b: nat, q: int, r: int, m: nat)
    requires Divides(a, b, q, r) && 0 <= a < b * m
    ensures 0 <= q < m
  {
    if q < 0 {
      MulMonotone(b, q, -1);
    }
    if q >= m {
      MulMonotone(b, m, q);
    }
  }

  lemma DividendBelow(a12: nat, a3: nat, b: nat, n: nat)
    requires a12 < b && a3 < Shl(1, n)
    ensures 0 <= Shl(a12, n) + a3 < b * Shl(1, n)
  {
    ShlSum(a12, 1, n);
    ShlOrder(b, a12 + 1, n);
    ShlTimes(b, 1, n);
    ShlOrder(a12, 0, n);
    ShlZero(n);
  }

  /**
   Divides the number with high part a12 and low n bits a3 by b = b1 * 2**n + b2, when a12 < b.
   The quotient estimated from b1 alone is corrected at most twice.
   */
  method Div3n2n(a12: nat, a3: nat, b: nat, b1: nat, b2: nat, n: nat, limit: nat)
    returns (q: nat, r: nat, ghost corrections: nat)
    requires n > 0 && BitLength(b1) == n && b == Shl(b1, n) + b2 && b2 < Shl(1, n)
    requires a12 < b && a3 < Shl(1, n)
    ensures Divides(Shl(a12, n) + a3, b, q, r)
    ensures q < Shl(1, n)
    ensures corrections <= 2
    decreases n, 2
  {
    var q', r' := Estimate(a12, a3, b, b1, b2, n, limit);
    EstimateWithinTwo(b, b1, b2, n, q');
    DividendBelow(a12, a3, b, n);
    q, r, corrections := Correct(Shl(a12, n) + a3, b, q', r');
    QuotientBelow(Shl(a12, n) + a3, b, q, r, Shl(1, n));
  }

  /** Takes one divisor at a time off an estimate that is at most two too large. */
  method Correct(ghost a: nat, b: nat, estimate: nat, rest: int) returns (q: nat, r: nat, ghost corrections: nat)
    requires a == b * estimate + rest && -2 * b <= rest < b
    ensures Divides(a, b, q, r)
    ensures corrections <= 2
  {
    var q', r' := estimate, rest;
    corrections := 0;
    while r' < 0
      invariant a == b * q' + r' && r' < b
      invariant corrections <= 2
      invariant corrections == 0 ==> r' >= -2 * b
      invariant corrections == 1 ==> r' >= 0 - b
      invariant corrections == 2 ==> r' >= 0
      decreases -r'
    {
      assert b * (q' - 1) == b * q' - b;
      q', r' := q' - 1, r' + b;
      corrections := corrections + 1;
    }
    NonnegativeQuotient(a, b, q', r');
    q, r := q', r';
  }

  lemma NonnegativeQuotient(a: nat, b: nat, q: int, r: nat)
    requires Divides(a, b, q, r)
    ensures q >= 0
  {
    if q < 0 {
      MulMonotone(b, q, -1);
    }
  }

  /** The quotient estimated from the leading halves, and what it leaves */
  method Estimate(a12: nat, a3: nat, b: nat, b1: nat, b2: nat, n: nat, limit: nat) returns (q: nat, r: int)
    requires n > 0 && BitLength(b1) == n && b == Shl(b1, n) + b2 && b2 < Shl(1, n)
    requires a12 < b && a3 < Shl(1, n)
    ensures Shl(a12, n) + a3 == b * q + r && -(q * b2) <= r < b
    ensures q < Shl(1, n)
    decreases n, 1
  {
    ShlPositive(n);
    var r0: nat;
    if Shr(a12, n) == b1 {
      AllOnes(a12, a3, b, b1, b2, n);
      q, r0 := Shl(1, n) - 1, a12 - Shl(b1, n) + b1;
    } else {
      LeadingBelow(a12, b, b1, b2, n);
      q, r0 := Div2n1n(a12, b1, n, limit);
      EstimateSmall(a12, b1, n, q, r0);
      BelowDivisor(b, b1, b2, n, q, r0, a3);
    }
    EstimateFits(a12, a3, b, b1, b2, n, q, r0);
    OrShifted(r0, a3, n);
    r := Or(Shl(r0, n), a3) - q * b2;
  }

  lemma LeadingBelow(a12: nat, b: nat, b1: nat, b2: nat, n: nat)
    requires b == Shl(b1, n) + b2 && b2 < Shl(1, n) && a12 < b && Shr(a12, n) != b1
    ensures a12 < Shl(b1, n)
  {
    ShlSum(b1, 1, n);
    ShrBracket(a12, n);
    ShlOrder(Shr(a12, n), b1 + 1, n);
    ShlOrder(b1, Shr(a12, n) + 1, n);
  }

  lemma EstimateSmall(a12: nat, b1: nat, n: nat, q: nat, r: nat)
    requires Divides(a12, b1, q, r) && a12 < Shl(b1, n)
    ensures q < Shl(1, n)
  {
    ShlTimes(b1, 1, n);
    ShlPositive(n);
    QuotientBelow(a12, b1, q, r, Shl(1, n));
  }
}
