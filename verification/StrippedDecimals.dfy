/** Decimals without trailing zeros, the integers among them, and exact shifts by powers of ten. */
module StrippedDecimals {
  import opened Powers
  import opened DigitStrings
  import opened PythonText
  import opened Decimals
  import opened ExactRounding
  import opened PowerMeaning
  import opened RootTheory

  // ----- trailing zeros

  /** c * 10**e is d, and c does not end in zero. */
  ghost predicate Stripped(d: Decimal, c: nat, e: int) {
    d.Finite? && c > 0 && c % 10 != 0 && e >= d.exp && d.coef == Times10(c, e - d.exp)
  }

  /** while c % 10 == 0: c //= 10; e += 1 */
  method StripZeros(c: int, e: int) returns (c': int, e': int)
    requires c != 0
    ensures c' % 10 != 0 && e' >= e && c == Times10(c', e' - e)
    ensures c > 0 ==> c' > 0
  {
    c', e' := c, e;
    while c' % 10 == 0
      invariant c' != 0 && e' >= e && c == Times10(c', e' - e)
      invariant c > 0 ==> c' > 0
      decreases if c' < 0 then -c' else c'
    {
      Times10Twice(c' / 10, 1, e' - e);
      assert Times10(c' / 10, 1) == c';
      c', e' := c' / 10, e' + 1;
    }
  }

  lemma ShiftedValue(c: int, k: nat, e: int)
    ensures Scale(Times10(c, k) as real, e) == Scale(c as real, k + e)
  {
    ScaleWhole(c, k);
    ScaleTwice(c as real, k, e);
  }

  lemma StrippedMagnitude(d: Decimal, c: nat, e: int)
    requires Stripped(d, c, e)
    ensures Magnitude(d) == Scale(c as real, e)
  {
    ShiftedValue(c, e - d.exp, d.exp);
  }

  // ----- n * 10**e, when that is an integer

  /** len(s) - len(s.rstrip('0')) */
  function TrailingZeros(s: string): nat {
    if s != [] && s[|s| - 1] == '0' then 1 + TrailingZeros(s[..|s| - 1]) else 0
  }

  lemma {:induction false} TrailingZerosOf(n: nat, k: nat)
    requires n > 0
    ensures Pow(10, k) > 0
    ensures TrailingZeros(Digits(n)) >= k <==> n % Pow(10, k) == 0
  {
    PowPositive(10, k);
    if k > 0 {
      var s := Digits(n);
      if n < 10 {
        assert s[|s| - 1] != '0';
        SmallNotDivisible(n, Pow(10, k - 1));
      } else {
        TrailingZerosOf(n / 10, k - 1);
        assert s[..|s| - 1] == Digits(n / 10);
        assert s[|s| - 1] == '0' <==> n % 10 == 0;
        DivTwice(n, 10, Pow(10, k - 1));
        TwoParts(n % 10, n / 10 % Pow(10, k - 1));
      }
    }
  }

  lemma SmallNotDivisible(n: nat, p: nat)
    requires 0 < n < 10 && p > 0
    ensures n % (10 * p) == n
  {
    DivModUnique(n, 10 * p, 0, n);
  }

  lemma TwoParts(r: nat, q: nat)
    requires r < 10
    ensures r + 10 * q == 0 <==> r == 0 && q == 0
  {
  }

  /** _decimal_lshift_exact */
  function LshiftExact(n: int, e: int): Option<int> {
    if n == 0 then Some(0)
    else if e >= 0 then Some(Times10(n, e))
    else
      PowPositive(10, -e);
      if TrailingZeros(Digits(if n < 0 then -n else n)) < -e then None else Some(n / Pow(10, -e))
  }

  lemma ExactQuotient(n: int, k: nat, m: nat)
    requires n == m || n == 0 - m
    ensures Pow(10, k) > 0
    ensures n % Pow(10, k) == 0 <==> m % Pow(10, k) == 0
    ensures n % Pow(10, k) == 0 ==> n == Times10(n / Pow(10, k), k)
    ensures forall r: int :: n == Times10(r, k) ==> n % Pow(10, k) == 0
  {
    PowPositive(10, k);
    var p := Pow(10, k);
    Times10Product(n / p, k);
    DivIdentity(n, p);
    Negated(m, p);
    forall r: int | n == Times10(r, k) ensures n % p == 0 {
      Times10Product(r, k);
      DivModUnique(n, p, r, 0);
    }
  }

  lemma Negated(m: nat, p: nat)
    requires p > 0
    ensures m % p == 0 <==> (0 - m) % p == 0
  {
    if m % p == 0 {
      DivModUnique(0 - m, p, 0 - m / p, 0);
    }
    if (0 - m) % p == 0 {
      DivModUnique(m, p, 0 - (0 - m) / p, 0);
    }
  }

  /** r is n * 10**e. */
  ghost predicate IsScaled(r: int, n: int, e: int) {
    r as real == Scale(n as real, e)
  }

  /** The result is n * 10**e when that is an integer, and None exactly when it is not. */
  lemma LshiftCorrect(n: int, e: int)
    ensures LshiftExact(n, e).Some? ==> IsScaled(LshiftExact(n, e).value, n, e)
    ensures LshiftExact(n, e).None? <==> forall r: int :: !IsScaled(r, n, e)
  {
    if n == 0 {
      ScaleZero(e);
      assert IsScaled(0, n, e);
    } else if e >= 0 {
      ScaleWhole(n, e);
      assert IsScaled(Times10(n, e), n, e);
    } else {
      var m: nat := if n < 0 then 0 - n else n;
      TrailingZerosOf(m, 0 - e);
      ExactQuotient(n, 0 - e, m);
      forall r: int ensures IsScaled(r, n, e) <==> n == Times10(r, 0 - e) {
        LshiftDown(r, n, 0 - e);
      }
      assert LshiftExact(n, e).Some? ==> IsScaled(LshiftExact(n, e).value, n, e);
    }
  }

  lemma LshiftDown(r: int, n: int, k: nat)
    ensures IsScaled(r, n, 0 - k) <==> n == Times10(r, k)
  {
    ScaleWhole(r, k);
    ScaleTwice(n as real, 0 - k, k);
    ScaleOrder(r as real, Scale(n as real, 0 - k), k);
  }

  /** A product scaled by 10**ye is a multiple of yc * 10**ye. */
  lemma ScaledMultiple(e: int, yc: nat, ye: int, r: int, y: real)
    requires IsScaled(r, e * yc, ye) && y == Scale(yc as real, ye)
    ensures Multiple(r, e, y)
  {
    WholeTimes(e, yc);
    ScaleOfProduct(yc as real, e as real, (e * yc) as real, ye);
  }

  // ----- integers among decimals

  /** _isinteger: no digits but zeros after the point */
  predicate IsInteger(d: Decimal)
    requires d.Finite?
  {
    d.exp >= 0
    || (var s := Digits(d.coef); forall i :: 0 <= i < |s| && |s| + d.exp <= i ==> s[i] == '0')
  }

  /** abs(int(d)) */
  function IntPart(d: Decimal): nat
    requires d.Finite?
  {
    if d.exp >= 0 then Times10(d.coef, d.exp)
    else
      PowPositive(10, 0 - d.exp);
      DivPositive(d.coef, Pow(10, 0 - d.exp));
      d.coef / Pow(10, 0 - d.exp)
  }

  lemma {:induction false} ZerosAtEnd(s: string, k: nat)
    ensures TrailingZeros(s) >= k <==> k <= |s| && forall i :: |s| - k <= i < |s| ==> s[i] == '0'
  {
    if k > 0 && s != [] {
      ZerosAtEnd(s[..|s| - 1], k - 1);
      assert forall i :: 0 <= i < |s| - 1 ==> s[i] == s[..|s| - 1][i];
    }
  }

  /** A number that does not end in zero, scaled: an integer exactly when the exponent is not negative. */
  lemma IntegerIff(d: Decimal, c: nat, e: int)
    requires Stripped(d, c, e)
    ensures IsInteger(d) <==> e >= 0
    ensures e >= 0 ==> IntPart(d) == Times10(c, e)
  {
    if d.exp >= 0 {
      Times10Twice(c, e - d.exp, d.exp);
    } else {
      var k: nat := 0 - d.exp;
      DivisibleIff(c, e - d.exp, k);
      IntegerByDigits(d, k);
      if e >= 0 {
        WholePart(d.coef, c, e, k);
      }
    }
  }

  lemma WholePart(n: nat, c: nat, e: nat, k: nat)
    requires n == Times10(c, e + k)
    ensures Pow(10, k) > 0 && n / Pow(10, k) == Times10(c, e)
  {
    Times10Twice(c, e, k);
    Times10Divides(Times10(c, e), k);
  }

  lemma IntegerByDigits(d: Decimal, k: nat)
    requires d.Finite? && d.coef > 0 && k > 0 && d.exp == 0 - k
    ensures Pow(10, k) > 0
    ensures IsInteger(d) <==> d.coef % Pow(10, k) == 0
  {
    TrailingZerosOf(d.coef, k);
    ZerosAtEnd(Digits(d.coef), k);
    EndOfDigits(d.coef, k);
  }

  lemma EndOfDigits(n: nat, k: nat)
    requires n > 0
    ensures var s := Digits(n);
            (k <= |s| && forall i :: |s| - k <= i < |s| ==> s[i] == '0')
            <==> forall i :: 0 <= i < |s| && |s| - k <= i ==> s[i] == '0'
  {
    DigitsShape(n);
  }

  lemma EnoughZeros(c: nat, j: nat, k: nat)
    requires j >= k
    ensures Pow(10, k) > 0 && Times10(c, j) % Pow(10, k) == 0
  {
    Times10Twice(c, j - k, k);
    Times10Divides(Times10(c, j - k), k);
  }

  lemma TooFewZeros(c: nat, j: nat, k: nat)
    requires c % 10 != 0 && j < k
    ensures Pow(10, k) > 0 && Times10(c, j) % Pow(10, k) != 0
  {
    var n := Times10(c, j);
    Times10Divides(n, k);
    if n == Times10(n / Pow(10, k), k) {
      EndsInZero(c, j, n / Pow(10, k), k);
    }
  }

  /** c * 10**j is divisible by 10**k exactly if j >= k, when c does not end in zero. */
  lemma DivisibleIff(c: nat, j: nat, k: nat)
    requires c % 10 != 0
    ensures Pow(10, k) > 0
    ensures Times10(c, j) % Pow(10, k) == 0 <==> j >= k
  {
    if j >= k {
      EnoughZeros(c, j, k);
    } else {
      TooFewZeros(c, j, k);
    }
  }

  lemma EndsInZero(c: nat, j: nat, t: nat, k: nat)
    requires Times10(c, j) == Times10(t, k) && j < k
    ensures c % 10 == 0
  {
    Times10Twice(t, k - j, j);
    Times10Injective(c, Times10(t, k - j), j);
    TenfoldEndsInZero(Times10(t, k - j - 1));
  }

  lemma TenfoldEndsInZero(u: int)
    ensures (10 * u) % 10 == 0
  {
  }

  lemma {:induction false} Times10Injective(a: int, b: int, k: nat)
    requires Times10(a, k) == Times10(b, k)
    ensures a == b
  {
    if k > 0 {
      Times10Injective(a, b, k - 1);
    }
  }

  lemma PlainRatio(y: Decimal, yc: nat, ye: int)
    requires Stripped(y, yc, ye)
    ensures ye >= 0 ==> IsRatio(Magnitude(y), Times10(yc, ye), 1)
    ensures ye < 0 ==> Pow(10, 0 - ye) > 0 && IsRatio(Magnitude(y), yc, Pow(10, 0 - ye))
  {
    StrippedMagnitude(y, yc, ye);
    if ye >= 0 {
      ScaleWhole(yc, ye);
    } else {
      PowPositive(10, 0 - ye);
      DownRatio(yc, 0 - ye, Pow(10, 0 - ye));
    }
  }

  lemma DownRatio(yc: nat, k: nat, t: nat)
    requires t == Pow(10, k) && t > 0
    ensures IsRatio(Scale(yc as real, 0 - k), yc, t)
  {
    Times10One(k);
    ScaleWhole(1, k);
    ScaleProduct(yc as real, 1.0, yc as real, 0 - k, k);
  }

  // ----- numbers that do not end in zero

  /** A power of a number that does not end in zero does not either. */
  lemma PowNotTenfold(b: nat, m: nat)
    requires b % 10 != 0
    ensures Pow(b, m) % 10 != 0
  {
    TenfoldParts(b);
    TenfoldParts(Pow(b, m));
    if b % 2 != 0 {
      PowNotMultiple(b, 2, m);
    } else {
      PowNotMultiple(b, 5, m);
    }
  }

  lemma TenfoldParts(c: nat)
    ensures c % 10 == 0 <==> c % 2 == 0 && c % 5 == 0
  {
    var q, r, a, b := c / 10, c % 10, c / 2, c / 5;
    assert c == 10 * q + r;
    if c % 2 == 0 && c % 5 == 0 {
      assert r == 2 * (a - 5 * q) && r == 5 * (b - 2 * q);
    }
  }

  lemma TenfoldPower(b: nat, m: nat)
    requires b % 10 == 0 && m > 0
    ensures Pow(b, m) % 10 == 0
  {
    var h, q := b / 10, Pow(b, m - 1);
    assert b * q == 10 * (h * q);
  }

  /** A decimal equal to c * 10**e, where c does not end in zero, has at least the digits of c. */
  lemma LeastCoef(d: nat, f: int, c: nat, e: int)
    requires Scale(d as real, f) == Scale(c as real, e) && c % 10 != 0
    ensures d >= c
  {
    if f <= e {
      ShiftedValue(c, e - f, f);
      ScaleOrder(d as real, Times10(c, e - f) as real, f);
    } else {
      ShiftedValue(d, f - e, e);
      ScaleOrder(c as real, Times10(d, f - e) as real, e);
      TenfoldEndsInZero(Times10(d, f - e - 1));
    }
  }
}
