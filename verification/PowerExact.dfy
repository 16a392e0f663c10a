/**
 Exact powers.  For a positive x other than 1 and a nonzero y the method below finds x**y with at most
 p digits, and gives up exactly when no decimal of at most p digits is that power.
 */
module PowerExact {
  import opened Powers
  import opened DigitStrings
  import opened PythonText
  import opened Bits
  import opened Decimals
  import opened ExactRounding
  import opened IntegerRoots
  import opened PrimePowers
  import opened PowerMeaning
  import opened StrippedDecimals
  import opened RootTheory
  import opened PowerLimits

  // ----- the pieces of the result

  /** A result within p digits, positive, and the power */
  ghost predicate Exact(v: Decimal, x: Decimal, y: Decimal, p: nat)
    requires x.Finite? && y.Finite?
  {
    v.Finite? && !v.neg && v.coef > 0 && NumDigits(v.coef) <= p && IsPower(v, x, y)
  }

  /** As close to the ideal exponent as p digits allow */
  ghost predicate NearIdeal(v: Decimal, x: Decimal, y: Decimal, p: nat)
    requires v.Finite? && x.Finite? && y.Finite?
  {
    v.exp >= x.exp * IntPart(y) && (v.exp == x.exp * IntPart(y) || NumDigits(v.coef) == p)
  }

  /** Zeros appended to the coefficient leave the power what it is. */
  lemma PaddedPower(c: nat, e: int, z: nat, x: Decimal, y: Decimal)
    requires x.Finite? && y.Finite? && c > 0 && IsPower(Finite(false, c, e), x, y)
    ensures Times10(c, z) > 0 && NumDigits(Times10(c, z)) == NumDigits(c) + z
    ensures IsPower(Finite(false, Times10(c, z), e - z), x, y)
  {
    NumDigitsShift(c, z);
    MagnitudeShift(false, c, e, z);
  }

  lemma TenIsPower(v: Decimal, x: Decimal, y: Decimal, xe: int, exponent: int)
    requires x.Finite? && y.Finite? && Magnitude(x) == TenTo(xe) && Multiple(exponent, xe, Magnitude(y))
    requires v == Finite(false, 1, if y.neg then 0 - exponent else exponent)
    ensures IsPower(v, x, y)
  {
    forall m: nat, n: nat | IsRatio(Magnitude(y), m, n) ensures PowerAt(Magnitude(v), Magnitude(x), m, n, y.neg) {
      TenAt(xe, exponent, Magnitude(y), m, n, y.neg);
    }
  }

  lemma CofactorIsPower(v: Decimal, x: Decimal, y: Decimal, a: nat, b: nat, e: nat, e': nat, xe: int, xe': int)
    requires x.Finite? && y.Finite? && y.neg && a * b == 10 && Magnitude(x) == Scale(Pow(a, e) as real, xe)
    requires Multiple(e', e, Magnitude(y)) && Multiple(xe', xe, Magnitude(y))
    requires v == Finite(false, Pow(b, e'), 0 - e' - xe')
    ensures IsPower(v, x, y)
  {
    forall m: nat, n: nat | IsRatio(Magnitude(y), m, n) ensures PowerAt(Magnitude(v), Magnitude(x), m, n, true) {
      CofactorAt(Magnitude(v), Magnitude(x), a, b, e, e', xe, xe', Magnitude(y), m, n);
    }
  }

  lemma RootIsPower(v: Decimal, x: Decimal, y: Decimal, r: nat, xe: int, m1: nat, n1: nat)
    requires x.Finite? && y.Finite? && !y.neg && IsRatio(Magnitude(y), m1, n1)
    requires Magnitude(x) == Scale(Pow(r, n1) as real, xe * n1) && v == Finite(false, Pow(r, m1), xe * m1)
    ensures IsPower(v, x, y)
  {
    forall m: nat, n: nat | IsRatio(Magnitude(y), m, n) ensures PowerAt(Magnitude(v), Magnitude(x), m, n, false) {
      RootAt(r, xe, m1, n1, Magnitude(y), m, n);
    }
  }

  // ----- powers of ten

  /** The branch for xc == 1: x is 10**xe */
  method UnitPower(x: Decimal, y: Decimal, p: nat, xe0: int, yc: nat, ye0: int) returns (r: Option<Decimal>)
    requires Stripped(x, 1, xe0) && Stripped(y, yc, ye0) && xe0 != 0 && p >= 1
    ensures r.Some? ==> Exact(r.value, x, y, p)
    ensures r.Some? && (y.neg || !IsInteger(y)) ==> r.value.coef % 10 != 0
    ensures r.Some? && !y.neg && IsInteger(y) ==> NearIdeal(r.value, x, y, p)
    ensures r.None? ==> Unrepresentable(x, y, p)
  {
    NotZero(xe0, yc);
    var xe, ye := StripZeros(xe0 * yc, ye0);
    IntegerIff(y, yc, ye0);
    if ye < 0 {
      forall v: Decimal | v.Finite? ensures !IsPower(v, x, y) {
        UnitImpossible(v, x, y, xe0, yc, ye0, xe, ye);
      }
      return None;
    }
    var exponent := Times10(xe, ye);
    if y.neg {
      exponent := -exponent;
    }
    UnitFound(x, y, xe0, yc, ye0, xe, ye, exponent);
    var zeros: nat := 0;
    if !y.neg && IsInteger(y) {
      UnitIdeal(x, y, xe0, yc, ye0, xe, ye);
      zeros := Min(exponent - x.exp * IntPart(y), p - 1);
    }
    PaddedPower(1, exponent, zeros, x, y);
    r := Some(Finite(false, Times10(1, zeros), exponent - zeros));
  }

  lemma UnitFound(x: Decimal, y: Decimal, xe0: int, yc: nat, ye0: int, xe: int, ye: int, e: int)
    requires Stripped(x, 1, xe0) && Stripped(y, yc, ye0) && ye >= ye0 && ye >= 0 && xe0 * yc == Times10(xe, ye - ye0)
    requires e == if y.neg then 0 - Times10(xe, ye) else Times10(xe, ye)
    ensures IsPower(Finite(false, 1, e), x, y)
  {
    var t := Times10(xe, ye);
    UnitScaled(y, xe0, yc, ye0, xe, ye, xe0 * yc, t);
    StrippedMagnitude(x, 1, xe0);
    TenIsPower(Finite(false, 1, e), x, y, xe0, t);
  }

  lemma UnitScaled(y: Decimal, xe0: int, yc: nat, ye0: int, xe: int, ye: int, n: int, t: int)
    requires Stripped(y, yc, ye0) && ye >= ye0 && ye >= 0
    requires n == xe0 * yc && n == Times10(xe, ye - ye0) && t == Times10(xe, ye)
    ensures Multiple(t, xe0, Magnitude(y))
  {
    StrippedMagnitude(y, yc, ye0);
    ScaledExponent(xe0, yc, ye0, n, xe, ye - ye0, Magnitude(y));
  }

  lemma ScaledExponent(e: int, yc: nat, ye: int, n: int, c: int, k: nat, y: real)
    requires n == e * yc && n == Times10(c, k) && ye + k >= 0 && y == Scale(yc as real, ye)
    ensures Multiple(Times10(c, ye + k), e, y)
  {
    Rescaled(n, ye, c, k);
    ScaledMultiple(e, yc, ye, Times10(c, ye + k), y);
  }

  lemma Rescaled(n: int, e: int, c: int, k: nat)
    requires n == Times10(c, k) && e + k >= 0
    ensures IsScaled(Times10(c, e + k), n, e)
  {
    ShiftedValue(c, k, e);
    ScaleWhole(c, e + k);
  }

  /** For an integer y the exponent is not below the ideal one. */
  lemma UnitIdeal(x: Decimal, y: Decimal, xe0: int, yc: nat, ye0: int, xe: int, ye: int)
    requires Stripped(x, 1, xe0) && Stripped(y, yc, ye0) && ye >= ye0 >= 0 && xe0 * yc == Times10(xe, ye - ye0)
    ensures Times10(xe, ye) >= x.exp * IntPart(y)
  {
    IntegerIff(y, yc, ye0);
    Times10Twice(xe, ye - ye0, ye0);
    Times10Product(xe0 * yc, ye0);
    Times10Product(yc, ye0);
    var t := Pow(10, ye0);
    MulAssociate(xe0, yc, t);
    MulMonotone(IntPart(y), x.exp, xe0);
    MulCommute(IntPart(y), x.exp);
    MulCommute(IntPart(y), xe0);
  }

  // ----- negative exponents

  lemma LshiftPositive(n: nat, e: int)
    requires LshiftExact(n, e).Some?
    ensures LshiftExact(n, e).value >= 0
  {
    if e < 0 {
      PowPositive(10, -e);
      DivPositive(n, Pow(10, -e));
    }
  }

  lemma ScaledBy(y: real, yc: nat, ye: int, e: int, n: int, r: Option<int>)
    requires y == Scale(yc as real, ye) && n == e * yc && r == LshiftExact(n, ye) && r.Some?
    ensures Multiple(r.value, e, y)
  {
    LshiftCorrect(n, ye);
    ScaledMultiple(e, yc, ye, r.value, y);
  }

  lemma ScaledByExponent(y: Decimal, yc: nat, ye: int, e: int, n: int, r: Option<int>)
    requires Stripped(y, yc, ye) && n == e * yc && r == LshiftExact(n, ye) && r.Some?
    ensures Multiple(r.value, e, Magnitude(y))
  {
    ScaledBy(Scale(yc as real, ye), yc, ye, e, n, r);
    StrippedMagnitude(y, yc, ye);
  }

  lemma InvertedFound(x: Decimal, y: Decimal, a: nat, b: nat, e: nat, xe: int, up: nat, shift: int)
    requires a * b == 10 && Stripped(x, Pow(a, e), xe) && y.Finite? && y.neg
    requires Multiple(up, e, Magnitude(y)) && Multiple(shift, xe, Magnitude(y))
    ensures IsPower(Finite(false, Pow(b, up), 0 - up - shift), x, y)
  {
    StrippedMagnitude(x, Pow(a, e), xe);
    CofactorIsPower(Finite(false, Pow(b, up), 0 - up - shift), x, y, a, b, e, up, xe, shift);
  }

  /** Beyond emax, b to that power has more than p digits. */
  ghost predicate EmaxSuffices(b: nat, p: nat, emax: nat) {
    forall s: nat :: s > emax ==> Pow(b, s) >= Pow(10, p)
  }

  lemma EmaxFive(p: nat, emax: nat)
    requires emax == p * 93 / 65
    ensures EmaxSuffices(5, p, emax)
  {
    SixtyFiveBits();
    forall s: nat | s > emax ensures Pow(5, s) >= Pow(10, p) {
      BeyondEmax(2, 5, 65, 28, p, s);
    }
  }

  lemma EmaxTwo(p: nat, emax: nat)
    requires emax == p * 10 / 3
    ensures EmaxSuffices(2, p, emax)
  {
    assert Pow(5, 3) == 125 && Pow(2, 7) == 128;
    forall s: nat | s > emax ensures Pow(2, s) >= Pow(10, p) {
      BeyondEmax(5, 2, 3, 7, p, s);
    }
  }

  lemma GuardBeyond(n: nat, ye: int, emax: nat)
    requires n >= 1 && ye >= NumDigits(emax)
    ensures LshiftExact(n, ye).Some? && LshiftExact(n, ye).value > emax
  {
    NumDigitsBounds(emax);
    PowMonotone(10, NumDigits(emax), ye);
    Times10AtLeast(n, ye);
  }

  lemma {:induction false} Times10AtLeast(n: nat, k: nat)
    requires n >= 1
    ensures Times10(n, k) >= Pow(10, k)
  {
    if k > 0 {
      Times10AtLeast(n, k - 1);
    }
  }

  /** Giving up is right when an exact shift is missing or the power of b is too long. */
  lemma InvertedGivesUp(x: Decimal, y: Decimal, p: nat, a: nat, b: nat, e: nat, xe: int, yc: nat, ye: int,
                        up: Option<int>)
    requires Cofactors(a, b) && e > 0 && Stripped(x, Pow(a, e), xe) && Stripped(y, yc, ye) && y.neg
    requires up == LshiftExact(e * yc, ye)
    requires up.None? || LshiftExact(xe * yc, ye).None? || (up.value >= 0 && Pow(b, up.value) >= Pow(10, p))
    ensures Unrepresentable(x, y, p)
  {
    forall v: Decimal | v.Finite? && IsPower(v, x, y) ensures NumDigits(v.coef) > p {
      var s, t := InvertedForced(v, x, y, a, b, e, xe, yc, ye);
      ManyDigits(v.coef, p);
    }
  }

  /** The part the branches for powers of two and of five share: x is a**e * 10**xe, and a*b is 10. */
  method Inverted(x: Decimal, y: Decimal, p: nat, a: nat, b: nat, e: nat, xe: int, yc: nat, ye: int, emax: nat)
    returns (r: Option<Decimal>)
    requires Cofactors(a, b) && e > 0 && Stripped(x, Pow(a, e), xe) && Stripped(y, yc, ye) && y.neg && p >= 1
    requires EmaxSuffices(b, p, emax)
    ensures r.Some? ==> Exact(r.value, x, y, p)
    ensures r.Some? ==> r.value.coef % 10 != 0
    ensures r.None? ==> Unrepresentable(x, y, p)
  {
    MulMonotone(e, 1, yc);
    DigitsShape(emax);
    if ye >= |Digits(emax)| {
      GuardBeyond(e * yc, ye, emax);
      InvertedGivesUp(x, y, p, a, b, e, xe, yc, ye, LshiftExact(e * yc, ye));
      return None;
    }
    var up, shift := LshiftExact(e * yc, ye), LshiftExact(xe * yc, ye);
    if up.None? || shift.None? {
      InvertedGivesUp(x, y, p, a, b, e, xe, yc, ye, up);
      return None;
    }
    LshiftPositive(e * yc, ye);
    if up.value > emax {
      InvertedGivesUp(x, y, p, a, b, e, xe, yc, ye, up);
      return None;
    }
    var c := Pow(b, up.value);
    if c >= Pow(10, p) {
      InvertedGivesUp(x, y, p, a, b, e, xe, yc, ye, up);
      return None;
    }
    ScaledByExponent(y, yc, ye, e, e * yc, up);
    ScaledByExponent(y, yc, ye, xe, xe * yc, shift);
    InvertedFound(x, y, a, b, e, xe, up.value, shift.value);
    PowPositive(b, up.value);
    PowNotTenfold(b, up.value);
    FewDigits(c, p);
    r := Some(Finite(false, c, 0 - up.value - shift.value));
  }

  /** What the last digit tells about powers of two and of five */
  lemma LastDigit(xc: nat)
    requires xc > 1 && xc % 10 != 0
    ensures xc % 10 in {2, 4, 6, 8} ==> forall e: nat :: xc != Pow(5, e)
    ensures xc % 10 == 5 ==> forall e: nat :: xc != Pow(2, e)
    ensures xc % 10 !in {2, 4, 5, 6, 8} ==> forall e: nat :: xc != Pow(2, e) && xc != Pow(5, e)
  {
    forall e: nat ensures xc == Pow(5, e) ==> xc % 5 == 0 && xc % 2 != 0 {
      PowNotMultiple(5, 2, e);
      assert e > 0 ==> Pow(5, e) == 5 * Pow(5, e - 1);
    }
    forall e: nat ensures xc == Pow(2, e) ==> xc % 2 == 0 && xc % 5 != 0 {
      PowNotMultiple(2, 5, e);
      assert e > 0 ==> Pow(2, e) == 2 * Pow(2, e - 1);
    }
    LastDigitParts(xc);
  }

  lemma LastDigitParts(xc: nat)
    ensures xc % 2 == xc % 10 % 2 && xc % 5 == xc % 10 % 5
  {
    var q, r := xc / 10, xc % 10;
    DivModUnique(xc, 2, 5 * q + r / 2, r % 2);
    DivModUnique(xc, 5, 2 * q + r / 5, r % 5);
  }

  /** The branch for a negative y: xc must be a power of two or of five. */
  method NegativePower(x: Decimal, y: Decimal, p: nat, xc: nat, xe: int, yc: nat, ye: int) returns (r: Option<Decimal>)
    requires Stripped(x, xc, xe) && Stripped(y, yc, ye) && y.neg && xc > 1 && p >= 1
    ensures r.Some? ==> Exact(r.value, x, y, p)
    ensures r.Some? ==> r.value.coef % 10 != 0
    ensures r.None? ==> Unrepresentable(x, y, p)
  {
    var last := xc % 10;
    LastDigit(xc);
    if last == 2 || last == 4 || last == 6 || last == 8 {
      PowerOfTwoTest(xc);
      if AndInt(xc, 0 - xc) != xc {
        NotPowerOfTwo(xc);
        NoInverse(x, y, p, xc, xe, yc, ye);
        return None;
      }
      EmaxFive(p, p * 93 / 65);
      r := Inverted(x, y, p, 2, 5, BitLength(xc) - 1, xe, yc, ye, p * 93 / 65);
    } else if last == 5 {
      var k := PowerOfFive(xc);
      if k.None? {
        NoInverse(x, y, p, xc, xe, yc, ye);
        return None;
      }
      EmaxTwo(p, p * 10 / 3);
      r := Inverted(x, y, p, 5, 2, k.value, xe, yc, ye, p * 10 / 3);
    } else {
      NoInverse(x, y, p, xc, xe, yc, ye);
      r := None;
    }
  }

  lemma NotPowerOfTwo(xc: nat)
    requires xc >= 1 && xc != Pow(2, BitLength(xc) - 1)
    ensures forall e: nat :: xc != Pow(2, e)
  {
    forall e: nat ensures xc != Pow(2, e) {
      TwoExponent(e);
    }
  }

  // ----- positive exponents

  /** m > p*100 // lb means that xc**m is out of reach. */
  lemma OutOfReach(c: nat, m: nat, p: nat, hundred: nat)
    requires c > 1 && hundred == 100 && Log10Lb(c) > 0 && m > p * hundred / Log10Lb(c)
    ensures Pow(c, m) > Pow(10, p)
  {
    var lb: nat := Log10Lb(c);
    Log10LbBelow(c, hundred);
    FloorBelow(p * hundred, lb, m);
    PowersApart(c, m, p, hundred, lb, p * hundred, lb * m);
  }

  lemma FloorBelow(a: nat, b: nat, m: nat)
    requires b > 0 && m > a / b
    ensures b * m > a
  {
    DivFloor(a, b);
    MulMonotone(b, a / b + 1, m);
  }

  lemma PowersApart(c: nat, m: nat, p: nat, h: nat, lb: nat, ph: nat, lm: nat)
    requires ph == p * h && lm == lb * m && lm > ph && Pow(10, lb) <= Pow(c, h)
    ensures Pow(c, m) > Pow(10, p)
  {
    Raised(10, lb, c, h, m);
    PowStrict(10, ph, lm);
    MulCommute(h, m);
    RootsOrdered(10, p, c, m, h, ph, h * m);
  }

  lemma RootsOrdered(d: nat, p: nat, c: nat, m: nat, h: nat, ph: nat, mh: nat)
    requires ph == p * h && mh == m * h && Pow(d, ph) < Pow(c, mh)
    ensures Pow(d, p) < Pow(c, m)
  {
    PowTimes(d, p, h);
    PowTimes(c, m, h);
    if Pow(c, m) <= Pow(d, p) {
      PowOrder(Pow(c, m), Pow(d, p), h);
    }
  }

  /** c <= 10**p and no zero at the end leave at most p digits. */
  lemma WithinDigits(c: nat, p: nat)
    requires c <= Pow(10, p) && c % 10 != 0 && p >= 1
    ensures NumDigits(c) <= p
  {
    TenfoldPower(10, p);
    FewDigits(c, p);
  }

  /** The last part: the m-th power of xc * 10**xe, whose n-th power is x */
  method Raise(x: Decimal, y: Decimal, p: nat, xc: nat, xe: int, m: nat, n: nat) returns (r: Option<Decimal>)
    requires x.Finite? && y.Finite? && !y.neg && p >= 1 && xc > 1 && xc % 10 != 0
    requires IsRatio(Magnitude(y), m, n) && Magnitude(x) == Scale(Pow(xc, n) as real, xe * n)
    requires IsInteger(y) ==> m == IntPart(y) && xe >= x.exp
    ensures r.Some? ==> Exact(r.value, x, y, p)
    ensures r.Some? && !IsInteger(y) ==> r.value.coef % 10 != 0
    ensures r.Some? && IsInteger(y) ==> NearIdeal(r.value, x, y, p)
    ensures r.None? <==> Pow(xc, m) > Pow(10, p)
  {
    Log10LbPositive(xc);
    if m > p * 100 / Log10Lb(xc) {
      OutOfReach(xc, m, p, 100);
      return None;
    }
    var c, e := Pow(xc, m), xe * m;
    if c > Pow(10, p) {
      return None;
    }
    PowPositive(xc, m);
    PowNotTenfold(xc, m);
    WithinDigits(c, p);
    RootIsPower(Finite(false, c, e), x, y, xc, xe, m, n);
    var zeros: nat := 0;
    if IsInteger(y) {
      MulMonotone(m, x.exp, xe);
      MulCommute(m, x.exp);
      MulCommute(m, xe);
      zeros := Min(e - x.exp * IntPart(y), p - NumDigits(c));
    }
    PaddedPower(c, e, zeros, x, y);
    r := Some(Finite(false, Times10(c, zeros), e - zeros));
  }

  lemma CommonFactor(y: real, m: nat, n: nat, k: nat)
    requires k > 0 && IsRatio(y, k * m, k * n)
    ensures IsRatio(y, m, n)
  {
    WholeTimes(k, m);
    WholeTimes(k, n);
    var kr, nr := k as real, n as real;
    assert y * (kr * nr) == kr * (y * nr);
    assert kr * (y * nr - m as real) == 0.0;
  }

  /** The factors two and five that m and n share are taken out. */
  method Reduced(m0: nat, k: nat, ghost y: real) returns (m: nat, n: nat, ghost d: nat)
    requires m0 > 0 && IsRatio(y, m0, Pow(10, k))
    ensures m > 0 && IsRatio(y, m, n) && InLowestTerms(m, n, d, k)
  {
    m, n, d := m0, Pow(10, k), 1;
    while m % 2 == 0 && n % 2 == 0
      invariant m > 0 && IsRatio(y, m, n) && n * d == Pow(10, k)
      decreases m
    {
      TakeOut(y, m, n, d, 2, Pow(10, k));
      m, n, d := m / 2, n / 2, 2 * d;
    }
    while m % 5 == 0 && n % 5 == 0
      invariant m > 0 && IsRatio(y, m, n) && n * d == Pow(10, k)
      invariant !(m % 2 == 0 && n % 2 == 0)
      decreases m
    {
      TakeOut(y, m, n, d, 5, Pow(10, k));
      StillOdd(m, n);
      m, n, d := m / 5, n / 5, 5 * d;
    }
  }

  lemma TakeOut(y: real, m: nat, n: nat, d: nat, q: nat, t: nat)
    requires TwoOrFive(q) && m > 0 && m % q == 0 && n % q == 0 && IsRatio(y, m, n) && n * d == t
    ensures 0 < m / q < m && IsRatio(y, m / q, n / q) && n / q * (q * d) == t
  {
    var h, i := m / q, n / q;
    DivIdentity(m, q);
    DivIdentity(n, q);
    MulCommute(h, q);
    MulCommute(i, q);
    CommonFactor(y, h, i, q);
    MulAssociate(i, q, d);
  }

  /** Dividing by five leaves parity alone. */
  lemma StillOdd(m: nat, n: nat)
    requires m % 5 == 0 && n % 5 == 0 && !(m % 2 == 0 && n % 2 == 0)
    ensures !(m / 5 % 2 == 0 && n / 5 % 2 == 0)
  {
    Fivefold(m / 5, m);
    Fivefold(n / 5, n);
  }

  lemma Fivefold(h: nat, m: nat)
    requires m == 5 * h
    ensures m % 2 == h % 2
  {
    DivModUnique(m, 2, 2 * h + h / 2, h % 2);
  }

  /** The branch for a positive y: an exact root, then a power */
  method PositivePower(x: Decimal, y: Decimal, p: nat, xc: nat, xe: int, yc: nat, ye: int) returns (r: Option<Decimal>)
    requires Stripped(x, xc, xe) && Stripped(y, yc, ye) && !y.neg && xc > 1 && p >= 1
    ensures r.Some? ==> Exact(r.value, x, y, p)
    ensures r.Some? && !IsInteger(y) ==> r.value.coef % 10 != 0
    ensures r.Some? && IsInteger(y) ==> NearIdeal(r.value, x, y, p)
    ensures r.None? ==> Unrepresentable(x, y, p)
  {
    PlainRatio(y, yc, ye);
    IntegerIff(y, yc, ye);
    if ye >= 0 {
      r := PlainPower(x, y, p, xc, xe, Times10(yc, ye));
    } else {
      if xe != 0 && NumDigits(Abs(yc * xe)) <= -ye {
        TooFineForExponent(x, y, p, xc, xe, yc, ye);
        return None;
      }
      MulMonotone(yc, 0, BitLength(xc));
      if NumDigits(yc * BitLength(xc)) <= -ye {
        TooFineForBits(x, y, p, xc, xe, yc, ye);
        return None;
      }
      var m, n;
      ghost var d;
      m, n, d := Reduced(yc, -ye, Magnitude(y));
      if n == 1 {
        r := PlainPower(x, y, p, xc, xe, m);
      } else {
        PositiveDivisor(n, d, -ye);
        r := RootAndPower(x, y, p, xc, xe, m, n, d, -ye);
      }
    }
  }

  /** No root to take: the exponent is the integer m. */
  method PlainPower(x: Decimal, y: Decimal, p: nat, xc: nat, xe: int, m: nat) returns (r: Option<Decimal>)
    requires Stripped(x, xc, xe) && y.Finite? && !y.neg && xc > 1 && p >= 1 && IsRatio(Magnitude(y), m, 1)
    requires IsInteger(y) ==> m == IntPart(y)
    ensures r.Some? ==> Exact(r.value, x, y, p)
    ensures r.Some? && !IsInteger(y) ==> r.value.coef % 10 != 0
    ensures r.Some? && IsInteger(y) ==> NearIdeal(r.value, x, y, p)
    ensures r.None? ==> Unrepresentable(x, y, p)
  {
    WholePower(x, xc, xe);
    r := Raise(x, y, p, xc, xe, m, 1);
    if r.None? {
      TooLarge(x, y, p, xc, xe, xc, m, 1);
    }
  }

  lemma WholePower(x: Decimal, xc: nat, xe: int)
    requires Stripped(x, xc, xe)
    ensures Pow(xc, 1) == xc && Magnitude(x) == Scale(Pow(xc, 1) as real, xe * 1)
  {
    StrippedMagnitude(x, xc, xe);
    assert Pow(xc, 1) == xc * Pow(xc, 0) == xc;
  }

  method RootAndPower(x: Decimal, y: Decimal, p: nat, xc: nat, xe: int, m: nat, n: nat, ghost d: nat, ghost k: nat)
    returns (r: Option<Decimal>)
    requires Stripped(x, xc, xe) && y.Finite? && !y.neg && !IsInteger(y) && xc > 1 && p >= 1
    requires n > 0 && IsRatio(Magnitude(y), m, n) && InLowestTerms(m, n, d, k)
    ensures r.Some? ==> Exact(r.value, x, y, p)
    ensures r.Some? ==> r.value.coef % 10 != 0
    ensures r.None? ==> Unrepresentable(x, y, p)
  {
    if BitLength(xc) <= n {
      forall s: nat ensures Pow(s, n) != xc {
        FewBitsNoPower(xc, n, s);
      }
      NoRoot(x, y, p, xc, xe, m, n, d, k);
      return None;
    }
    if xe % n != 0 {
      NoRoot(x, y, p, xc, xe, m, n, d, k);
      return None;
    }
    var root := ExactRoot(xc, n);
    if root.None? {
      NoRoot(x, y, p, xc, xe, m, n, d, k);
      return None;
    }
    ExactRootOf(x, xc, xe, n, root.value);
    r := Raise(x, y, p, root.value, xe / n, m, n);
    if r.None? {
      TooLarge(x, y, p, xc, xe, root.value, m, n);
    }
  }

  lemma ExactRootOf(x: Decimal, xc: nat, xe: int, n: nat, a: nat)
    requires Stripped(x, xc, xe) && xc > 1 && n > 0 && xe % n == 0 && Pow(a, n) == xc
    ensures a > 1 && a % 10 != 0 && Magnitude(x) == Scale(Pow(a, n) as real, xe / n * n)
  {
    StrippedMagnitude(x, xc, xe);
    DivIdentity(xe, n);
    if a <= 1 {
      PowOrder(a, 1, n);
      PowOne(n);
    }
    if a % 10 == 0 {
      TenfoldPower(a, n);
    }
  }

  // ----- the whole

  /** _power_exact */
  method PowerExact(x: Decimal, y: Decimal, p: nat) returns (r: Option<Decimal>)
    requires x.Finite? && !x.neg && x.coef > 0 && Magnitude(x) != 1.0 && y.Finite? && y.coef > 0 && p >= 1
    ensures r.Some? ==> Exact(r.value, x, y, p)
    ensures r.Some? && (y.neg || !IsInteger(y)) ==> r.value.coef % 10 != 0
    ensures r.Some? && !y.neg && IsInteger(y) ==> NearIdeal(r.value, x, y, p)
    ensures r.None? <==> Unrepresentable(x, y, p)
  {
    var xc, xe := StripZeros(x.coef, x.exp);
    var yc, ye := StripZeros(y.coef, y.exp);
    if xc == 1 {
      NotOne(x, xe);
      r := UnitPower(x, y, p, xe, yc, ye);
    } else if y.neg {
      r := NegativePower(x, y, p, xc, xe, yc, ye);
    } else {
      r := PositivePower(x, y, p, xc, xe, yc, ye);
    }
  }

  lemma NotOne(x: Decimal, xe: int)
    requires Stripped(x, 1, xe) && Magnitude(x) != 1.0
    ensures xe != 0
  {
    StrippedMagnitude(x, 1, xe);
  }
}
