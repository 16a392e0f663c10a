/**
 What a power must look like.  If v is x to the y, its coefficient and exponent without trailing zeros
 are forced by those of x and by any ratio m/n that y is; so an exact power that does not fit, or does
 not exist, can be recognized.
 */
module PowerLimits {
  import opened Powers
  import opened DigitStrings
  import opened PythonText
  import opened Bits
  import opened Decimals
  import opened ExactRounding
  import opened IntegerRoots
  import opened PrimePowers
  import opened PowerMeaning
  import opened RootTheory
  import opened StrippedDecimals

  /** No power of x by y fits into p digits. */
  ghost predicate Unrepresentable(x: Decimal, y: Decimal, p: nat)
    requires x.Finite? && y.Finite?
  {
    forall v: Decimal :: v.Finite? && IsPower(v, x, y) ==> NumDigits(v.coef) > p
  }

  // ----- stripped forms are unique

  lemma StrippedUnique(c: nat, e: int, d: nat, f: int)
    requires Scale(c as real, e) == Scale(d as real, f) && c % 10 != 0 && d % 10 != 0
    ensures c == d && e == f
  {
    LeastCoef(c, e, d, f);
    LeastCoef(d, f, c, e);
    if e < f {
      SameCoef(c, e, f);
    } else if f < e {
      SameCoef(c, f, e);
    }
  }

  lemma SameCoef(c: nat, e: int, f: int)
    requires c > 0 && e < f
    ensures Scale(c as real, e) != Scale(c as real, f)
  {
    ShiftedValue(c, f - e, e);
    ScaleOrder(c as real, Times10(c, f - e) as real, e);
    assert Times10(c, f - e) == 10 * Times10(c, f - e - 1);
  }

  lemma {:induction false} StripDecimal(n: nat, e: int) returns (c: nat, f: int)
    requires n > 0
    ensures Stripped(Finite(false, n, e), c, f)
    decreases n
  {
    if n % 10 == 0 {
      c, f := StripDecimal(n / 10, e + 1);
      Times10Twice(c, f - e - 1, 1);
    } else {
      c, f := n, e;
    }
  }

  /** The value of a whole number times a power of ten is 1 only when they cancel. */
  lemma CancelsToOne(n: nat, e: int)
    requires n > 0 && Scale(n as real, e) == 1.0
    ensures e <= 0 && n == Pow(10, 0 - e)
  {
    if e > 0 {
      ScaleWhole(n, e);
    } else {
      ScaleBack(n as real, e);
      ScaleWhole(1, 0 - e);
      Times10One(0 - e);
    }
  }

  // ----- coefficient and exponent of a power

  lemma {:induction false} ZeroPower(n: nat)
    requires n > 0
    ensures RPow(0.0, n) == 0.0
  {
  }

  lemma PositiveScaled(c: nat, e: int, m: nat)
    requires c > 0
    ensures RPow(Scale(c as real, e), m) > 0.0
  {
    PowerOfScaled(c, e, m);
    PowPositive(c, m);
    ScalePositive(Pow(c, m) as real, e * m);
  }

  /** A power of a positive number is positive. */
  lemma PowerPositive(v: Decimal, x: Decimal, y: Decimal, xc: nat, xe: int)
    requires Stripped(x, xc, xe) && v.Finite? && y.Finite? && IsPower(v, x, y)
    ensures v.coef > 0
  {
    var m, n := RatioExists(y);
    assert PowerAt(Magnitude(v), Magnitude(x), m, n, y.neg);
    StrippedMagnitude(x, xc, xe);
    PositiveScaled(xc, xe, m);
    if v.coef == 0 {
      ScaleZero(v.exp);
      ZeroPower(n);
    }
  }

  /** v's stripped form, given that it is a power */
  lemma StripPower(v: Decimal, x: Decimal, y: Decimal, xc: nat, xe: int) returns (c: nat, e: int)
    requires Stripped(x, xc, xe) && v.Finite? && y.Finite? && IsPower(v, x, y)
    ensures c > 0 && c % 10 != 0 && v.coef >= c && Magnitude(v) == Scale(c as real, e)
  {
    PowerPositive(v, x, y, xc, xe);
    c, e := StripDecimal(v.coef, v.exp);
    StrippedMagnitude(Finite(false, v.coef, v.exp), c, e);
  }

  /** For a positive exponent m/n: the n-th power of the one is the m-th power of the other, part by part. */
  lemma PositiveParts(v: real, x: real, c: nat, e: int, xc: nat, xe: int, m: nat, n: nat)
    requires v == Scale(c as real, e) && x == Scale(xc as real, xe) && PowerAt(v, x, m, n, false)
    requires c % 10 != 0 && xc % 10 != 0
    ensures Pow(c, n) == Pow(xc, m) && e * n == xe * m
  {
    PowerOfScaled(c, e, n);
    PowerOfScaled(xc, xe, m);
    PowNotTenfold(c, n);
    PowNotTenfold(xc, m);
    StrippedUnique(Pow(c, n), e * n, Pow(xc, m), xe * m);
  }

  /** For a negative exponent: the two powers multiply to a power of ten that the exponents cancel. */
  lemma NegativeParts(v: real, x: real, c: nat, e: int, xc: nat, xe: int, m: nat, n: nat) returns (k: nat)
    requires v == Scale(c as real, e) && x == Scale(xc as real, xe) && PowerAt(v, x, m, n, true)
    requires c > 0 && xc > 0
    ensures Pow(c, n) * Pow(xc, m) == Pow(10, k) && e * n + xe * m == 0 - k
  {
    PowerOfScaled(c, e, n);
    PowerOfScaled(xc, xe, m);
    PowPositive(c, n);
    PowPositive(xc, m);
    k := FactorsOfOne(Pow(c, n), Pow(xc, m), e * n, xe * m);
  }

  lemma FactorsOfOne(a: nat, b: nat, d: int, e: int) returns (k: nat)
    requires a > 0 && b > 0 && Scale(a as real, d) * Scale(b as real, e) == 1.0
    ensures a * b == Pow(10, k) && d + e == 0 - k
  {
    var ab := a * b;
    MulMonotone(a, 1, b);
    WholeProduct(a, b, ab, d, e);
    CancelsToOne(ab, d + e);
    k := 0 - (d + e);
  }

  // ----- powers of ten

  /** A power of ten raised to a fraction that leaves a fraction is no decimal. */
  lemma UnitImpossible(v: Decimal, x: Decimal, y: Decimal, xe: int, yc: nat, ye0: int, w: int, ye: int)
    requires Stripped(x, 1, xe) && Stripped(y, yc, ye0) && ye >= ye0 && ye < 0
    requires xe * yc == Times10(w, ye - ye0) && w % 10 != 0 && v.Finite?
    ensures !IsPower(v, x, y)
  {
    if IsPower(v, x, y) {
      var n := Pow(10, 0 - ye0);
      PlainRatio(y, yc, ye0);
      assert PowerAt(Magnitude(v), Magnitude(x), yc, n, y.neg);
      var t := UnitRoot(v, x, y, xe, yc, n);
      Times10Product(t, 0 - ye0);
      FractionLeft(t, 0 - ye0, w, ye - ye0);
    }
  }

  lemma UnitRoot(v: Decimal, x: Decimal, y: Decimal, xe: int, m: nat, n: nat) returns (t: int)
    requires Stripped(x, 1, xe) && v.Finite? && y.Finite? && IsPower(v, x, y)
    requires PowerAt(Magnitude(v), Magnitude(x), m, n, y.neg)
    ensures t * n == xe * m
  {
    var c, e := StripPower(v, x, y, 1, xe);
    StrippedMagnitude(x, 1, xe);
    if y.neg {
      var k := NegativeParts(Magnitude(v), Magnitude(x), c, e, 1, xe, m, n);
      PowOne(m);
      PowNotTenfold(c, n);
      NotTenfold(Pow(c, n), k);
      NegatedProduct(e, n);
      t := 0 - e;
    } else {
      PositiveParts(Magnitude(v), Magnitude(x), c, e, 1, xe, m, n);
      t := e;
    }
  }

  lemma NotTenfold(c: nat, k: nat)
    requires c * 1 == Pow(10, k) && c % 10 != 0
    ensures k == 0
  {
    if k > 0 {
      TenfoldPower(10, k);
    }
  }

  lemma FractionLeft(t: int, k: nat, w: int, j: nat)
    requires Times10(t, k) == Times10(w, j) && j < k
    ensures w % 10 == 0
  {
    Times10Twice(t, k - j, j);
    Times10Injective(w, Times10(t, k - j), j);
    TenfoldEndsInZero(Times10(t, k - j - 1));
  }

  // ----- positive exponents

  lemma PositiveForced(v: Decimal, x: Decimal, y: Decimal, xc: nat, xe: int, m: nat, n: nat) returns (c: nat, e: int)
    requires Stripped(x, xc, xe) && y.Finite? && !y.neg && v.Finite? && IsPower(v, x, y) && IsRatio(Magnitude(y), m, n)
    ensures c > 0 && v.coef >= c && Pow(c, n) == Pow(xc, m) && e * n == xe * m
  {
    assert PowerAt(Magnitude(v), Magnitude(x), m, n, false);
    c, e := StripPower(v, x, y, xc, xe);
    StrippedMagnitude(x, xc, xe);
    PositiveParts(Magnitude(v), Magnitude(x), c, e, xc, xe, m, n);
  }

  lemma DigitsBelow(k: nat, j: nat)
    requires NumDigits(k) <= j
    ensures k < Pow(10, j)
  {
    NumDigitsBounds(k);
    PowMonotone(10, NumDigits(k), j);
  }

  lemma SmallMultiple(e: int, n: nat, w: int)
    requires e * n == w && Abs(w) < n
    ensures w == 0
  {
    if e >= 1 {
      MulMonotone(n, 1, e);
    } else if e <= -1 {
      MulMonotone(n, e, -1);
    }
  }

  /** |y| below 1/|xe|: the exponent of the power would be a fraction. */
  lemma TooFineForExponent(x: Decimal, y: Decimal, p: nat, xc: nat, xe: int, yc: nat, ye: int)
    requires Stripped(x, xc, xe) && Stripped(y, yc, ye) && !y.neg && ye < 0
    requires xe != 0 && NumDigits(Abs(yc * xe)) <= 0 - ye
    ensures Unrepresentable(x, y, p)
  {
    PlainRatio(y, yc, ye);
    DigitsBelow(Abs(yc * xe), 0 - ye);
    MulCommute(yc, xe);
    forall v: Decimal | v.Finite? ensures !IsPower(v, x, y) {
      if IsPower(v, x, y) {
        var c, e := PositiveForced(v, x, y, xc, xe, yc, Pow(10, 0 - ye));
        SmallMultiple(e, Pow(10, 0 - ye), xe * yc);
        NotZero(xe, yc);
      }
    }
  }

  lemma NotZero(a: int, b: int)
    requires a != 0 && b != 0
    ensures a * b != 0
  {
  }

  /** |y| below 1/nbits(xc): the coefficient of the power would lie between 1 and 2. */
  lemma TooFineForBits(x: Decimal, y: Decimal, p: nat, xc: nat, xe: int, yc: nat, ye: int)
    requires Stripped(x, xc, xe) && Stripped(y, yc, ye) && !y.neg && ye < 0 && xc > 1
    requires yc * BitLength(xc) >= 0 && NumDigits(yc * BitLength(xc)) <= 0 - ye
    ensures Unrepresentable(x, y, p)
  {
    PlainRatio(y, yc, ye);
    DigitsBelow(yc * BitLength(xc), 0 - ye);
    forall v: Decimal | v.Finite? ensures !IsPower(v, x, y) {
      if IsPower(v, x, y) {
        var c, e := PositiveForced(v, x, y, xc, xe, yc, Pow(10, 0 - ye));
        BitsTooFew(c, Pow(10, 0 - ye), xc, yc, BitLength(xc), yc * BitLength(xc));
      }
    }
  }

  lemma BitsTooFew(c: nat, n: nat, xc: nat, m: nat, bits: nat, mb: nat)
    requires xc > 1 && c > 0 && m > 0 && bits == BitLength(xc) && mb == m * bits && mb < n
    ensures Pow(c, n) != Pow(xc, m)
  {
    BitLengthPow(xc);
    PowOrder(xc, Pow(2, bits), m);
    PowTimes(2, bits, m);
    MulCommute(bits, m);
    PowStrict(2, mb, n);
    PowMonotone(xc, 1, m);
    assert Pow(xc, 1) == xc * Pow(xc, 0);
    if c >= 2 {
      PowOrder(2, c, n);
    } else {
      PowOne(n);
    }
  }

  /** In lowest terms, the coefficient must be an n-th power and n divide the exponent. */
  lemma NoRoot(x: Decimal, y: Decimal, p: nat, xc: nat, xe: int, m: nat, n: nat, d: nat, j: nat)
    requires Stripped(x, xc, xe) && y.Finite? && !y.neg && IsRatio(Magnitude(y), m, n) && InLowestTerms(m, n, d, j)
    requires xe % n != 0 || forall s: nat :: Pow(s, n) != xc
    ensures Unrepresentable(x, y, p)
  {
    forall v: Decimal | v.Finite? ensures !IsPower(v, x, y) {
      if IsPower(v, x, y) {
        var c, e := PositiveForced(v, x, y, xc, xe, m, n);
        var t := RootExists(c, xc, m, n, d, j);
        ExponentDivides(e, xe, m, n, d, j);
      }
    }
  }

  /** With a root a of the coefficient, the power's coefficient is a to the m. */
  lemma TooLarge(x: Decimal, y: Decimal, p: nat, xc: nat, xe: int, a: nat, m: nat, n: nat)
    requires Stripped(x, xc, xe) && y.Finite? && !y.neg && IsRatio(Magnitude(y), m, n)
    requires Pow(a, n) == xc && Pow(a, m) > Pow(10, p)
    ensures Unrepresentable(x, y, p)
  {
    forall v: Decimal | v.Finite? && IsPower(v, x, y) ensures NumDigits(v.coef) > p {
      var c, e := PositiveForced(v, x, y, xc, xe, m, n);
      PowTimes(a, n, m);
      PowTimes(a, m, n);
      MulCommute(m, n);
      PowInjective(c, Pow(a, m), n);
      ManyDigits(v.coef, p);
    }
  }

  // ----- negative exponents

  lemma GoodRatio(y: Decimal, yc: nat, ye: int) returns (m: nat, n: nat)
    requires Stripped(y, yc, ye)
    ensures m > 0 && IsRatio(Magnitude(y), m, n)
  {
    PlainRatio(y, yc, ye);
    if ye >= 0 {
      m, n := Times10(yc, ye), 1;
    } else {
      m, n := yc, Pow(10, 0 - ye);
    }
  }

  lemma NegativeForced(v: Decimal, x: Decimal, y: Decimal, xc: nat, xe: int, m: nat, n: nat)
    returns (c: nat, e: int, k: nat)
    requires Stripped(x, xc, xe) && y.Finite? && y.neg && v.Finite? && IsPower(v, x, y) && IsRatio(Magnitude(y), m, n)
    ensures c % 10 != 0 && v.coef >= c && Pow(c, n) * Pow(xc, m) == Pow(10, k) && e * n + xe * m == 0 - k
  {
    assert PowerAt(Magnitude(v), Magnitude(x), m, n, true);
    c, e := StripPower(v, x, y, xc, xe);
    StrippedMagnitude(x, xc, xe);
    k := NegativeParts(Magnitude(v), Magnitude(x), c, e, xc, xe, m, n);
  }

  /** Only powers of two and of five divide a power of ten without ending in zero. */
  lemma BaseForced(xc: nat, m: nat, b: nat, k: nat) returns (e: nat)
    requires xc % 10 != 0 && m > 0 && b * Pow(xc, m) == Pow(10, k)
    ensures xc == Pow(2, e) || xc == Pow(5, e)
  {
    PowOfProduct(2, 5, k);
    FirstFactor(xc, Pow(xc, m - 1), b);
    var d := b * Pow(xc, m - 1);
    TenfoldParts(xc);
    if xc % 5 != 0 {
      e := PrimePowerDivisor(xc, d, 2, k, 5, k);
    } else {
      MulCommute(Pow(2, k), Pow(5, k));
      e := PrimePowerDivisor(xc, d, 5, k, 2, k);
    }
  }

  lemma FirstFactor(a: int, p: int, b: int)
    ensures b * (a * p) == a * (b * p)
  {
  }

  /** A base that is no power of two or five has no exact inverse power. */
  lemma NoInverse(x: Decimal, y: Decimal, p: nat, xc: nat, xe: int, yc: nat, ye: int)
    requires Stripped(x, xc, xe) && Stripped(y, yc, ye) && y.neg
    requires forall e: nat :: xc != Pow(2, e) && xc != Pow(5, e)
    ensures Unrepresentable(x, y, p)
  {
    var m, n := GoodRatio(y, yc, ye);
    forall v: Decimal | v.Finite? ensures !IsPower(v, x, y) {
      if IsPower(v, x, y) {
        var c, f, k := NegativeForced(v, x, y, xc, xe, m, n);
        var e := BaseForced(xc, m, Pow(c, n), k);
      }
    }
  }

  ghost predicate Cofactors(a: nat, b: nat) {
    TwoOrFive(a) && TwoOrFive(b) && a != b
  }

  /** The power's coefficient is a power of the other factor of ten. */
  lemma CofactorForced(c: nat, n: nat, a: nat, b: nat, e: nat, m: nat, k: nat) returns (s: nat)
    requires Cofactors(a, b) && c % 10 != 0 && e > 0 && m > 0 && n > 0
    requires Pow(c, n) * Pow(Pow(a, e), m) == Pow(10, k)
    ensures c == Pow(b, s) && s * n == k && e * m == k
  {
    PowTimes(a, e, m);
    MulMonotone(e, 1, m);
    PowOfProduct(a, b, k);
    s := CofactorSplit(c, n, a, b, e * m, k);
  }

  lemma CofactorSplit(c: nat, n: nat, a: nat, b: nat, em: nat, k: nat) returns (s: nat)
    requires Cofactors(a, b) && c % 10 != 0 && em > 0 && n > 0 && Pow(c, n) * Pow(a, em) == Pow(a, k) * Pow(b, k)
    ensures c == Pow(b, s) && s * n == k && em == k
  {
    var d := Pow(c, n - 1) * Pow(a, em);
    MulAssociate(c, Pow(c, n - 1), Pow(a, em));
    MulCommute(Pow(a, k), Pow(b, k));
    TenfoldParts(c);
    if c % a != 0 {
      s := PrimePowerDivisor(c, d, b, k, a, k);
      PowTimes(b, s, n);
      FactorsUnique(b, s * n, a, em, k, k);
    } else {
      s := PrimePowerDivisor(c, d, a, k, b, k);
      PowTimes(a, s, n);
      PowAdd(a, s * n, em);
      assert Pow(a, s * n + em) * Pow(b, 0) == Pow(a, k) * Pow(b, k);
      FactorsUnique(a, s * n + em, b, 0, k, k);
    }
  }

  /** What agrees with m and n is the multiple of y. */
  lemma RatioMultiple(s: int, e: int, y: real, m: nat, n: nat)
    requires s * n == e * m && IsRatio(y, m, n)
    ensures Multiple(s, e, y)
  {
    WholeTimes(s, n);
    WholeTimes(e, m);
    var sr, er, nr := s as real, e as real, n as real;
    TimesAssociate(er, y, nr);
    RealOrder(nr, sr, er * y);
  }

  lemma MultipleScaled(s: int, e: int, y: Decimal, yc: nat, ye: int, ey: int)
    requires Stripped(y, yc, ye) && Multiple(s, e, Magnitude(y)) && ey == e * yc
    ensures LshiftExact(ey, ye) == Some(s)
  {
    StrippedMagnitude(y, yc, ye);
    ScaledIsMultiple(s, e, yc, ye, ey, Magnitude(y));
    LshiftIs(s, ey, ye);
  }

  lemma ScaledIsMultiple(s: int, e: int, yc: nat, ye: int, ey: int, y: real)
    requires Multiple(s, e, y) && y == Scale(yc as real, ye) && ey == e * yc
    ensures IsScaled(s, ey, ye)
  {
    WholeTimes(e, yc);
    ScaleOfProduct(yc as real, e as real, ey as real, ye);
  }

  lemma LshiftIs(s: int, n: int, e: int)
    requires IsScaled(s, n, e)
    ensures LshiftExact(n, e) == Some(s)
  {
    LshiftCorrect(n, e);
  }

  /** Both shifts the program makes are exact, and give the power's coefficient. */
  lemma InvertedForced(v: Decimal, x: Decimal, y: Decimal, a: nat, b: nat, e: nat, xe: int, yc: nat, ye: int)
    returns (s: nat, t: int)
    requires Cofactors(a, b) && e > 0 && Stripped(x, Pow(a, e), xe) && Stripped(y, yc, ye) && y.neg
    requires v.Finite? && IsPower(v, x, y)
    ensures LshiftExact(e * yc, ye) == Some(s) && LshiftExact(xe * yc, ye) == Some(t) && v.coef >= Pow(b, s)
  {
    var m, n := GoodRatio(y, yc, ye);
    var c, f, k := NegativeForced(v, x, y, Pow(a, e), xe, m, n);
    s := CofactorForced(c, n, a, b, e, m, k);
    t := 0 - f - s;
    OppositeSum(f, s, n);
    RatioMultiple(s, e, Magnitude(y), m, n);
    RatioMultiple(t, xe, Magnitude(y), m, n);
    MultipleScaled(s, e, y, yc, ye, e * yc);
    MultipleScaled(t, xe, y, yc, ye, xe * yc);
  }

  lemma OppositeSum(f: int, s: int, n: int)
    ensures (0 - f - s) * n == 0 - f * n - s * n
  {
  }

  /** emax is large enough: beyond it the coefficient b**s has more than p digits. */
  lemma BeyondEmax(a: nat, b: nat, i: nat, j: nat, p: nat, s: nat)
    requires a * b == 10 && b > 0 && i > 0 && Pow(a, i) <= Pow(b, j) && (i + j) * p <= i * s
    ensures Pow(10, p) <= Pow(b, s)
  {
    Raised(a, i, b, j, p);
    SumTimes(i, j, p);
    TenBelow(a, b, i * p, j * p, i * s);
    MulCommute(i, p);
    MulCommute(i, s);
    RootsOrderedWeakly(10, p, b, s, i, i * p, i * s);
  }

  lemma SumTimes(i: nat, j: nat, p: nat)
    ensures (i + j) * p == j * p + i * p && i * p >= 0 && j * p >= 0
  {
    MulMonotone(i, 0, p);
    MulMonotone(j, 0, p);
  }

  lemma TenBelow(a: nat, b: nat, ip: nat, jp: nat, k: nat)
    requires a * b == 10 && b > 0 && Pow(a, ip) <= Pow(b, jp) && jp + ip <= k
    ensures Pow(10, ip) <= Pow(b, k)
  {
    PowOfProduct(a, b, ip);
    PowAdd(b, jp, ip);
    var t := Pow(b, ip);
    MulMonotone(t, Pow(a, ip), Pow(b, jp));
    MulCommute(t, Pow(a, ip));
    MulCommute(t, Pow(b, jp));
    PowMonotone(b, jp + ip, k);
  }

  lemma RootsOrderedWeakly(d: nat, p: nat, c: nat, m: nat, h: nat, ph: nat, mh: nat)
    requires h > 0 && ph == p * h && mh == m * h && Pow(d, ph) <= Pow(c, mh)
    ensures Pow(d, p) <= Pow(c, m)
  {
    PowTimes(d, p, h);
    PowTimes(c, m, h);
    if Pow(c, m) < Pow(d, p) {
      PowOrderStrict(Pow(c, m), Pow(d, p), h);
    }
  }
}
