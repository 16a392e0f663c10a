/** What it means for a decimal to be a power of another, without mentioning real exponents. */
module PowerMeaning {
  import opened Powers
  import opened Decimals
  import opened ExactRounding

  ghost function RPow(x: real, k: nat): real {
    if k == 0 then 1.0 else x * RPow(x, k - 1)
  }

  /** y is m/n. */
  ghost predicate IsRatio(y: real, m: nat, n: nat) {
    n > 0 && y * n as real == m as real
  }

  /** v is |x|**y: whenever |y| is m/n, v**n is x**m, or its inverse for a negative y. */
  ghost predicate IsPower(v: Decimal, x: Decimal, y: Decimal)
    requires v.Finite? && x.Finite? && y.Finite?
  {
    forall m: nat, n: nat :: IsRatio(Magnitude(y), m, n) ==>
      PowerAt(Magnitude(v), Magnitude(x), m, n, y.neg)
  }

  ghost predicate PowerAt(v: real, x: real, m: nat, n: nat, inverse: bool) {
    if inverse then RPow(v, n) * RPow(x, m) == 1.0 else RPow(v, n) == RPow(x, m)
  }

  /** Every exponent is such a ratio. */
  lemma RatioExists(y: Decimal) returns (m: nat, n: nat)
    requires y.Finite?
    ensures IsRatio(Magnitude(y), m, n)
  {
    if y.exp >= 0 {
      m, n := Times10(y.coef, y.exp), 1;
      ScaleWhole(y.coef, y.exp);
    } else {
      m, n := y.coef, Times10(1, -y.exp);
      ScaleWhole(1, -y.exp);
      ScaleProduct(y.coef as real, 1.0, y.coef as real, y.exp, -y.exp);
    }
  }

  lemma WholeProduct(c: nat, p: nat, cp: nat, d: int, e: int)
    requires cp == c * p
    ensures Scale(c as real, d) * Scale(p as real, e) == Scale(cp as real, d + e)
  {
    WholeTimes(c, p);
    ScaleProduct(c as real, p as real, cp as real, d, e);
  }

  lemma {:induction false} PowerOfScaled(c: nat, e: int, n: nat)
    ensures RPow(Scale(c as real, e), n) == Scale(Pow(c, n) as real, e * n)
  {
    if n == 0 {
      assert e * 0 == 0;
    } else {
      PowerOfScaled(c, e, n - 1);
      OneMore(e, n);
      PowerStep(Scale(c as real, e), n, c, Pow(c, n - 1), Pow(c, n), e, e * (n - 1));
    }
  }

  lemma PowerStep(x: real, n: nat, c: nat, p: nat, cp: nat, d: int, e: int)
    requires n >= 1 && x == Scale(c as real, d) && RPow(x, n - 1) == Scale(p as real, e) && cp == c * p
    ensures RPow(x, n) == Scale(cp as real, d + e)
  {
    WholeProduct(c, p, cp, d, e);
  }

  lemma OneMore(e: int, n: nat)
    requires n >= 1
    ensures e + e * (n - 1) == e * n
  {
  }

  /** r is e times y. */
  ghost predicate Multiple(r: int, e: int, y: real) {
    r as real == e as real * y
  }

  /** An exponent scaled by y = m/n agrees with m and n. */
  lemma MultipleRatio(e': int, e: int, y: real, m: nat, n: nat)
    requires Multiple(e', e, y) && IsRatio(y, m, n)
    ensures e' * n == e * m
  {
    var er, nr := e as real, n as real;
    WholeTimes(e', n);
    WholeTimes(e, m);
    assert (er * y) * nr == er * (y * nr);
  }

  lemma SameRatio(m1: nat, n1: nat, m: nat, n: nat, y: real)
    requires IsRatio(y, m1, n1) && IsRatio(y, m, n)
    ensures m1 * n == n1 * m
  {
    var a, b := n1 as real, n as real;
    WholeTimes(m1, n);
    WholeTimes(n1, m);
    assert (y * a) * b == a * (y * b);
  }

  // ----- the three shapes of an exact power

  /** A power of ten raised to y */
  lemma TenAt(xe: int, exponent: int, y: real, m: nat, n: nat, inverse: bool)
    requires Multiple(exponent, xe, y) && IsRatio(y, m, n)
    ensures PowerAt(TenTo(if inverse then 0 - exponent else exponent), TenTo(xe), m, n, inverse)
  {
    var e := if inverse then 0 - exponent else exponent;
    MultipleRatio(exponent, xe, y, m, n);
    PowOne(n);
    PowOne(m);
    PowerOfScaled(1, e, n);
    PowerOfScaled(1, xe, m);
    if inverse {
      NegatedProduct(exponent, n);
      ScaleProduct(1.0, 1.0, 1.0, e * n, xe * m);
    }
  }

  lemma NegatedProduct(e: int, n: int)
    ensures (0 - e) * n == 0 - e * n
  {
  }

  /** A power of one factor of ten, inverted into one of the other */
  lemma CofactorAt(v: real, x: real, a: nat, b: nat, e: nat, e': nat, xe: int, xe': int, y: real, m: nat, n: nat)
    requires a * b == 10 && Multiple(e', e, y) && Multiple(xe', xe, y) && IsRatio(y, m, n)
    requires v == Scale(Pow(b, e') as real, 0 - e' - xe') && x == Scale(Pow(a, e) as real, xe)
    ensures PowerAt(v, x, m, n, true)
  {
    var k, f, g := CofactorExponents(e, e', xe, xe', y, m, n);
    PowerOfPower(b, e', 0 - e' - xe', n, k, f);
    PowerOfPower(a, e, xe, m, k, g);
    CofactorProduct(v, x, a, b, k, m, n, f, g);
  }

  lemma CofactorExponents(e: nat, e': nat, xe: int, xe': int, y: real, m: nat, n: nat) returns (k: nat, f: int, g: int)
    requires Multiple(e', e, y) && Multiple(xe', xe, y) && IsRatio(y, m, n)
    ensures k == e' * n == e * m && f == (0 - e' - xe') * n && g == xe * m && f + g == 0 - k
  {
    k, f, g := e' * n, (0 - e' - xe') * n, xe * m;
    MultipleRatio(e', e, y, m, n);
    MultipleRatio(xe', xe, y, m, n);
    SplitExponent(e', xe', n);
  }

  lemma SplitExponent(e': nat, xe': int, n: nat)
    ensures (0 - e' - xe') * n == 0 - e' * n - xe' * n
  {
  }

  lemma CofactorProduct(v: real, x: real, a: nat, b: nat, k: nat, m: nat, n: nat, f: int, g: int)
    requires a * b == 10 && f + g == 0 - k
    requires RPow(v, n) == Scale(Pow(b, k) as real, f) && RPow(x, m) == Scale(Pow(a, k) as real, g)
    ensures PowerAt(v, x, m, n, true)
  {
    FactorsCancel(a, b, k, Pow(a, k), Pow(b, k), f, g);
  }

  lemma FactorsCancel(a: nat, b: nat, k: nat, ak: nat, bk: nat, f: int, g: int)
    requires a * b == 10 && ak == Pow(a, k) && bk == Pow(b, k) && f + g == 0 - k
    ensures Scale(bk as real, f) * Scale(ak as real, g) == 1.0
  {
    PowOfProduct(b, a, k);
    WholeProduct(bk, ak, Pow(10, k), f, g);
    TenCancels(k);
  }

  lemma TenCancels(k: nat)
    ensures Scale(Pow(10, k) as real, 0 - k) == 1.0
  {
    Times10One(k);
    ScaleWhole(1, k);
    ScaleBack(1.0, k);
  }

  lemma PowerOfPower(b: nat, e: nat, d: int, n: nat, k: nat, dn: int)
    requires k == e * n && dn == d * n
    ensures RPow(Scale(Pow(b, e) as real, d), n) == Scale(Pow(b, k) as real, dn)
  {
    PowerOfScaled(Pow(b, e), d, n);
    PowTimes(b, e, n);
  }

  /** A power of an exact root */
  lemma RootAt(r: nat, xe: int, m1: nat, n1: nat, y: real, m: nat, n: nat)
    requires IsRatio(y, m1, n1) && IsRatio(y, m, n)
    ensures PowerAt(Scale(Pow(r, m1) as real, xe * m1), Scale(Pow(r, n1) as real, xe * n1), m, n, false)
  {
    SameRatio(m1, n1, m, n, y);
    PowerOfPower(r, m1, xe * m1, n, m1 * n, xe * m1 * n);
    PowerOfPower(r, n1, xe * n1, m, m1 * n, xe * n1 * m);
    MulAssociate(xe, m1, n);
    MulAssociate(xe, n1, m);
  }
}
