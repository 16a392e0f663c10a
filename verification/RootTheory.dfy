/** When roots are whole: the little number theory behind rejecting an inexact power. */
module RootTheory {
  import opened Powers
  import opened IntegerRoots
  import opened PrimePowers

  // ----- common divisors

  /** A common divisor of a and u that is a combination of them */
  lemma {:induction false} Bezout(a: nat, u: nat) returns (g: nat, x: int, y: int)
    requires a > 0
    ensures g > 0 && a % g == 0 && u % g == 0 && a * x + u * y == g
    decreases u
  {
    if u == 0 {
      g, x, y := a, 1, 0;
    } else {
      var q, r := a / u, a % u;
      var x', y';
      g, x', y' := Bezout(u, r);
      x, y := y', x' - q * y';
      DivIdentity(a, u);
      Combined(a, u, q, r, x', y');
      DividesSum(u, r, g, q);
    }
  }

  lemma Combined(a: int, u: int, q: int, r: int, x: int, y: int)
    requires a == q * u + r
    ensures a * y + u * (x - q * y) == u * x + r * y
  {
    assert a * y == (q * u) * y + r * y;
    assert u * (x - q * y) == u * x - u * (q * y);
    MulAssociate(u, q, y);
    MulCommute(u, q);
  }

  lemma DividesSum(u: nat, r: nat, g: nat, q: nat)
    requires g > 0 && u % g == 0 && r % g == 0
    ensures (q * u + r) % g == 0
  {
    var s, t := u / g, r / g;
    DivIdentity(u, g);
    DivIdentity(r, g);
    MulAssociate(q, s, g);
    DivModUnique(q * u + r, g, q * s + t, 0);
  }

  /** If a and u have no common divisor, a divides no power of u but for 1. */
  lemma {:induction false} CoprimeToPower(a: nat, u: nat, x: int, y: int, k: nat, z: int)
    requires a > 0 && a * x + u * y == 1 && Pow(u, k) == a * z
    ensures a == 1
    decreases k
  {
    if k == 0 {
      FactorOfOne(a, z);
    } else {
      var p := Pow(u, k - 1);
      LowerPower(a, u, x, y, p, z);
      CoprimeToPower(a, u, x, y, k - 1, x * p + y * z);
    }
  }

  lemma FactorOfOne(a: nat, z: int)
    requires a * z == 1
    ensures a == 1
  {
    if z <= 0 {
      MulMonotone(a, z, 0);
    } else if a >= 2 {
      MulMonotone(a, 1, z);
    }
  }

  lemma LowerPower(a: int, u: int, x: int, y: int, p: int, z: int)
    requires a * x + u * y == 1 && u * p == a * z
    ensures p == a * (x * p + y * z)
  {
    assert p == (a * x + u * y) * p == (a * x) * p + (u * y) * p;
    assert (u * y) * p == y * (u * p) == y * (a * z) == a * (y * z);
    assert (a * x) * p == a * (x * p);
  }

  /** If c times a power is a power, then c is one: a rational root is whole. */
  lemma RationalRoot(a: nat, c: nat, u: nat, q: nat) returns (s: nat)
    requires a > 0 && q > 0 && Pow(a, q) * c == Pow(u, q)
    ensures Pow(s, q) == c
  {
    var g, x, y := Bezout(a, u);
    var a', u' := a / g, u / g;
    DivIdentity(a, g);
    DivIdentity(u, g);
    PowOfProduct(a', g, q);
    PowOfProduct(u', g, q);
    PowPositive(g, q);
    Cancel(Pow(a', q), Pow(g, q), c, Pow(u', q));
    Lowest(a', u', g, x, y);
    assert Pow(a', q) == a' * Pow(a', q - 1);
    MulAssociate(a', Pow(a', q - 1), c);
    CoprimeToPower(a', u', x, y, q, Pow(a', q - 1) * c);
    PowOne(q);
    s := u';
  }

  lemma Cancel(a: nat, g: nat, c: nat, u: nat)
    requires g > 0 && (a * g) * c == u * g
    ensures a * c == u
  {
    assert (a * g) * c == (a * c) * g;
    if a * c < u {
      MulMonotone(g, a * c + 1, u);
    } else if a * c > u {
      MulMonotone(g, u + 1, a * c);
    }
  }

  lemma Lowest(a': nat, u': nat, g: nat, x: int, y: int)
    requires g > 0 && (a' * g) * x + (u' * g) * y == g
    ensures a' * x + u' * y == 1 && (a' * g > 0 ==> a' > 0)
  {
    var t := a' * x + u' * y;
    assert t * g == (a' * g) * x + (u' * g) * y;
    if t >= 2 {
      MulMonotone(g, 2, t);
    } else if t <= 0 {
      MulMonotone(g, t, 0);
    }
  }

  // ----- two and five

  predicate TwoOrFive(q: nat) {
    q == 2 || q == 5
  }

  /** Two and five are prime. */
  lemma PrimeDivides(q: nat, a: int, b: int)
    requires TwoOrFive(q) && (a * b) % q == 0 && b % q != 0
    ensures a % q == 0
  {
    var s, r, t, w := a / q, a % q, b / q, b % q;
    DivIdentity(a, q);
    DivIdentity(b, q);
    DivIdentity(a * b, q);
    RemainderProduct(q, a, b, s, r, t, w, a * b / q);
    SmallResidues(q, r, w, a * b / q - s * b - r * t);
  }

  lemma RemainderProduct(q: int, a: int, b: int, s: int, r: int, t: int, w: int, z: int)
    requires a == s * q + r && b == t * q + w && a * b == z * q
    ensures r * w == (z - s * b - r * t) * q
  {
    assert a * b == (s * q) * b + r * b;
    assert r * b == r * (t * q) + r * w;
    assert (s * q) * b == (s * b) * q && r * (t * q) == (r * t) * q;
  }

  lemma SmallResidues(q: nat, r: nat, w: nat, z: int)
    requires TwoOrFive(q) && r < q && 0 < w < q && r * w == z * q
    ensures r == 0
  {
    if q == 2 {
      assert w == 1;
    } else if w == 1 {
    } else if w == 2 {
    } else if w == 3 {
    } else {
      assert w == 4;
    }
  }

  lemma PowInjective(a: nat, b: nat, n: nat)
    requires n > 0 && Pow(a, n) == Pow(b, n)
    ensures a == b
  {
    if a < b {
      PowOrderStrict(a, b, n);
    } else if b < a {
      PowOrderStrict(b, a, n);
    }
  }

  /** The inverse of m modulo q */
  function Inverse(m: nat, q: nat): nat
    requires TwoOrFive(q) && m % q != 0
  {
    if q == 2 then 1
    else if m % 5 == 1 then 1
    else if m % 5 == 2 then 3
    else if m % 5 == 3 then 2
    else 4
  }

  lemma InverseWorks(m: nat, q: nat) returns (j: nat)
    requires TwoOrFive(q) && m % q != 0
    ensures m * Inverse(m, q) == q * j + 1
  {
    var h, r, i := m / q, m % q, Inverse(m, q);
    assert m == q * h + r;
    j := h * i + (r * i - 1) / q;
    assert m * i == q * (h * i) + r * i;
  }

  /** If a q-th power is an m-th power of w, and q does not divide m, then w is a q-th power. */
  lemma RootOfCoprime(u: nat, w: nat, q: nat, m: nat) returns (z: nat)
    requires TwoOrFive(q) && m % q != 0 && w > 0 && Pow(u, q) == Pow(w, m)
    ensures Pow(z, q) == w
  {
    var j := InverseWorks(m, q);
    var i := Inverse(m, q);
    PowTimes(u, q, i);
    PowTimes(u, i, q);
    MulCommute(q, i);
    PowTimes(w, m, i);
    PowAdd(w, q * j, 1);
    assert Pow(w, 1) == w * Pow(w, 0);
    PowTimes(w, j, q);
    MulCommute(q, j);
    PowPositive(w, j);
    z := RationalRoot(Pow(w, j), w, Pow(u, i), q);
  }

  /** Apart from 1, the divisors of a power of ten are even or multiples of five. */
  lemma {:induction false} FactorOfTen(n: nat, d: nat, j: nat)
    requires n * d == Pow(10, j) && n % 2 != 0 && n % 5 != 0
    ensures n == 1
    decreases j
  {
    if j == 0 {
      ProductOne(n, d);
    } else {
      MulCommute(n, d);
      TenfoldDivides(d * n, Pow(10, j - 1));
      PrimeDivides(2, d, n);
      PrimeDivides(5, d, n);
      TenthOf(n, d, Pow(10, j - 1));
      FactorOfTen(n, d / 10, j - 1);
    }
  }

  lemma TenthOf(n: nat, d: nat, p: nat)
    requires n * d == 10 * p && d % 2 == 0 && d % 5 == 0
    ensures n * (d / 10) == p
  {
    var h := d / 10;
    assert d == 10 * h;
    assert n * (10 * h) == 10 * (n * h);
  }

  lemma TenfoldDivides(x: int, p: int)
    requires x == 10 * p
    ensures x % 2 == 0 && x % 5 == 0
  {
  }

  // ----- the root of a reduced exponent

  /** Two exponents without common factor, the second a divisor of a power of ten */
  ghost predicate InLowestTerms(m: nat, n: nat, d: nat, j: nat) {
    n * d == Pow(10, j) && !(m % 2 == 0 && n % 2 == 0) && !(m % 5 == 0 && n % 5 == 0)
  }

  lemma PositiveDivisor(n: nat, d: nat, j: nat)
    requires n * d == Pow(10, j)
    ensures n > 0 && d > 0
  {
    PowPositive(10, j);
  }

  /** One prime factor of n taken out */
  lemma NextFactor(m: nat, n: nat, d: nat, j: nat) returns (q: nat)
    requires InLowestTerms(m, n, d, j) && n > 1
    ensures TwoOrFive(q) && n % q == 0 && m % q != 0 && InLowestTerms(m, n / q, d * q, j)
  {
    if n % 2 != 0 && n % 5 != 0 {
      FactorOfTen(n, d, j);
    }
    q := if n % 2 == 0 then 2 else 5;
    var h := n / q;
    DivIdentity(n, q);
    assert (h * q) * d == h * (d * q);
    MultipleKeeps(h, q);
  }

  lemma MultipleKeeps(h: nat, q: nat)
    ensures h % 2 == 0 ==> (h * q) % 2 == 0
    ensures h % 5 == 0 ==> (h * q) % 5 == 0
  {
    if h % 2 == 0 {
      FactorOut(h / 2, h, 2, q);
    }
    if h % 5 == 0 {
      FactorOut(h / 5, h, 5, q);
    }
  }

  lemma FactorOut(a: nat, h: nat, k: nat, q: nat)
    requires h == k * a && k > 0
    ensures (h * q) % k == 0
  {
    MulAssociate(k, a, q);
    MultipleMod(a * q, k);
  }

  lemma MultipleMod(a: nat, k: nat)
    requires k > 0
    ensures (k * a) % k == 0
  {
    DivModUnique(k * a, k, a, 0);
  }

  /** If v**n is c**m, in lowest terms, then c is an n-th power. */
  lemma {:induction false} RootExists(v: nat, c: nat, m: nat, n: nat, d: nat, j: nat) returns (t: nat)
    requires InLowestTerms(m, n, d, j) && c > 0 && Pow(v, n) == Pow(c, m)
    ensures Pow(t, n) == c
    decreases n
  {
    PositiveDivisor(n, d, j);
    if n == 1 {
      t := c;
      assert Pow(c, 1) == c * Pow(c, 0);
    } else {
      var q := NextFactor(m, n, d, j);
      var h := n / q;
      DivIdentity(n, q);
      PowTimes(v, h, q);
      var z := RootOfCoprime(Pow(v, h), c, q, m);
      SmallerRoot(v, c, z, m, h, q);
      t := RootExists(v, z, m, h, d * q, j);
      PowTimes(t, h, q);
    }
  }

  lemma SmallerRoot(v: nat, c: nat, z: nat, m: nat, h: nat, q: nat)
    requires q > 0 && c > 0 && Pow(z, q) == c && Pow(Pow(v, h), q) == Pow(c, m)
    ensures Pow(v, h) == Pow(z, m) && z > 0
  {
    PowTimes(z, q, m);
    PowTimes(z, m, q);
    MulCommute(q, m);
    PowInjective(Pow(v, h), Pow(z, m), q);
  }

  /** And if f*n is e*m then e is a multiple of n. */
  lemma {:induction false} ExponentDivides(f: int, e: int, m: nat, n: nat, d: nat, j: nat)
    requires InLowestTerms(m, n, d, j) && f * n == e * m
    ensures n > 0 && e % n == 0
    decreases n
  {
    PositiveDivisor(n, d, j);
    if n > 1 {
      var q := NextFactor(m, n, d, j);
      var h := n / q;
      DivIdentity(n, q);
      FactorOfProduct(f, h, q);
      PrimeDivides(q, e, m);
      DivIdentity(e, q);
      PositiveDivisor(h, d * q, j);
      SmallerProduct(f, h, q, e / q, m);
      ExponentDivides(f, e / q, m, h, d * q, j);
      MultipleOfProduct(e / q, h, q);
    }
  }

  lemma FactorOfProduct(f: int, h: int, q: nat)
    requires q > 0
    ensures (f * (h * q)) % q == 0
  {
    MulAssociate(f, h, q);
    DivModUnique(f * h * q, q, f * h, 0);
  }

  lemma SmallerProduct(f: int, h: int, q: nat, e: int, m: int)
    requires q > 0 && f * (h * q) == (e * q) * m
    ensures f * h == e * m
  {
    assert (f * h - e * m) * q == 0;
  }

  lemma MultipleOfProduct(e: int, h: nat, q: nat)
    requires h > 0 && q > 0 && e % h == 0
    ensures h * q > 0 && (e * q) % (h * q) == 0
  {
    var w := e / h;
    DivIdentity(e, h);
    MulMonotone(h, 1, q);
    assert e * q == (h * q) * w;
    DivModUnique(e * q, h * q, w, 0);
  }

  // ----- divisors of products of two primes

  /** A power has no prime factor, of two and five, that its base has not. */
  lemma {:induction false} PowNotMultiple(b: nat, q: nat, m: nat)
    requires TwoOrFive(q) && b % q != 0
    ensures Pow(b, m) % q != 0
  {
    if m > 0 {
      PowNotMultiple(b, q, m - 1);
      if Pow(b, m) % q == 0 {
        PrimeDivides(q, b, Pow(b, m - 1));
      }
    }
  }

  /** A divisor of q**i * r**j that r does not divide is a power of q. */
  lemma {:induction false} PrimePowerDivisor(c: nat, d: nat, q: nat, i: nat, r: nat, j: nat) returns (e: nat)
    requires TwoOrFive(q) && TwoOrFive(r) && q != r && c % r != 0 && c * d == Pow(q, i) * Pow(r, j)
    ensures c == Pow(q, e)
    decreases i + j
  {
    if j > 0 {
      CutFactor(c, d, r, Pow(q, i), Pow(r, j - 1));
      e := PrimePowerDivisor(c, d / r, q, i, r, j - 1);
    } else if i == 0 {
      ProductOne(c, d);
      e := 0;
    } else if c % q != 0 {
      CutFactor(c, d, q, Pow(r, j), Pow(q, i - 1));
      e := PrimePowerDivisor(c, d / q, q, i - 1, r, j);
    } else {
      CutDivisor(c, d, q, Pow(r, j), Pow(q, i - 1));
      StillNot(c, q, r);
      e := PrimePowerDivisor(c / q, d, q, i - 1, r, j);
      e := e + 1;
    }
  }

  lemma CutFactor(c: nat, d: nat, r: nat, a: nat, b: nat)
    requires TwoOrFive(r) && c % r != 0 && c * d == a * (r * b)
    ensures d % r == 0 && c * (d / r) == a * b && c * (d / r) == b * a
  {
    MulPull(a, r, b);
    MulCommute(c, d);
    MulCommute(r, a * b);
    DivModUnique(d * c, r, a * b, 0);
    PrimeDivides(r, d, c);
    DivIdentity(d, r);
    SmallerProduct(c, d / r, r, a, b);
    MulCommute(a, b);
  }

  lemma CutDivisor(c: nat, d: nat, r: nat, a: nat, b: nat)
    requires r > 0 && c % r == 0 && c * d == a * (r * b)
    ensures c / r * d == b * a
  {
    DivIdentity(c, r);
    var h := c / r;
    assert (h * r) * d == d * (h * r);
    assert a * (r * b) == (b * r) * a;
    SmallerProduct(d, h, r, b, a);
    MulCommute(d, h);
  }

  lemma StillNot(c: nat, q: nat, r: nat)
    requires TwoOrFive(q) && TwoOrFive(r) && c % q == 0 && c % r != 0
    ensures c / q % r != 0
  {
    DivIdentity(c, q);
    var h := c / q;
    MultipleKeeps(h, q);
  }

  /** Exponents of two different primes are determined by the product. */
  lemma {:induction false} FactorsUnique(q: nat, i: nat, r: nat, j: nat, k: nat, l: nat)
    requires TwoOrFive(q) && TwoOrFive(r) && q != r && Pow(q, i) * Pow(r, j) == Pow(q, k) * Pow(r, l)
    ensures i == k && j == l
    decreases i + k
  {
    if i == 0 && k == 0 {
      if j < l {
        PowStrict(r, j, l);
      } else if l < j {
        PowStrict(r, l, j);
      }
    } else if i > 0 && k > 0 {
      CancelFirst(q, Pow(q, i - 1), Pow(r, j), Pow(q, k - 1), Pow(r, l));
      FactorsUnique(q, i - 1, r, j, k - 1, l);
    } else {
      var a, b := if i > 0 then Pow(q, i - 1) else Pow(q, k - 1), if i > 0 then Pow(r, j) else Pow(r, l);
      MulAssociate(q, a, b);
      MulCommute(q, a * b);
      DivModUnique(q * (a * b), q, a * b, 0);
      PowNotMultiple(r, q, if i > 0 then l else j);
    }
  }

  lemma CancelFirst(q: nat, a: nat, b: nat, c: nat, d: nat)
    requires q > 0 && (q * a) * b == (q * c) * d
    ensures a * b == c * d
  {
    assert (a * b - c * d) * q == 0;
  }
}
