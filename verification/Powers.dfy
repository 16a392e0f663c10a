/** Natural powers and the few facts of nonlinear arithmetic the models share. */
module Powers {
  function Abs(n: int): nat {
    if n < 0 then -n else n
  }

  function Pow(b: nat, e: nat): nat {
    if e == 0 then 1 else b * Pow(b, e - 1)
  }

  /** n * 10**k, by repeated multiplication: in this form everything about it stays linear */
  function Times10(n: int, k: nat): (r: int)
    ensures n >= 0 ==> r >= n
  {
    if k == 0 then n else 10 * Times10(n, k - 1)
  }

  lemma {:induction false} Times10Product(n: int, k: nat)
    ensures Times10(n, k) == n * Pow(10, k)
  {
    if k > 0 {
      Times10Product(n, k - 1);
      MulPull(10, n, Pow(10, k - 1));
    }
  }

  lemma {:induction false} Times10Twice(n: int, j: nat, k: nat)
    ensures Times10(Times10(n, j), k) == Times10(n, j + k)
  {
    if k > 0 {
      Times10Twice(n, j, k - 1);
    }
  }

  lemma {:induction false} Times10Sum(m: int, n: int, k: nat)
    ensures Times10(m + n, k) == Times10(m, k) + Times10(n, k)
  {
    if k > 0 {
      Times10Sum(m, n, k - 1);
    }
  }

  lemma {:induction false} Times10One(k: nat)
    ensures Times10(1, k) == Pow(10, k)
  {
    if k > 0 {
      Times10One(k - 1);
    }
  }

  /** Exact division undoes the shift. */
  lemma Times10Divides(n: nat, k: nat)
    ensures Pow(10, k) > 0
    ensures n % Pow(10, k) == 0 <==> n == Times10(n / Pow(10, k), k)
    ensures Times10(n, k) / Pow(10, k) == n && Times10(n, k) % Pow(10, k) == 0
  {
    PowPositive(10, k);
    var p := Pow(10, k);
    Times10Product(n / p, k);
    Times10Product(n, k);
    assert n == p * (n / p) + n % p;
    DivModUnique(n * p, p, n, 0);
  }

  lemma {:induction false} PowPositive(b: nat, e: nat)
    requires b > 0
    ensures Pow(b, e) > 0
  {
    if e > 0 {
      PowPositive(b, e - 1);
    }
  }

  lemma {:induction false} PowAdd(b: nat, d: nat, e: nat)
    ensures Pow(b, d + e) == Pow(b, d) * Pow(b, e)
  {
    if d > 0 {
      PowAdd(b, d - 1, e);
      MulAssociate(b, Pow(b, d - 1), Pow(b, e));
    }
  }

  lemma {:induction false} PowMonotone(b: nat, d: nat, e: nat)
    requires b > 0 && d <= e
    ensures Pow(b, d) <= Pow(b, e)
  {
    PowAdd(b, d, e - d);
    PowPositive(b, e - d);
    PowPositive(b, d);
    MulMonotone(Pow(b, d), 1, Pow(b, e - d));
  }

  lemma {:induction false} PowStrict(b: nat, d: nat, e: nat)
    requires b > 1 && d < e
    ensures Pow(b, d) < Pow(b, e)
  {
    PowMonotone(b, d + 1, e);
    PowPositive(b, d);
    MulMonotone(Pow(b, d), 2, b);
  }

  lemma {:induction false} PowTimes(b: nat, d: nat, e: nat)
    ensures 0 <= d * e
    ensures Pow(b, d * e) == Pow(Pow(b, d), e)
  {
    if e > 0 {
      PowTimes(b, d, e - 1);
      assert d * e == d + d * (e - 1);
      PowAdd(b, d, d * (e - 1));
    } else {
      assert d * e == 0;
    }
  }

  lemma {:induction false} PowOfProduct(a: nat, b: nat, e: nat)
    ensures Pow(a * b, e) == Pow(a, e) * Pow(b, e)
  {
    if e > 0 {
      PowOfProduct(a, b, e - 1);
      var p, q := Pow(a, e - 1), Pow(b, e - 1);
      MulSwap(a, b, p, q);
    }
  }

  lemma PowOne(e: nat)
    ensures Pow(1, e) == 1
  {
  }

  // ----- products and quotients

  lemma MulAssociate(a: int, b: int, c: int)
    ensures a * (b * c) == (a * b) * c
  {
  }

  lemma MulSwap(a: int, b: int, c: int, d: int)
    ensures (a * b) * (c * d) == (a * c) * (b * d)
  {
    assert (a * b) * (c * d) == a * (b * (c * d)) == a * (c * (b * d));
  }

  lemma MulPull(a: int, b: int, c: int)
    ensures a * (b * c) == b * (a * c)
  {
  }

  lemma MulMonotone(a: int, x: int, y: int)
    requires 0 <= a && x <= y
    ensures a * x <= a * y
  {
  }

  lemma DivIdentity(a: int, b: int)
    requires b > 0
    ensures a == (a / b) * b + a % b
  {
  }

  /** The quotient and remainder are the only pair that fits. */
  lemma DivModUnique(a: int, b: int, q: int, r: int)
    requires a == b * q + r && 0 <= r < b
    ensures a / b == q && a % b == r
  {
    var q', r' := a / b, a % b;
    assert a == b * q' + r';
    assert b * (q - q') == r' - r;
    if q - q' >= 1 {
      MulMonotone(b, 1, q - q');
    } else if q - q' <= -1 {
      MulMonotone(b, q - q', -1);
    }
  }

  /** A comparison with a multiple decides the quotient. */
  lemma DivLess(a: int, b: int, c: int)
    requires 0 < b && a < b * c
    ensures a / b < c
  {
    if a / b >= c {
      MulMonotone(b, c, a / b);
    }
  }

  lemma DivAtLeast(a: int, b: int, c: int)
    requires 0 < b && b * c <= a
    ensures c <= a / b
  {
    if a / b < c {
      MulMonotone(b, a / b + 1, c);
    }
  }

  lemma DivPositive(a: int, b: int)
    requires 0 <= a && 0 < b
    ensures 0 <= a / b <= a
  {
    DivAtLeast(a, b, 0);
    if a / b > a {
      MulMonotone(b, a + 1, a / b);
      MulMonotone(a + 1, 1, b);
    }
  }

  /** Dividing twice is dividing by the product. */
  lemma DivTwice(a: nat, b: nat, c: nat)
    requires 0 < b && 0 < c
    ensures 0 < b * c
    ensures a / (b * c) == a / b / c
    ensures a % (b * c) == a % b + b * (a / b % c)
  {
    var q, r := a / b, a % b;
    DivPositive(a, b);
    var q', r' := q / c, q % c;
    assert a == b * q + r;
    assert q == c * q' + r';
    assert b * q == b * (c * q' + r') == b * c * q' + b * r';
    MulMonotone(b, r', c - 1);
    MulMonotone(b, 0, r');
    assert b * (c - 1) == b * c - b;
    MulMonotone(b, 1, c);
    DivModUnique(a, b * c, q', b * r' + r);
  }
}
