/** The integer n-th root behind exact powers. */
module IntegerRoots {
  import opened Powers
  import opened PythonText
  import opened Bits

  /** a is the floor of the n-th root of c. */
  ghost predicate IsFloorRoot(c: nat, n: nat, a: nat) {
    Pow(a, n) <= c < Pow(a + 1, n)
  }

  lemma {:induction false} PowOrder(a: nat, b: nat, n: nat)
    requires a <= b
    ensures Pow(a, n) <= Pow(b, n)
  {
    if n > 0 {
      PowOrder(a, b, n - 1);
      var p, q := Pow(a, n - 1), Pow(b, n - 1);
      MulMonotone(a, p, q);
      MulMonotone(q, a, b);
    }
  }

  lemma PowOrderStrict(a: nat, b: nat, n: nat)
    requires a < b && n > 0
    ensures Pow(a, n) < Pow(b, n)
  {
    PowOrder(a, b, n - 1);
    PowPositive(b, n - 1);
    StrictProducts(a, b, Pow(a, n - 1), Pow(b, n - 1));
  }

  lemma StrictProducts(a: nat, b: nat, p: nat, q: nat)
    requires a < b && p <= q && q > 0
    ensures a * p < b * q
  {
    MulMonotone(a, p, q);
    MulMonotone(q, a + 1, b);
  }

  lemma FloorRootUnique(c: nat, n: nat, a: nat, b: nat)
    requires IsFloorRoot(c, n, a) && IsFloorRoot(c, n, b)
    ensures a == b
  {
    if a < b {
      PowOrder(a + 1, b, n);
    } else if b < a {
      PowOrder(b + 1, a, n);
    }
  }

  // ----- the curve lies above its tangent

  lemma TangentStep(t: int, a: int, n: int, p: int, h: int)
    requires t >= 0 && p >= 0 && n >= 0 && h >= p * (n * t - (n - 1) * a)
    ensures t * h >= p * a * ((n + 1) * t - n * a)
  {
    var line := n * t - (n - 1) * a;
    var next := (n + 1) * t - n * a;
    MulMonotone(t, p * line, h);
    BracketIsSquare(t, a, n);
    assert n * ((t - a) * (t - a)) >= 0 by {
      SquareNotNegative(t - a);
      MulMonotone(n, 0, (t - a) * (t - a));
    }
    MulMonotone(p, a * next, t * line);
    assert t * (p * line) == p * (t * line);
    assert p * a * next == p * (a * next);
  }

  lemma SquareNotNegative(x: int)
    ensures x * x >= 0
  {
  }

  lemma BracketIsSquare(t: int, a: int, n: int)
    ensures t * (n * t - (n - 1) * a) - a * ((n + 1) * t - n * a) == n * ((t - a) * (t - a))
  {
    var u, v := t - a, n * (t - a);
    LineFrom(t, a, n, v);
    // both lines through v: n*t - (n-1)*a is a + v, and (n+1)*t - n*a is t + v
    assert t * (a + v) - a * (t + v) == u * v;
    MulAcross(u, n);
  }

  lemma LineFrom(t: int, a: int, n: int, v: int)
    requires v == n * (t - a)
    ensures n * t - (n - 1) * a == a + v && (n + 1) * t - n * a == t + v
  {
  }

  lemma MulAcross(u: int, n: int)
    ensures u * (n * u) == n * (u * u)
  {
  }

  /** t**n >= a**(n-1) * (n*t - (n-1)*a) */
  lemma {:induction false} Tangent(t: nat, a: nat, n: nat)
    requires n >= 1
    ensures Pow(t, n) >= Pow(a, n - 1) * (n * t - (n - 1) * a)
  {
    if n == 1 {
      assert Pow(t, 1) == t * Pow(t, 0);
    } else {
      Tangent(t, a, n - 1);
      TangentStep(t, a, n - 1, Pow(a, n - 2), Pow(t, n - 1));
      MulCommute(Pow(a, n - 2), a);
    }
  }

  lemma MulCommute(a: int, b: int)
    ensures a * b == b * a
  {
  }

  /** One step of the iteration stays above the root. */
  lemma NewtonAbove(c: nat, n: nat, a: nat, q: nat, a': nat)
    requires n >= 1 && a >= 1
    requires Pow(a, n - 1) * (q + 1) > c
    requires n * a' <= a * (n - 1) + q < n * a' + n
    ensures Pow(a' + 1, n) > c
  {
    var t, p := a' + 1, Pow(a, n - 1);
    Tangent(t, a, n);
    assert n * t == n * a' + n;
    MulCommute(a, n - 1);
    MulMonotone(p, q + 1, n * t - (n - 1) * a);
  }

  lemma NewtonBelow(n: nat, a: nat, q: nat, a': nat)
    requires n >= 1 && q < a && n * a' <= a * (n - 1) + q
    ensures a' < a
  {
    assert a * (n - 1) == n * a - a;
    if a' >= a {
      MulMonotone(n, a, a');
    }
  }

  /** The power of two the iteration starts from is above the root. */
  lemma StartAbove(c: nat, n: nat, k: nat)
    requires n >= 1 && c < Pow(2, BitLength(c)) && BitLength(c) <= n * k
    ensures Pow(Pow(2, k), n) > c
  {
    PowTimes(2, k, n);
    MulCommute(n, k);
    PowMonotone(2, BitLength(c), k * n);
  }

  lemma CeilingCovers(b: nat, n: nat)
    requires n >= 1
    ensures -((0 - b) / n) >= 0 && b <= n * -((0 - b) / n)
  {
    DivIdentity(0 - b, n);
    var q := (0 - b) / n;
    if q >= 1 {
      MulMonotone(n, 1, q);
    }
  }

  lemma DivFloor(x: nat, n: nat)
    requires n >= 1
    ensures x / n >= 0 && n * (x / n) <= x < n * (x / n) + n
  {
    DivIdentity(x, n);
    DivPositive(x, n);
  }

  /** The initial estimate 1 << -(-nbits(c) // n) */
  function Estimate(c: nat, n: nat): nat
    requires n >= 1
  {
    CeilingCovers(BitLength(c), n);
    Pow(2, -((0 - BitLength(c)) / n))
  }

  lemma EstimateAbove(c: nat, n: nat)
    requires n >= 1
    ensures Estimate(c, n) >= 1 && Pow(Estimate(c, n) + 1, n) > c
  {
    var k := -((0 - BitLength(c)) / n);
    CeilingCovers(BitLength(c), n);
    BitLengthPow(c);
    PowPositive(2, k);
    StartAbove(c, n, k);
    PowOrder(Pow(2, k), Pow(2, k) + 1, n);
  }

  lemma {:induction false} BitLengthPow(c: nat)
    ensures c < Pow(2, BitLength(c))
    ensures c > 0 ==> Pow(2, BitLength(c) - 1) <= c
  {
    if c > 1 {
      BitLengthPow(c / 2);
    } else {
      assert Pow(2, 1) == 2 * Pow(2, 0);
    }
  }

  /** Newton's iteration from 2**ceil(nbits/n) stops at the floor of the n-th root. */
  method FloorRoot(c: nat, n: nat) returns (a: nat, q: nat, r: nat)
    requires c >= 1 && n >= 1
    ensures a >= 1 && IsFloorRoot(c, n, a)
    ensures Pow(a, n - 1) >= 1 && c == Pow(a, n - 1) * q + r && r < Pow(a, n - 1)
  {
    EstimateAbove(c, n);
    a := Estimate(c, n);
    while true
      invariant a >= 1 && Pow(a + 1, n) > c
      decreases a
    {
      PowPositive(a, n - 1);
      q, r := DivMod(c, Pow(a, n - 1));
      if a <= q {
        FloorReached(c, n, a, q, r);
        break;
      }
      a := NextEstimate(c, n, a, q, r);
    }
  }

  method DivMod(c: nat, d: nat) returns (q: nat, r: nat)
    requires d >= 1
    ensures c == d * q + r && r < d
  {
    DivFloor(c, d);
    q, r := c / d, c % d;
  }

  lemma FloorReached(c: nat, n: nat, a: nat, q: nat, r: nat)
    requires n >= 1 && a <= q && c == Pow(a, n - 1) * q + r
    ensures Pow(a, n) <= c
  {
    var p := Pow(a, n - 1);
    MulMonotone(p, a, q);
    MulCommute(a, p);
  }

  method NextEstimate(c: nat, n: nat, a: nat, q: nat, r: nat) returns (a': nat)
    requires c >= 1 && n >= 1 && a >= 1 && q < a
    requires c == Pow(a, n - 1) * q + r && r < Pow(a, n - 1)
    ensures 1 <= a' < a && Pow(a' + 1, n) > c
  {
    MulMonotone(a, 0, n - 1);
    DivFloor(a * (n - 1) + q, n);
    a' := (a * (n - 1) + q) / n;
    assert Pow(a, n - 1) * (q + 1) == Pow(a, n - 1) * q + Pow(a, n - 1);
    NewtonAbove(c, n, a, q, a');
    NewtonBelow(n, a, q, a');
    if a' == 0 {
      PowOne(n);
    }
  }

  /** The test after the loop accepts exactly the n-th powers. */
  lemma ExactIffPower(c: nat, n: nat, a: nat, q: nat, r: nat)
    requires n >= 1 && IsFloorRoot(c, n, a) && c == Pow(a, n - 1) * q + r && r < Pow(a, n - 1)
    ensures a == q && r == 0 <==> Pow(a, n) == c
    ensures Pow(a, n) == c <==> exists s: nat :: Pow(s, n) == c
  {
    var p := Pow(a, n - 1);
    MulCommute(a, p);
    if Pow(a, n) == c {
      DivModUnique(c, p, a, 0);
      DivModUnique(c, p, q, r);
    }
    if exists s: nat :: Pow(s, n) == c {
      var s: nat :| Pow(s, n) == c;
      PowOrderStrict(s, s + 1, n);
      FloorRootUnique(c, n, a, s);
    }
  }

  /** A number of at most n bits, other than 1, is no n-th power. */
  lemma FewBitsNoPower(c: nat, n: nat, s: nat)
    requires c > 1 && BitLength(c) <= n
    ensures Pow(s, n) != c
  {
    BitLengthPow(c);
    PowMonotone(2, BitLength(c), n);
    if s >= 2 {
      PowOrder(2, s, n);
    } else {
      PowOrder(s, 1, n);
      PowOne(n);
    }
  }

  /** The n-th root of c, when c is an n-th power */
  method ExactRoot(c: nat, n: nat) returns (root: Option<nat>)
    requires c >= 1 && n >= 1
    ensures root.Some? ==> Pow(root.value, n) == c
    ensures root.Some? <==> exists s: nat :: Pow(s, n) == c
  {
    var a, q, r := FloorRoot(c, n);
    ExactIffPower(c, n, a, q, r);
    if a == q && r == 0 {
      root := Some(a);
    } else {
      root := None;
    }
  }
}
