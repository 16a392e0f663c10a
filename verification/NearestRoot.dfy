/** The closest integer to a square root, by iterating towards it from any start. */
module NearestRoot {
  import opened Powers
  import opened PythonText

  /** k is the integer closest to the square root of n. */
  predicate Nearest(n: int, k: int) {
    k >= 1 && k * k - k < n <= k * k + k
  }

  lemma NearestUnique(n: int, j: int, k: int)
    requires Nearest(n, j) && Nearest(n, k)
    ensures j == k
  {
    if j < k {
      NearestApart(j, k);
    } else if k < j {
      NearestApart(k, j);
    }
  }

  lemma NearestApart(j: int, k: int)
    requires 1 <= j < k
    ensures j * j + j <= k * k - k
  {
    MulMonotone(j + 1, j, k - 1);
    MulMonotone(k - 1, j + 1, k);
  }

  lemma {:induction false} NearestExists(n: int) returns (k: int)
    requires n >= 1
    ensures Nearest(n, k)
  {
    if n == 1 {
      k := 1;
    } else {
      k := NearestExists(n - 1);
      if n > k * k + k {
        k := k + 1;
      }
    }
  }

  /** -(-n // a) */
  function CeilDiv(n: int, a: int): int
    requires a >= 1
  {
    -(-n / a)
  }

  lemma CeilBounds(n: int, a: int)
    requires a >= 1
    ensures (CeilDiv(n, a) - 1) * a < n <= CeilDiv(n, a) * a
  {
    DivIdentity(-n, a);
  }

  /** The average of a and n/a is never below the closest integer, ... */
  lemma StepAbove(n: int, k: int, a: int, c: int)
    requires Nearest(n, k) && a >= 1 && n <= c * a
    ensures a + c >= 2 * k
  {
    if a + c <= 2 * k - 1 {
      var s := 2 * k - 1;
      assert 4 * (c * a) >= 4 * (k * k) - 4 * k + 4;
      assert s * s == 4 * (k * k) - 4 * k + 1;
      FourProducts(a, c);
      SquaresOrdered(a + c, s, c * a);
    }
  }

  lemma FourProducts(a: int, c: int)
    ensures 4 * (c * a) <= (a + c) * (a + c)
  {
    var d := a - c;
    assert d * d >= 0;
    assert d * d == a * a - 2 * (a * c) + c * c;
    assert (a + c) * (a + c) == a * a + 2 * (a * c) + c * c;
  }

  lemma SquaresOrdered(t: int, s: int, q: int)
    requires t <= s && s >= 1 && 4 * q <= t * t && 4 * q > s * s && q >= 1
    ensures t < 0
  {
    if t >= 0 {
      MulMonotone(t, t, s);
      MulMonotone(s, t, s);
    }
  }

  /** ... and from above it moves down, unless it is there. */
  lemma StepDown(n: int, k: int, a: int, c: int)
    requires Nearest(n, k) && a >= k && (c - 1) * a < n <= c * a
    ensures a > k ==> c <= a - 1
    ensures a == k ==> a <= c <= a + 1
  {
    if a > k {
      MulMonotone(k + 1, k, a - 1);
      MulMonotone(a - 1, k + 1, a);
      if c >= a {
        MulMonotone(a, a - 1, c - 1);
      }
    } else {
      if c >= a + 2 {
        MulMonotone(a, a + 1, c - 1);
      } else if c <= a - 1 {
        MulMonotone(a, c, a - 1);
      }
    }
  }

  /** One iteration from a */
  lemma Step(n: int, k: int, a: int)
    requires Nearest(n, k) && a >= 1
    ensures (a + CeilDiv(n, a)) / 2 >= k
    ensures a > k ==> (a + CeilDiv(n, a)) / 2 < a
    ensures a == k ==> (a + CeilDiv(n, a)) / 2 == a
  {
    var c := CeilDiv(n, a);
    CeilBounds(n, a);
    StepAbove(n, k, a, c);
    if a >= k {
      StepDown(n, k, a, c);
    }
  }

  /** _sqrt_nearest: any positive start leads to the closest integer; None stands for the ValueError. */
  method SqrtNearest(n: int, start: int) returns (r: Option<int>)
    ensures r.None? <==> n <= 0 || start <= 0
    ensures r.Some? ==> Nearest(n, r.value)
  {
    if n <= 0 || start <= 0 {
      return None;
    }
    ghost var k := NearestExists(n);
    var a, b := start, 0;
    while a != b
      invariant a >= 1 && b >= 0
      invariant b != 0 ==> a >= k
      invariant a == b ==> a == k
      decreases if b == 0 then 1 else 0, if a != b then a + 1 else a
    {
      Step(n, k, a);
      b, a := a, (a + CeilDiv(n, a)) / 2;
    }
    r := Some(a);
  }
}
