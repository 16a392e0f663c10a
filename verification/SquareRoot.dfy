/** Square root: an integer root with a digit to spare, rounded half-even whatever the context says. */
module SquareRoot {
  import opened Powers
  import opened DigitStrings
  import opened Rounding
  import opened Decimals
  import opened ExactRounding
  import opened Sticky
  import opened Addition

  // ----- the integer square root

  predicate IsFloorSqrt(c: nat, n: nat) {
    n * n <= c < (n + 1) * (n + 1)
  }

  lemma NewtonStaysAbove(c: nat, n: nat)
    requires n > 0
    ensures 0 <= c / n
    ensures ((n + c / n) / 2 + 1) * ((n + c / n) / 2 + 1) > c
  {
    DivPositive(c, n);
    DivIdentity(c, n);
    AverageAbove(c, n, c / n, (n + c / n) / 2);
  }

  lemma AverageAbove(c: nat, n: nat, q: nat, n': nat)
    requires q * n <= c < q * n + n && n' == (n + q) / 2
    ensures (n' + 1) * (n' + 1) > c
  {
    var m, d := n + (q + 1), n - (q + 1);
    assert n * (q + 1) == q * n + n;
    assert m * m == d * d + 4 * (n * (q + 1));
    assert d * d >= 0;
    SquareMonotone(m, 2 * (n' + 1));
    assert (2 * (n' + 1)) * (2 * (n' + 1)) == 4 * ((n' + 1) * (n' + 1));
  }

  lemma SquareMonotone(a: int, b: int)
    requires 0 <= a <= b
    ensures a * a <= b * b
  {
    MulMonotone(a, a, b);
    MulMonotone(b, a, b);
  }

  /** Newton's iteration from above stops at the floor of the root. */
  method FloorSqrt(c: nat, start: nat) returns (n: nat)
    requires c > 0 && start * start > c
    ensures IsFloorSqrt(c, n)
  {
    n := start;
    assert (n + 1) * (n + 1) == n * n + 2 * n + 1;
    while true
      invariant n > 0 && (n + 1) * (n + 1) > c
      decreases n
    {
      var q := c / n;
      assert n == 1 ==> q == c;
      if n <= q {
        MulMonotone(n, n, q);
        break;
      }
      NewtonStaysAbove(c, n);
      n := (n + q) / 2;
    }
  }

  lemma SquareEndsInZero(n: nat, m: int)
    requires n * n == 10 * m
    ensures n % 10 == 0
  {
    var t, d := n / 10, n % 10;
    SquareByDigit(t, d);
    SquareOfDigit(d, m - (10 * (t * t) + 2 * (t * d)));
  }

  lemma SquareByDigit(t: nat, d: nat)
    ensures (10 * t + d) * (10 * t + d) == 10 * (10 * (t * t) + 2 * (t * d)) + d * d
  {
  }

  lemma SquareOfDigit(d: nat, k: int)
    requires d < 10 && d * d == 10 * k
    ensures d == 0
  {
    assert d in {0, 1, 2, 3, 4, 5, 6, 7, 8, 9};
  }

  lemma TenthSquared(n: nat, t: nat, m: int)
    requires n == 10 * t && n * n == 10 * (10 * m)
    ensures t * t == m
  {
    MulSwap(10, t, 10, t);
  }

  /** A square that ends in two zeros for every place is the square of a number that ends in one. */
  lemma {:induction false} RootOfShifted(n: nat, c: nat, k: nat)
    requires n * n == Times10(c, 2 * k)
    ensures Pow(10, k) > 0 && n == Times10(n / Pow(10, k), k)
  {
    PowPositive(10, k);
    if k > 0 {
      var m := Times10(c, 2 * (k - 1));
      assert n * n == 10 * (10 * m);
      SquareEndsInZero(n, 10 * m);
      var t := n / 10;
      TenthSquared(n, t, m);
      RootOfShifted(t, c, k - 1);
      Times10Divides(t / Pow(10, k - 1), k);
    }
  }

  // ----- the argument, scaled

  /**
   The argument as c * 100^e, padded or cut to prec base-100 digits; exact when nothing was cut off.
   A power of a hundred is written as ten to twice the exponent.
   */
  ghost predicate Prepared(a: Decimal, prec: nat, c: nat, e: int, shift: int, exact: bool)
    requires a.Finite? && prec >= 1
  {
    var c0, e0 := if a.exp % 2 == 1 then a.coef * 10 else a.coef, a.exp / 2;
    && e == e0 - shift
    && (shift >= 0 ==> c == Times10(c0, 2 * shift) && exact)
    && (shift < 0 ==> Pow(10, -2 * shift) > 0 && c == c0 / Pow(10, -2 * shift))
    && (shift < 0 ==> (exact <==> c0 % Pow(10, -2 * shift) == 0))
    && 2 * prec - 1 <= NumDigits(c) <= 2 * prec
    && c > 0
  }

  method Prepare(a: Decimal, prec: nat) returns (c: nat, e: int, shift: int, exact: bool)
    requires a.Finite? && a.coef > 0 && prec >= 1
    ensures Prepared(a, prec, c, e, shift, exact)
  {
    e := a.exp / 2;
    var l;
    if a.exp % 2 == 1 {
      c := a.coef * 10;
      l := NumDigits(a.coef) / 2 + 1;
    } else {
      c := a.coef;
      l := (NumDigits(a.coef) + 1) / 2;
    }
    shift := prec - l;
    if shift >= 0 {
      NumDigitsShift(c, 2 * shift);
      c := Times10(c, 2 * shift);
      exact := true;
    } else {
      NumDigitsDrop(c, -2 * shift);
      NumDigitsDropPositive(c, -2 * shift);
      var p := Pow(10, -2 * shift);
      exact := c % p == 0;
      c := c / p;
    }
    e := e - shift;
  }

  // ----- the exact root

  /** The magnitude of the argument in units of 100^e lies in [c, c + 1), and is c exactly when exact. */
  lemma PreparedValue(a: Decimal, prec: nat, c: nat, e: int, shift: int, exact: bool)
    requires prec >= 1 && a.Finite? && a.coef > 0 && Prepared(a, prec, c, e, shift, exact)
    ensures c as real <= Scale(Magnitude(a), -2 * e) < (c + 1) as real
    ensures exact <==> Scale(Magnitude(a), -2 * e) == c as real
  {
    var c0, e0 := if a.exp % 2 == 1 then a.coef * 10 else a.coef, a.exp / 2;
    if a.exp % 2 == 1 {
      MagnitudeShift(false, a.coef, a.exp, 1);
      assert Pow(10, 1) == 10;
    }
    assert Magnitude(a) == Scale(c0 as real, 2 * e0);
    ScaleTwice(c0 as real, 2 * e0, -2 * e);
    assert 2 * e0 - 2 * e == 2 * shift;
    if shift >= 0 {
      ScaleWhole(c0, 2 * shift);
    } else {
      RatioFloor(c0, -2 * shift);
    }
  }

  lemma RealSquareOrder(x: real, y: real)
    requires x >= 0.0 && y >= 0.0
    ensures x < y <==> x * x < y * y
    ensures x == y <==> x * x == y * y
  {
    if x < y {
      RealSquareLess(x, y);
    } else if y < x {
      RealSquareLess(y, x);
    }
  }

  lemma RealSquareLess(x: real, y: real)
    requires 0.0 <= x < y
    ensures x * x < y * y
  {
    DifferenceOfSquares(x, y);
    PositiveProduct(y - x, y + x);
  }

  lemma DifferenceOfSquares(x: real, y: real)
    ensures (y - x) * (y + x) == y * y - x * x
  {
  }

  lemma PositiveProduct(x: real, y: real)
    requires x > 0.0 && y > 0.0
    ensures x * y > 0.0
  {
  }

  /** The root, in units of 10^e */
  lemma ScaledRoot(root: real, x: real, e: int)
    requires root >= 0.0 && root * root == x
    ensures Scale(root, -e) >= 0.0
    ensures Scale(root, -e) * Scale(root, -e) == Scale(x, -2 * e)
    ensures Scale(Scale(root, -e), e) == root
  {
    ScaleOrder(0.0, root, -e);
    ScaleZero(-e);
    ScaleProduct(root, root, x, -e, -e);
    ScaleTwice(root, -e, e);
  }

  lemma EnoughDigits(c: nat, n: nat, prec: nat)
    requires prec >= 1 && NumDigits(c) >= 2 * prec - 1 && c > 0 && IsFloorSqrt(c, n)
    ensures n > 0 && NumDigits(n) >= prec
  {
    var t := Pow(10, prec - 1);
    NumDigitsBounds(c);
    PowMonotone(10, 2 * (prec - 1), NumDigits(c) - 1);
    PowAdd(10, prec - 1, prec - 1);
    PowPositive(10, prec - 1);
    if n < t {
      SquareMonotone(n + 1, t);
    }
    NumDigitsUnique(t, prec - 1);
    NumDigitsMonotone(t, n);
  }

  lemma StartIsAbove(c: nat, prec: nat)
    requires NumDigits(c) <= 2 * prec
    ensures Pow(10, prec) * Pow(10, prec) > c
  {
    NumDigitsBounds(c);
    PowMonotone(10, NumDigits(c), 2 * prec);
    PowAdd(10, prec, prec);
  }

  /** What the square root hands to the final rounding when the integer root n is not exact */
  function Nudged(n: nat, e: int): Decimal {
    Finite(false, if n % 5 == 0 then n + 1 else n, e)
  }

  /** Everything between n and n + 1 is rounded as the nudged n is. */
  lemma NudgedRoot(p: Params, n: nat, e: int, y: real)
    requires p.Valid() && n > 0 && NumDigits(n) > p.prec && n as real < y < (n + 1) as real
    ensures CorrectlyRounded(p, false, Scale(y, e), FixValue(p, Nudged(n, e)), FixSignals(p, Nudged(n, e)))
    ensures Inexact in FixSignals(p, Nudged(n, e))
  {
    var low := n - n % 5;
    NumDigitsMonotone(n, n + 1);
    StickyFix(p, Nudged(n, e), y, low);
    CellQuantum(p, Nudged(n, e), y, low);
  }

  /** An exact root, moved to the ideal exponent */
  function Idealized(n: nat, e: int, shift: int): Decimal {
    if shift >= 0 then
      PowPositive(10, shift);
      DivPositive(n, Pow(10, shift));
      Finite(false, n / Pow(10, shift), e + shift)
    else Finite(false, Times10(n, -shift), e + shift)
  }

  lemma IdealizedMagnitude(a: Decimal, prec: nat, c: nat, e: int, shift: int, n: nat)
    requires prec >= 1 && a.Finite? && a.coef > 0 && Prepared(a, prec, c, e, shift, true) && n * n == c
    ensures Idealized(n, e, shift).exp == a.exp / 2
    ensures Magnitude(Idealized(n, e, shift)) == Scale(n as real, e)
  {
    if shift >= 0 {
      RootOfShifted(n, if a.exp % 2 == 1 then a.coef * 10 else a.coef, shift);
      MagnitudeShift(false, n / Pow(10, shift), e + shift, shift);
    } else {
      MagnitudeShift(false, n, e, -shift);
    }
  }

  lemma IdealizedValue(a: Decimal, prec: nat, c: nat, e: int, shift: int, n: nat)
    requires prec >= 1 && a.Finite? && a.coef > 0 && Prepared(a, prec, c, e, shift, true) && n * n == c
    ensures Idealized(n, e, shift).exp == a.exp / 2 && Idealized(n, e, shift).coef > 0
    ensures Magnitude(Idealized(n, e, shift)) * Magnitude(Idealized(n, e, shift)) == Magnitude(a)
  {
    IdealizedMagnitude(a, prec, c, e, shift, n);
    PreparedValue(a, prec, c, e, shift, true);
    RootSquared(n, c, e, Magnitude(a));
    PositiveRoot(n);
    ScalePositive(n as real, e);
    ScaleZero(a.exp / 2);
  }

  lemma PositiveRoot(n: nat)
    requires n * n > 0
    ensures n > 0
  {
  }

  lemma RootSquared(n: nat, c: nat, e: int, x: real)
    requires n * n == c && Scale(x, -2 * e) == c as real
    ensures Scale(n as real, e) * Scale(n as real, e) == x
  {
    WholeSquare(n);
    ScaleProduct(n as real, n as real, c as real, e, e);
    ScaleTwice(x, -2 * e, 2 * e);
  }

  lemma WholeSquare(n: int)
    ensures (n * n) as real == n as real * n as real
  {
  }

  // ----- the operation

  /** The square of the magnitude x lies strictly between the squares of n and n + 1 units of 10^e. */
  ghost predicate SquareBetween(x: real, n: nat, e: int) {
    Scale((n * n) as real, 2 * e) < x < Scale(((n + 1) * (n + 1)) as real, 2 * e)
  }

  /**
   s, fixed under p, is a correctly rounded root of the magnitude x.  Either s is the root itself at
   the ideal exponent; or the root lies strictly between n and n + 1 units, and everything there is
   rounded alike.
   */
  ghost predicate RootRounded(p: Params, x: real, s: Decimal, ideal: int)
    requires p.Valid() && s.Finite?
  {
    || (Magnitude(s) * Magnitude(s) == x && s.coef > 0 && s.exp == ideal)
    || (Inexact in FixSignals(p, s) && exists n, e ::
          SquareBetween(x, n, e) && RoundsAllBetween(p, n, e, s))
  }

  ghost predicate RoundsAllBetween(p: Params, n: nat, e: int, s: Decimal)
    requires p.Valid()
  {
    forall y :: n as real < y < (n + 1) as real ==>
      CorrectlyRounded(p, false, Scale(y, e), FixValue(p, s), FixSignals(p, s))
  }

  lemma FloorBetween(x: real, z: real, c: nat, n: nat, e: int)
    requires z == Scale(x, -2 * e) && c as real <= z < (c + 1) as real && IsFloorSqrt(c, n)
    requires z != (n * n) as real
    ensures SquareBetween(x, n, e)
  {
    ScaleTwice(x, -2 * e, 2 * e);
    ScaleOrder((n * n) as real, z, 2 * e);
    ScaleOrder(z, ((n + 1) * (n + 1)) as real, 2 * e);
    assert (n * n) as real <= c as real < ((n + 1) * (n + 1)) as real;
    assert (c + 1) as real <= ((n + 1) * (n + 1)) as real;
  }

  /** Any real root is correctly rounded. */
  lemma RootRoundedReal(p: Params, x: real, s: Decimal, ideal: int, root: real)
    requires p.Valid() && s.Finite? && !s.neg && RootRounded(p, x, s, ideal)
    requires root >= 0.0 && root * root == x
    ensures CorrectlyRounded(p, false, root, FixValue(p, s), FixSignals(p, s))
  {
    if Magnitude(s) * Magnitude(s) == x && s.coef > 0 && s.exp == ideal {
      SameRoot(root, s);
      FixCorrect(p, s);
    } else {
      var n, e :| SquareBetween(x, n, e) && RoundsAllBetween(p, n, e, s);
      RootIsBetween(p, x, s, root, n, e);
    }
  }

  lemma SameRoot(root: real, s: Decimal)
    requires s.Finite? && s.coef > 0 && root >= 0.0 && root * root == Magnitude(s) * Magnitude(s)
    ensures root == Magnitude(s)
  {
    MagnitudeLeads(s);
    RealSquareOrder(root, Magnitude(s));
  }

  lemma RootIsBetween(p: Params, x: real, s: Decimal, root: real, n: nat, e: int)
    requires p.Valid() && s.Finite? && SquareBetween(x, n, e) && RoundsAllBetween(p, n, e, s)
    requires root >= 0.0 && root * root == x
    ensures CorrectlyRounded(p, false, root, FixValue(p, s), FixSignals(p, s))
  {
    var y := RootInUnits(x, root, n, e);
    assert CorrectlyRounded(p, false, Scale(y, e), FixValue(p, s), FixSignals(p, s));
  }

  lemma RootInUnits(x: real, root: real, n: nat, e: int) returns (y: real)
    requires SquareBetween(x, n, e) && root >= 0.0 && root * root == x
    ensures n as real < y < (n + 1) as real && Scale(y, e) == root
  {
    y := Scale(root, -e);
    ScaledRoot(root, x, e);
    RootBetween(x, n, e, y);
  }

  lemma RootBetween(x: real, n: nat, e: int, y: real)
    requires SquareBetween(x, n, e) && y >= 0.0 && y * y == Scale(x, -2 * e)
    ensures n as real < y < (n + 1) as real
  {
    var z := Scale(x, -2 * e);
    ScaleTwice(x, -2 * e, 2 * e);
    ScaleOrder((n * n) as real, z, 2 * e);
    ScaleOrder(z, ((n + 1) * (n + 1)) as real, 2 * e);
    WholeSquare(n);
    WholeSquare(n + 1);
    RealSquareOrder(n as real, y);
    RealSquareOrder(y, (n + 1) as real);
  }

  /**
   The square root.  The ghost result s is the value handed to the final rounding, which is done
   half-even in a copy of the context that shares its flags.
   */
  method Sqrt(a: Decimal, ctx: Context) returns (r: Decimal, ghost s: Decimal)
    requires ctx.Valid()
    modifies ctx.flags
    ensures a.NaN? ==>
      && r == Quieted(ctx.P(), a)
      && ctx.flags.raised == old(ctx.flags.raised) + if a.signaling then {InvalidOperation} else {}
    ensures a == Infinity(false) ==> r == a && ctx.flags.raised == old(ctx.flags.raised)
    ensures a.IsZero() ==>
      && r == FixValue(ctx.P(), Finite(a.neg, 0, a.exp / 2))
      && ctx.flags.raised == old(ctx.flags.raised) + FixSignals(ctx.P(), Finite(a.neg, 0, a.exp / 2))
    ensures !a.NaN? && !a.IsZero() && a.neg ==>
      r == QuietNaN && ctx.flags.raised == old(ctx.flags.raised) + {InvalidOperation}
    ensures a.Finite? && !a.neg && a.coef > 0 ==>
      var p := ctx.P().(mode := RoundHalfEven);
      && s.Finite? && !s.neg
      && r == FixValue(p, s)
      && ctx.flags.raised == old(ctx.flags.raised) + FixSignals(p, s)
      && RootRounded(p, Magnitude(a), s, a.exp / 2)
  {
    s := a;
    if a.NaN? {
      r := CheckNaNs(a, a, ctx);
      return;
    }
    if a.Infinity? && !a.neg {
      r := a;
      return;
    }
    if a.IsZero() {
      r := Fix(Finite(a.neg, 0, a.exp / 2), ctx);
      return;
    }
    if a.neg {
      r := ctx.RaiseError(Invalid);
      return;
    }
    var ans := RootDecimal(a, ctx.P().(mode := RoundHalfEven), ctx.prec);
    s := ans;
    var copy := ctx.ShallowCopy();
    var rounding := copy.SetRounding(RoundHalfEven);
    r := Fix(ans, copy);
    copy.mode := rounding;
  }

  method RootDecimal(a: Decimal, ghost p: Params, prec0: int) returns (s: Decimal)
    requires a.Finite? && a.coef > 0 && p.Valid() && p.prec == prec0
    ensures s.Finite? && !s.neg && RootRounded(p, Magnitude(a), s, a.exp / 2)
  {
    var prec := prec0 + 1;
    var c, e, shift, exact := Prepare(a, prec);
    StartIsAbove(c, prec);
    var n := FloorSqrt(c, Pow(10, prec));
    RootOfPrepared(p, a, c, e, shift, exact, n);
    exact := exact && n * n == c;
    if exact {
      if shift >= 0 {
        PowPositive(10, shift);
        s := Finite(false, n / Pow(10, shift), e + shift);
      } else {
        s := Finite(false, Times10(n, -shift), e + shift);
      }
    } else {
      if n % 5 == 0 {
        n := n + 1;
      }
      s := Finite(false, n, e);
    }
  }

  /** Either way of finishing the root is right. */
  lemma RootOfPrepared(p: Params, a: Decimal, c: nat, e: int, shift: int, exact: bool, n: nat)
    requires a.Finite? && a.coef > 0 && p.Valid() && Prepared(a, p.prec + 1, c, e, shift, exact)
    requires IsFloorSqrt(c, n)
    ensures exact && n * n == c ==> RootRounded(p, Magnitude(a), Idealized(n, e, shift), a.exp / 2)
    ensures !(exact && n * n == c) ==> RootRounded(p, Magnitude(a), Nudged(n, e), a.exp / 2)
  {
    if exact && n * n == c {
      IdealizedValue(a, p.prec + 1, c, e, shift, n);
    } else {
      InexactRoot(p, a, c, e, shift, exact, n);
    }
  }

  /** An inexact root: the nudged floor is rounded as everything around the root is. */
  lemma InexactRoot(p: Params, a: Decimal, c: nat, e: int, shift: int, exact: bool, n: nat)
    requires a.Finite? && a.coef > 0 && p.Valid() && Prepared(a, p.prec + 1, c, e, shift, exact)
    requires IsFloorSqrt(c, n) && !(exact && n * n == c)
    ensures RootRounded(p, Magnitude(a), Nudged(n, e), a.exp / 2)
  {
    var z := Scale(Magnitude(a), -2 * e);
    PreparedValue(a, p.prec + 1, c, e, shift, exact);
    EnoughDigits(c, n, p.prec + 1);
    BetweenSquares(c, n, z, exact);
    FloorBetween(Magnitude(a), z, c, n, e);
    forall y | n as real < y < (n + 1) as real
      ensures CorrectlyRounded(p, false, Scale(y, e), FixValue(p, Nudged(n, e)), FixSignals(p, Nudged(n, e)))
    {
      NudgedRoot(p, n, e, y);
    }
    NudgedRoot(p, n, e, n as real + 0.5);
    assert RoundsAllBetween(p, n, e, Nudged(n, e));
  }

  lemma BetweenSquares(c: nat, n: nat, z: real, exact: bool)
    requires IsFloorSqrt(c, n) && c as real <= z && (exact <==> z == c as real)
    requires !(exact && n * n == c)
    ensures z != (n * n) as real
  {
  }
}
