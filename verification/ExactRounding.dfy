/**
 What it means for a result to be the correctly rounded value of an exact real number.

 Scale(x, e) is x times ten to the e.  It is defined by repeated multiplication by ten, so that
 everything said about decimal exponents stays linear.
 */
module ExactRounding {
  import opened Powers
  import opened DigitStrings
  import opened Rounding
  import opened Decimals

  /** x times ten to the (possibly negative) power e */
  ghost function Scale(x: real, e: int): real
    decreases if e < 0 then -e else e
  {
    if e == 0 then x else if e > 0 then 10.0 * Scale(x, e - 1) else Scale(x, e + 1) / 10.0
  }

  ghost function TenTo(e: int): real {
    Scale(1.0, e)
  }

  lemma {:induction false} ScaleOrder(x: real, y: real, e: int)
    ensures x < y <==> Scale(x, e) < Scale(y, e)
    ensures x == y <==> Scale(x, e) == Scale(y, e)
    decreases if e < 0 then -e else e
  {
    if e > 0 {
      ScaleOrder(x, y, e - 1);
    } else if e < 0 {
      ScaleOrder(x, y, e + 1);
    }
  }

  lemma {:induction false} ScaleSum(x: real, y: real, e: int)
    ensures Scale(x + y, e) == Scale(x, e) + Scale(y, e)
    decreases if e < 0 then -e else e
  {
    if e > 0 {
      ScaleSum(x, y, e - 1);
    } else if e < 0 {
      ScaleSum(x, y, e + 1);
    }
  }

  lemma {:induction false} ScaleTwice(x: real, d: int, e: int)
    ensures Scale(Scale(x, d), e) == Scale(x, d + e)
    decreases if e < 0 then -e else e
  {
    if e > 0 {
      ScaleTwice(x, d, e - 1);
      ScaleStep(x, d + e - 1);
    } else if e < 0 {
      ScaleTwice(x, d, e + 1);
      ScaleStep(x, d + e);
    }
  }

  lemma ScaleStep(x: real, e: int)
    ensures Scale(x, e + 1) == 10.0 * Scale(x, e)
  {
  }

  lemma {:induction false} ScaleZero(e: int)
    ensures Scale(0.0, e) == 0.0
    decreases if e < 0 then -e else e
  {
    if e > 0 {
      ScaleZero(e - 1);
    } else if e < 0 {
      ScaleZero(e + 1);
    }
  }

  lemma ScalePositive(x: real, e: int)
    requires x > 0.0
    ensures Scale(x, e) > 0.0
  {
    ScaleOrder(0.0, x, e);
    ScaleZero(e);
  }

  lemma {:induction false} ScaleWhole(n: int, k: nat)
    ensures Scale(n as real, k) == Times10(n, k) as real
  {
    if k > 0 {
      ScaleWhole(n, k - 1);
    }
  }

  lemma {:induction false} ScaleTimes(x: real, y: real, e: int)
    ensures Scale(x * y, e) == Scale(x, e) * y
    decreases if e < 0 then -e else e
  {
    if e > 0 {
      ScaleTimes(x, y, e - 1);
      TimesAssociate(10.0, Scale(x, e - 1), y);
    } else if e < 0 {
      ScaleTimes(x, y, e + 1);
      TimesAssociate(0.1, Scale(x, e + 1), y);
    }
  }

  lemma TimesAssociate(a: real, b: real, c: real)
    ensures a * (b * c) == (a * b) * c
  {
  }

  lemma ScaleOfProduct(x: real, y: real, xy: real, e: int)
    requires xy == x * y
    ensures Scale(xy, e) == y * Scale(x, e)
  {
    ScaleTimes(x, y, e);
  }

  lemma ScaleProduct(x: real, y: real, xy: real, d: int, e: int)
    requires xy == x * y
    ensures Scale(x, d) * Scale(y, e) == Scale(xy, d + e)
  {
    var sx := Scale(x, d);
    var both := Scale(xy, d);
    ScaleOfProduct(x, y, xy, d);
    ScaleOfProduct(y, sx, both, e);
    ScaleTwice(xy, d, e);
  }

  lemma WholeTimes(a: int, b: int)
    ensures (a * b) as real == a as real * b as real
  {
  }

  lemma RealOrder(a: real, x: real, y: real)
    requires a > 0.0
    ensures x < y <==> x * a < y * a
    ensures x == y <==> x * a == y * a
  {
    if x < y {
      assert (y - x) * a > 0.0;
    } else if y < x {
      assert (x - y) * a > 0.0;
    }
  }

  lemma ScaleBack(x: real, e: int)
    ensures Scale(Scale(x, e), -e) == x
  {
    ScaleTwice(x, e, -e);
  }

  lemma {:induction false} TenToMonotone(d: int, e: int)
    requires d < e
    ensures TenTo(d) < TenTo(e)
    decreases e - d
  {
    ScaleStep(1.0, e - 1);
    ScalePositive(1.0, e - 1);
    if d < e - 1 {
      TenToMonotone(d, e - 1);
    }
  }

  // ----- decimals as reals

  /** The magnitude of a finite decimal */
  ghost function Magnitude(d: Decimal): real
    requires d.Finite?
  {
    Scale(d.coef as real, d.exp)
  }

  ghost function Value(d: Decimal): real
    requires d.Finite?
  {
    if d.neg then -Magnitude(d) else Magnitude(d)
  }

  /** e is the exponent of the leading digit of x. */
  ghost predicate LeadingExponent(x: real, e: int) {
    TenTo(e) <= x < TenTo(e + 1)
  }

  lemma LeadingExponentUnique(x: real, d: int, e: int)
    requires LeadingExponent(x, d) && LeadingExponent(x, e)
    ensures d == e
  {
    if d + 1 < e {
      TenToMonotone(d + 1, e);
    } else if e + 1 < d {
      TenToMonotone(e + 1, d);
    }
  }

  lemma ReachesIff(x: real, e: int, t: int)
    requires LeadingExponent(x, e)
    ensures x >= TenTo(t) <==> e >= t
  {
    if t < e {
      TenToMonotone(t, e);
    } else if e + 1 < t {
      TenToMonotone(e + 1, t);
    }
  }

  /** Appending zeros to a coefficient and lowering the exponent keeps the magnitude. */
  lemma MagnitudeShift(neg: bool, c: nat, e: int, k: nat)
    ensures Magnitude(Finite(neg, Times10(c, k), e - k)) == Magnitude(Finite(neg, c, e))
  {
    ScaleWhole(c, k);
    ScaleTwice(c as real, k, e - k);
  }

  /** Scaling moves the leading digit. */
  lemma LeadsScaled(x: real, l: int, e: int)
    requires LeadingExponent(x, l)
    ensures LeadingExponent(Scale(x, e), l + e)
  {
    ScaleOrder(x, TenTo(l), e);
    ScaleOrder(x, TenTo(l + 1), e);
    ScaleTwice(1.0, l, e);
    ScaleTwice(1.0, l + 1, e);
    assert l + 1 + e == l + e + 1;
  }

  lemma MagnitudeLeads(d: Decimal)
    requires d.Finite? && d.coef > 0
    ensures LeadingExponent(Magnitude(d), d.Adjusted())
    ensures Magnitude(d) > 0.0
  {
    var l := NumDigits(d.coef);
    NumDigitsBounds(d.coef);
    ScaleWhole(1, l - 1);
    ScaleWhole(1, l);
    Times10One(l - 1);
    Times10One(l);
    LeadsScaled(d.coef as real, l - 1, d.exp);
    ScalePositive(1.0, d.Adjusted());
  }

  // ----- the specification of a correctly rounded result

  /** The exponent of the last place the context can keep of a number whose leading digit is at e */
  function LastPlace(p: Params, e: int): int {
    Max(e - p.prec + 1, p.Etiny())
  }

  /** The exact x > 0, led by a digit at e, rounded at the last place the context can keep */
  ghost function RoundedMagnitude(p: Params, neg: bool, x: real, e: int): real {
    Scale(RoundReal(p.mode, neg, Scale(x, -LastPlace(p, e))) as real, LastPlace(p, e))
  }

  /**
   What becomes of a magnitude that is too large: infinity, if the mode takes a magnitude just below
   the first one out of range up to it, and otherwise the largest finite number.
   */
  ghost predicate OverflowsTo(p: Params, neg: bool, r: Decimal)
    requires p.Valid()
  {
    PowPositive(10, p.prec);
    var nines := Pow(10, p.prec) - 1;
    r == if RoundsAway(p.mode, neg, nines, AboveHalf) then Infinity(neg) else Finite(neg, nines, p.Etop())
  }

  ghost predicate RoundedAt(p: Params, neg: bool, x: real, e: int, r: Decimal, signals: set<Signal>)
    requires p.Valid()
  {
    var y := RoundedMagnitude(p, neg, x, e);
    var overflow := y >= TenTo(p.emax + 1);
    && (if overflow then OverflowsTo(p, neg, r) else r.Finite? && r.neg == neg && Magnitude(r) == y)
    && (Overflow in signals <==> overflow)
    && (Inexact in signals <==> y != x || overflow)
    && (Subnormal in signals <==> x < TenTo(p.emin))
    && (Underflow in signals <==> x < TenTo(p.emin) && y != x)
    && (Inexact in signals ==> Rounded in signals)
    && InvalidOperation !in signals && DivisionByZero !in signals
  }

  /**
   Is r, with these signals raised on the way, the result the context asks for when the exact
   result has the given sign and the magnitude x > 0 ?
   */
  ghost predicate CorrectlyRounded(p: Params, neg: bool, x: real, r: Decimal, signals: set<Signal>)
    requires p.Valid()
  {
    exists e :: LeadingExponent(x, e) && RoundedAt(p, neg, x, e, r, signals)
  }

  // ----- the integer reference and the real specification

  /** An integer part and a remainder that place a real number classify it. */
  lemma Classified(z: real, q: int, r: int, d: int)
    requires q as real <= z < (q + 1) as real && 0 <= r < d
    requires z == q as real <==> r == 0
    requires z + z < (2 * q + 1) as real <==> 2 * r < d
    requires z + z == (2 * q + 1) as real <==> 2 * r == d
    ensures z.Floor == q
    ensures TailOfReal(z)
      == if r == 0 then Nothing else if 2 * r < d then BelowHalf else if 2 * r == d then ExactlyHalf else AboveHalf
  {
  }

  /** n / 10^k as an integer quotient and a tail, and as a real */
  lemma RatioFloor(n: nat, k: int)
    requires k >= 0
    ensures Pow(10, k) > 0
    ensures Scale(n as real, -k).Floor == n / Pow(10, k)
    ensures TailOfReal(Scale(n as real, -k)) == TailOfRatio(n, Pow(10, k))
  {
    PowPositive(10, k);
    var d := Pow(10, k);
    var q, z := n / d, Scale(n as real, -k);
    RatioPlaced(n, k, z);
    Classified(z, q, n % d, d);
  }

  lemma RatioPlaced(n: nat, k: nat, z: real)
    requires z == Scale(n as real, 0 - k)
    ensures Pow(10, k) > 0
    ensures var d := Pow(10, k); var q, r := n / d, n % d;
      && q as real <= z < (q + 1) as real
      && (z == q as real <==> r == 0)
      && (z + z < (2 * q + 1) as real <==> 2 * r < d)
      && (z + z == (2 * q + 1) as real <==> 2 * r == d)
  {
    RatioBounds(n, k);
    var q := n / Pow(10, k);
    ScaleTwice(n as real, 0 - k, k);
    ScaleSum(z, z, k);
    ScaleCompare(z, q, k);
    ScaleCompare(z, q + 1, k);
    ScaleCompare(z + z, 2 * q + 1, k);
  }

  lemma RatioBounds(n: nat, k: nat)
    ensures Pow(10, k) > 0
    ensures var d := Pow(10, k); var q := n / d;
      && n == Times10(q, k) + n % d
      && Times10(q + 1, k) == Times10(q, k) + d
      && Times10(2 * q + 1, k) == 2 * Times10(q, k) + d
  {
    PowPositive(10, k);
    var d := Pow(10, k);
    var q := n / d;
    DivIdentity(n, d);
    Times10Product(q, k);
    Times10One(k);
    Times10Sum(q, 1, k);
    Times10Sum(q, q, k);
    Times10Sum(2 * q, 1, k);
  }

  lemma ScaleCompare(z: real, m: int, k: nat)
    ensures z < m as real <==> Scale(z, k) < Times10(m, k) as real
    ensures z == m as real <==> Scale(z, k) == Times10(m, k) as real
  {
    ScaleWhole(m, k);
    ScaleOrder(z, m as real, k);
  }

  lemma RoundWhole(mode: Mode, neg: bool, n: int)
    ensures TailOfReal(n as real) == Nothing
    ensures RoundReal(mode, neg, n as real) == n
  {
  }

  // ----- Fix rounds correctly

  /** The rounded value, before it is fitted into the exponent range */
  ghost function Target(p: Params, d: Decimal): Decimal
    requires d.Finite?
  {
    if d.exp < Quantum(p, d) then Finite(d.neg, RoundedCoef(p, d), Quantum(p, d)) else d
  }

  lemma RoundedCoefIsReal(p: Params, d: Decimal)
    requires p.Valid() && d.Finite? && d.coef > 0 && d.exp < Quantum(p, d)
    ensures RoundedCoef(p, d) == RoundReal(p.mode, d.neg, Scale(Magnitude(d), -Quantum(p, d)))
    ensures LosesDigits(p, d) <==> TailOfReal(Scale(Magnitude(d), -Quantum(p, d))) != Nothing
  {
    var q := Quantum(p, d);
    ScaleTwice(d.coef as real, d.exp, -q);
    RatioFloor(d.coef, q - d.exp);
  }

  lemma TargetMagnitude(p: Params, d: Decimal)
    requires p.Valid() && d.Finite? && d.coef > 0
    ensures Magnitude(Target(p, d)) == RoundedMagnitude(p, d.neg, Magnitude(d), d.Adjusted())
  {
    var q := Quantum(p, d);
    if d.exp < q {
      RoundedCoefIsReal(p, d);
    } else {
      ScaleTwice(d.coef as real, d.exp, -q);
      ScaleWhole(d.coef, d.exp - q);
      RoundWhole(p.mode, d.neg, Times10(d.coef, d.exp - q));
      ScaleTwice(Magnitude(d), -q, q);
    }
  }

  /** Rounding at the quantum never takes a number below its leading power of ten. */
  lemma TargetKeepsDigits(p: Params, d: Decimal)
    requires p.Valid() && d.Finite? && d.coef > 0
    requires d.exp < Quantum(p, d) && Quantum(p, d) <= d.Adjusted()
    ensures NumDigits(RoundedCoef(p, d)) + Quantum(p, d) - 1 >= d.Adjusted()
    ensures RoundedCoef(p, d) > 0
  {
    var k := Quantum(p, d) - d.exp;
    NumDigitsDrop(d.coef, k);
    NumDigitsMonotone(d.coef / Pow(10, k), RoundedCoef(p, d));
    NumDigitsDropPositive(d.coef, k);
  }

  lemma OverflowsIff(p: Params, d: Decimal)
    requires p.Valid() && d.Finite? && d.coef > 0
    ensures Overflows(p, d) <==> Magnitude(Target(p, d)) >= TenTo(p.emax + 1)
  {
    var t := Target(p, d);
    if d.exp < Quantum(p, d) && d.Adjusted() > p.emax {
      TargetKeepsDigits(p, d);
    }
    if t.coef > 0 {
      MagnitudeLeads(t);
      ReachesIff(Magnitude(t), t.Adjusted(), p.emax + 1);
    } else {
      ScaleZero(t.exp);
      ScalePositive(1.0, p.emax + 1);
    }
  }

  lemma FixReachesTarget(p: Params, d: Decimal)
    requires p.Valid() && d.Finite? && d.coef > 0 && !Overflows(p, d)
    ensures var r := FixValue(p, d);
      r.Finite? && r.neg == d.neg && Magnitude(r) == Magnitude(Target(p, d))
  {
    var q := Quantum(p, d);
    if d.exp < q {
      var n := RoundedCoef(p, d);
      RoundedCoefBound(p, d);
      if NumDigits(n) > p.prec {
        assert Pow(10, p.prec) == 10 * Pow(10, p.prec - 1);
        MagnitudeShift(d.neg, n / 10, q + 1, 1);
        assert Pow(10, 1) == 10 * Pow(10, 0);
      }
    } else if p.clamp && d.exp > p.Etop() {
      MagnitudeShift(d.neg, d.coef, d.exp, d.exp - p.Etop());
    }
  }

  /** A scaled integer is not a number with a fractional part at that scale. */
  lemma FractionalNotWhole(x: real, q: int, n: int)
    requires TailOfReal(Scale(x, -q)) != Nothing
    ensures Scale(n as real, q) != x
  {
    ScaleBack(n as real, q);
    RoundWhole(RoundDown, false, n);
  }

  lemma LosesIff(p: Params, d: Decimal)
    requires p.Valid() && d.Finite? && d.coef > 0
    ensures LosesDigits(p, d) <==> Magnitude(Target(p, d)) != Magnitude(d)
  {
    var q := Quantum(p, d);
    if d.exp < q {
      RoundedCoefIsReal(p, d);
      if LosesDigits(p, d) {
        FractionalNotWhole(Magnitude(d), q, RoundedCoef(p, d));
      } else {
        ScaleTwice(Magnitude(d), -q, q);
      }
    }
  }

  lemma NinesOddOne(p: Params)
    requires p.Valid()
    ensures Pow(10, p.prec) >= 10 && (Pow(10, p.prec) - 1) % 5 == 4
  {
    PowPositive(10, p.prec - 1);
    assert Pow(10, p.prec) == 10 * Pow(10, p.prec - 1);
    FiveNines(Pow(10, p.prec - 1));
  }

  lemma FiveNines(t: nat)
    requires t > 0
    ensures (10 * t - 1) % 5 == 4
  {
    assert 10 * t - 1 == 5 * (2 * t - 1) + 4;
  }

  /** The default result of an overflow is what the mode makes of a magnitude just out of range. */
  lemma OverflowResultRounds(p: Params, neg: bool)
    requires p.Valid()
    ensures OverflowsTo(p, neg, OverflowResult(p, neg))
  {
    NinesOddOne(p);
  }

  /** In units of Etop, infinity stands for 10**prec, and the mode's own law chooses between it and the nines. */
  lemma OverflowHonoursMode(p: Params, neg: bool, z: real, r: Decimal)
    requires p.Valid() && OverflowsTo(p, neg, r)
    requires Pow(10, p.prec) as real - 0.5 < z < Pow(10, p.prec) as real
    ensures Honours(p.mode, neg, z, if r.Infinity? then Pow(10, p.prec) else Pow(10, p.prec) - 1)
  {
    var n := if r.Infinity? then Pow(10, p.prec) else Pow(10, p.prec) - 1;
    JustBelow(z, Pow(10, p.prec));
    RoundRealHonours(p.mode, neg, z, n);
  }

  lemma JustBelow(z: real, m: int)
    requires m as real - 0.5 < z < m as real
    ensures z.Floor == m - 1 && TailOfReal(z) == AboveHalf
  {
  }

  lemma FixRoundedAt(p: Params, d: Decimal)
    requires p.Valid() && d.Finite? && d.coef > 0
    ensures LeadingExponent(Magnitude(d), d.Adjusted())
    ensures RoundedAt(p, d.neg, Magnitude(d), d.Adjusted(), FixValue(p, d), FixSignals(p, d))
  {
    var x, e := Magnitude(d), d.Adjusted();
    MagnitudeLeads(d);
    TargetMagnitude(p, d);
    OverflowsIff(p, d);
    LosesIff(p, d);
    ReachesIff(x, e, p.emin);
    ReachesIff(x, e, p.emax + 1);
    OverflowResultRounds(p, d.neg);
    if !Overflows(p, d) {
      FixReachesTarget(p, d);
    }
  }

  /** The final rounding of a nonzero value is correct, in value and in the signals it raises. */
  lemma FixCorrect(p: Params, d: Decimal)
    requires p.Valid() && d.Finite? && d.coef > 0
    ensures CorrectlyRounded(p, d.neg, Magnitude(d), FixValue(p, d), FixSignals(p, d))
  {
    FixRoundedAt(p, d);
  }
}
