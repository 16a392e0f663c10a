/** Division: a floor quotient with a digit to spare, nudged off a multiple of five when inexact. */
module Division {
  import opened Powers
  import opened DigitStrings
  import opened Decimals
  import opened ExactRounding
  import opened Sticky
  import opened Addition

  /** x is the exact quotient of the magnitudes of a and b. */
  ghost predicate IsQuotient(x: real, a: Decimal, b: Decimal)
    requires a.Finite? && b.Finite?
  {
    x * Magnitude(b) == Magnitude(a)
  }

  /** The integers n and d whose quotient, at the exponent exp, is a / b */
  ghost predicate ShiftedRatio(a: Decimal, b: Decimal, shift: int, n: nat, d: nat)
    requires a.Finite? && b.Finite?
  {
    && n == (if shift >= 0 then Times10(a.coef, shift) else a.coef)
    && d == (if shift >= 0 then b.coef else Times10(b.coef, -shift))
  }

  lemma RatioIsQuotient(a: Decimal, b: Decimal, shift: int, n: nat, d: nat, y: real)
    requires a.Finite? && b.Finite? && ShiftedRatio(a, b, shift, n, d)
    requires n as real == y * d as real
    ensures IsQuotient(Scale(y, a.exp - b.exp - shift), a, b)
  {
    RatioOperands(a, b, shift, n, d);
    var i, j := a.exp - b.exp - shift, b.exp + Min(shift, 0);
    var nr, dr, x := n as real, d as real, Scale(y, i);
    RatioProduct(a, b, y, nr, dr, i, j, x);
  }

  /** Numerator and denominator are the operands, moved to lower exponents. */
  lemma RatioOperands(a: Decimal, b: Decimal, shift: int, n: nat, d: nat)
    requires a.Finite? && b.Finite? && ShiftedRatio(a, b, shift, n, d)
    ensures Scale(d as real, b.exp + Min(shift, 0)) == Magnitude(b)
    ensures Scale(n as real, a.exp - b.exp - shift + (b.exp + Min(shift, 0))) == Magnitude(a)
  {
    if shift >= 0 {
      ScaleWhole(a.coef, shift);
      ScaleTwice(a.coef as real, shift, a.exp - shift);
    } else {
      ScaleWhole(b.coef, -shift);
      ScaleTwice(b.coef as real, -shift, b.exp + shift);
    }
  }

  lemma RatioProduct(a: Decimal, b: Decimal, y: real, n: real, d: real, i: int, j: int, x: real)
    requires a.Finite? && b.Finite? && n == y * d && x == Scale(y, i)
    requires Scale(d, j) == Magnitude(b) && Scale(n, i + j) == Magnitude(a)
    ensures IsQuotient(x, a, b)
  {
    var ma, mb := Magnitude(a), Magnitude(b);
    ScaledQuotient(y, n, d, i, j, x, ma, mb);
    QuotientOf(x, mb, ma, a, b);
  }

  lemma ScaledQuotient(y: real, n: real, d: real, i: int, j: int, x: real, ma: real, mb: real)
    requires n == y * d && x == Scale(y, i) && mb == Scale(d, j) && ma == Scale(n, i + j)
    ensures x * mb == ma
  {
    ScaleProduct(y, d, n, i, j);
  }

  lemma QuotientOf(x: real, mb: real, ma: real, a: Decimal, b: Decimal)
    requires a.Finite? && b.Finite? && x * mb == ma && mb == Magnitude(b) && ma == Magnitude(a)
    ensures IsQuotient(x, a, b)
  {
  }

  lemma QuotientOfWhole(n: nat, d: nat) returns (y: real)
    requires d > 0
    ensures y * d as real == n as real
  {
    y := n as real / d as real;
  }

  /** The floor quotient has at least prec + 1 digits. */
  lemma QuotientDigits(a: Decimal, b: Decimal, prec: nat, n: nat, d: nat)
    requires a.Finite? && b.Finite? && a.coef > 0 && b.coef > 0
    requires ShiftedRatio(a, b, NumDigits(b.coef) - NumDigits(a.coef) + prec + 1, n, d)
    ensures d > 0 && n / d > 0 && NumDigits(n / d) > prec
  {
    var la, lb := NumDigits(a.coef), NumDigits(b.coef);
    var shift := lb - la + prec + 1;
    if shift >= 0 {
      NumDigitsShift(a.coef, shift);
    } else {
      NumDigitsShift(b.coef, -shift);
    }
    LongQuotient(n, d, prec);
  }

  lemma LongQuotient(n: nat, d: nat, prec: nat)
    requires d > 0 && NumDigits(n) == NumDigits(d) + prec + 1
    ensures n / d > 0 && NumDigits(n / d) > prec
  {
    NumDigitsBounds(n);
    NumDigitsBounds(d);
    TenfoldBelow(n, d, prec, NumDigits(d));
    ManyDigits(n / d, prec);
  }

  lemma TenfoldBelow(n: nat, d: nat, prec: nat, l: nat)
    requires 0 < d < Pow(10, l) && Pow(10, prec + l) <= n
    ensures n / d >= Pow(10, prec)
  {
    PowAdd(10, prec, l);
    PowPositive(10, prec);
    AtLeastFactor(n, d, Pow(10, prec), Pow(10, l));
  }

  lemma AtLeastFactor(n: nat, d: nat, t: nat, u: nat)
    requires 0 < d < u && t * u <= n
    ensures n / d >= t
  {
    MulMonotone(t, d, u);
    DivAtLeast(n, d, t);
  }

  /** An inexact quotient and its nudged floor share a cell. */
  lemma QuotientCell(n: nat, d: nat, y: real)
    requires d > 0 && n % d != 0 && y * d as real == n as real
    ensures var q := n / d;
      && InCell(y, q - q % 5)
      && InCell((if q % 5 == 0 then q + 1 else q) as real, q - q % 5)
  {
    DivIdentity(n, d);
    BetweenIntegers(y, d as real, n / d, n, d);
  }

  lemma BetweenIntegers(y: real, dr: real, q: int, n: int, d: int)
    requires d > 0 && dr == d as real && y * dr == n as real
    requires q * d < n < q * d + d
    ensures q as real < y < q as real + 1.0
  {
    WholeTimes(q, d);
    BetweenMultiples(y, dr, q as real, (q * d) as real, n as real);
  }

  lemma BetweenMultiples(y: real, d: real, q: real, qd: real, yd: real)
    requires d > 0.0 && qd == q * d && yd == y * d && qd < yd < qd + d
    ensures q < y < q + 1.0
  {
    RealOrder(d, q, y);
    RealOrder(d, y, q + 1.0);
    NextMultiple(q, d);
  }

  lemma NextMultiple(q: real, d: real)
    ensures (q + 1.0) * d == q * d + d
  {
  }

  /** s is as near the ideal exponent as stripping zeros from its coefficient can bring it. */
  predicate NearIdeal(p: Params, s: Decimal, ideal: int)
    requires s.Finite?
  {
    || s.exp == ideal
    || (s.exp < ideal && s.coef % 10 != 0)
    || (s.exp > ideal && NumDigits(s.coef) > p.prec)
  }

  ghost predicate ExactNearIdeal(p: Params, s: Decimal, x: real, ideal: int)
    requires s.Finite?
  {
    Magnitude(s) == x && NearIdeal(p, s, ideal)
  }

  /**
   s, fixed under p, is the correctly rounded quotient of a and b; and when nothing is lost it has the
   exact value and the exponent nearest to the ideal one.
   */
  ghost predicate QuotientRounded(p: Params, s: Decimal, a: Decimal, b: Decimal)
    requires p.Valid() && s.Finite? && a.Finite? && b.Finite?
  {
    forall x :: IsQuotient(x, a, b) ==> RoundedNearIdeal(p, s, x, a.exp - b.exp)
  }

  ghost predicate RoundedNearIdeal(p: Params, s: Decimal, x: real, ideal: int)
    requires p.Valid() && s.Finite?
  {
    && CorrectlyRounded(p, s.neg, x, FixValue(p, s), FixSignals(p, s))
    && (ExactNearIdeal(p, s, x, ideal) || Inexact in FixSignals(p, s))
  }

  /** There is exactly one quotient by a nonzero number. */
  lemma QuotientExists(a: Decimal, b: Decimal) returns (x: real)
    requires a.Finite? && b.Finite? && b.coef > 0
    ensures IsQuotient(x, a, b)
    ensures forall y :: IsQuotient(y, a, b) ==> y == x
  {
    var d, n := Magnitude(b), Magnitude(a);
    assert d > 0.0 by {
      MagnitudeLeads(b);
    }
    x := Ratio(n, d);
    QuotientOf(x, d, n, a, b);
    OneQuotient(a, b, x, d, n);
  }

  lemma OneQuotient(a: Decimal, b: Decimal, x: real, d: real, n: real)
    requires a.Finite? && b.Finite? && d == Magnitude(b) && n == Magnitude(a)
    requires d > 0.0 && x * d == n
    ensures forall y :: IsQuotient(y, a, b) ==> y == x
  {
    forall y | IsQuotient(y, a, b) ensures y == x {
      SameQuotient(d, n, x, y);
    }
  }

  lemma SameQuotient(d: real, n: real, x: real, y: real)
    requires d > 0.0 && x * d == n && y * d == n
    ensures x == y
  {
    RealOrder(d, x, y);
  }

  lemma Ratio(n: real, d: real) returns (x: real)
    requires d > 0.0
    ensures x * d == n
  {
    x := n / d;
  }

  lemma RoundedOnce(p: Params, s: Decimal, a: Decimal, b: Decimal, x: real)
    requires p.Valid() && s.Finite? && a.Finite? && b.Finite? && b.coef > 0
    requires IsQuotient(x, a, b) && RoundedNearIdeal(p, s, x, a.exp - b.exp)
    ensures QuotientRounded(p, s, a, b)
  {
    var x' := QuotientExists(a, b);
  }

  /**
   a / b.  The ghost result is the value handed to the final rounding.  A quotient of nonzero numbers
   is correctly rounded in every mode; an exact one keeps its value and the exponent nearest to the
   ideal one.
   */
  method Divide(a: Decimal, b: Decimal, ctx: Context) returns (r: Decimal, ghost s: Decimal)
    requires ctx.Valid()
    modifies ctx.flags
    ensures a.NaN? || b.NaN? ==>
      && r == Quieted(ctx.P(), ChooseNaN(a, b))
      && ctx.flags.raised == old(ctx.flags.raised) + if ChooseNaN(a, b).signaling then {InvalidOperation} else {}
    ensures a.Infinity? && b.Infinity? ==>
      r == NaN(false, false, 0) && ctx.flags.raised == old(ctx.flags.raised) + {InvalidOperation}
    ensures a.Infinity? && b.Finite? ==>
      r == Infinity(a.neg != b.neg) && ctx.flags.raised == old(ctx.flags.raised)
    ensures a.Finite? && b.Infinity? ==>
      && r == Finite(a.neg != b.neg, 0, ctx.emin - ctx.prec + 1)
      && ctx.flags.raised == old(ctx.flags.raised) + {Clamped}
    ensures a.Finite? && b.IsZero() ==>
      && r == (if a.coef == 0 then QuietNaN else Infinity(a.neg != b.neg))
      && ctx.flags.raised == old(ctx.flags.raised) + {if a.coef == 0 then InvalidOperation else DivisionByZero}
    ensures a.Finite? && b.Finite? && b.coef > 0 ==>
      && s.Finite? && s.neg == (a.neg != b.neg)
      && r == FixValue(ctx.P(), s)
      && ctx.flags.raised == old(ctx.flags.raised) + FixSignals(ctx.P(), s)
      && (a.coef == 0 ==> s == Finite(a.neg != b.neg, 0, a.exp - b.exp))
      && (a.coef > 0 ==> QuotientRounded(ctx.P(), s, a, b))
  {
    s := a;
    var neg := if a.NaN? || b.NaN? then false else a.neg != b.neg;
    if !a.Finite? || !b.Finite? {
      if a.NaN? || b.NaN? {
        r := CheckNaNs(a, b, ctx);
        return;
      }
      if a.Infinity? && b.Infinity? {
        r := ctx.RaiseError(Invalid);
        return;
      }
      if a.Infinity? {
        r := Infinity(neg);
        return;
      }
      var _ := ctx.RaiseError(Plain(Clamped));
      r := Finite(neg, 0, ctx.P().Etiny());
      return;
    }
    if b.coef == 0 {
      if a.coef == 0 {
        r := ctx.RaiseError(DivisionUndefined);
      } else {
        r := ctx.RaiseError(DividedByZero(neg));
      }
      return;
    }
    var coeff, exp;
    if a.coef == 0 {
      exp := a.exp - b.exp;
      coeff := 0;
    } else {
      coeff, exp := DivideCoefs(a, b, ctx.P(), neg);
    }
    s := Finite(neg, coeff, exp);
    r := Fix(Finite(neg, coeff, exp), ctx);
  }

  method DivideCoefs(a: Decimal, b: Decimal, p: Params, neg: bool) returns (coeff: nat, exp: int)
    requires p.Valid() && a.Finite? && b.Finite? && a.coef > 0 && b.coef > 0
    ensures QuotientRounded(p, Finite(neg, coeff, exp), a, b)
  {
    var shift := NumDigits(b.coef) - NumDigits(a.coef) + p.prec + 1;
    exp := a.exp - b.exp - shift;
    var n, d := a.coef, b.coef;
    if shift >= 0 {
      n := Times10(a.coef, shift);
    } else {
      PowPositive(10, -shift);
      d := Times10(b.coef, -shift);
    }
    QuotientDigits(a, b, p.prec, n, d);
    ghost var y := QuotientOfWhole(n, d);
    RatioIsQuotient(a, b, shift, n, d, y);
    ghost var x := Scale(y, exp);
    var remainder := n % d;
    coeff := n / d;
    if remainder != 0 {
      if coeff % 5 == 0 {
        coeff := coeff + 1;
      }
      NudgedQuotient(p, neg, n, d, exp, y);
    } else {
      ExactRatio(n, d, y);
      var idealExp := a.exp - b.exp;
      while exp < idealExp && coeff % 10 == 0
        invariant coeff > 0
        invariant Magnitude(Finite(neg, coeff, exp)) == x
        invariant exp <= idealExp || NumDigits(coeff) > p.prec
        decreases idealExp - exp
      {
        DropZero(neg, coeff, exp);
        coeff := coeff / 10;
        exp := exp + 1;
      }
      FixCorrect(p, Finite(neg, coeff, exp));
    }
    RoundedOnce(p, Finite(neg, coeff, exp), a, b, x);
  }

  lemma DropZero(neg: bool, c: nat, e: int)
    requires c % 10 == 0
    ensures Magnitude(Finite(neg, c / 10, e + 1)) == Magnitude(Finite(neg, c, e))
  {
    MagnitudeShift(neg, c / 10, e + 1, 1);
    assert Pow(10, 1) == 10 * Pow(10, 0);
  }

  /** The nudged floor of an inexact quotient rounds as the quotient does. */
  lemma NudgedQuotient(p: Params, neg: bool, n: nat, d: nat, exp: int, y: real)
    requires p.Valid() && d > 0 && n % d != 0 && n / d > 0 && NumDigits(n / d) > p.prec
    requires y * d as real == n as real
    ensures var s := Finite(neg, if n / d % 5 == 0 then n / d + 1 else n / d, exp);
      && CorrectlyRounded(p, neg, Scale(y, exp), FixValue(p, s), FixSignals(p, s))
      && Inexact in FixSignals(p, s)
  {
    var q := n / d;
    var low := q - q % 5;
    var s := Finite(neg, if q % 5 == 0 then q + 1 else q, exp);
    QuotientCell(n, d, y);
    NumDigitsMonotone(q, q + 1);
    StickyFix(p, s, y, low);
    CellQuantum(p, s, y, low);
    InexactWhenLost(p, s);
  }

  lemma InexactWhenLost(p: Params, d: Decimal)
    requires p.Valid() && d.Finite? && d.coef > 0 && LosesDigits(p, d)
    ensures Inexact in FixSignals(p, d)
  {
  }

  lemma ExactRatio(n: nat, d: nat, y: real)
    requires d > 0 && n % d == 0 && y * d as real == n as real
    ensures (n / d) as real == y
  {
    DivIdentity(n, d);
    WholeTimes(n / d, d);
    RealOrder(d as real, y, (n / d) as real);
  }
}
