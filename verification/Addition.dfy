/** Addition, with the shortcut that replaces a tiny operand by one unit. */
module Addition {
  import opened Powers
  import opened DigitStrings
  import opened Rounding
  import opened Decimals
  import opened ExactRounding
  import opened Sticky

  // ----- the exact sum

  function Signed(neg: bool, n: nat): int {
    if neg then 0 - n else n
  }

  /** The sum of two signed coefficients; a zero sum is negative only as the rounding mode asks. */
  function SumOf(mode: Mode, neg1: bool, int1: nat, neg2: bool, int2: nat, e: int): Decimal {
    var s := Signed(neg1, int1) + Signed(neg2, int2);
    if s > 0 then Finite(false, s, e)
    else if s < 0 then Finite(true, -s, e)
    else Finite(if neg1 == neg2 then neg1 else mode == RoundFloor, 0, e)
  }

  /** The coefficient of a at the (lower) exponent e */
  function CoefAt(a: Decimal, e: int): nat
    requires a.Finite? && e <= a.exp
  {
    Times10(a.coef, a.exp - e)
  }

  /** The sum with all its digits */
  function ExactSum(mode: Mode, a: Decimal, b: Decimal): Decimal
    requires a.Finite? && b.Finite?
  {
    var e := Min(a.exp, b.exp);
    SumOf(mode, a.neg, CoefAt(a, e), b.neg, CoefAt(b, e), e)
  }

  /**
   s is the sum of a and b at the lower of their exponents.  A zero sum is negative if both operands
   are, and if their signs differ exactly when rounding towards minus infinity.
   */
  ghost predicate IsSum(mode: Mode, a: Decimal, b: Decimal, s: Decimal)
    requires a.Finite? && b.Finite?
  {
    && s.Finite? && s.exp == Min(a.exp, b.exp) && Value(s) == Value(a) + Value(b)
    && (s.coef == 0 ==> (s.neg <==> (a.neg && b.neg) || (a.neg != b.neg && mode == RoundFloor)))
  }

  /** There is one such sum, ... */
  lemma SumUnique(mode: Mode, a: Decimal, b: Decimal, s: Decimal, s': Decimal)
    requires a.Finite? && b.Finite? && IsSum(mode, a, b, s) && IsSum(mode, a, b, s')
    ensures s == s'
  {
    SameMagnitude(s, s', s.exp);
  }

  lemma SameMagnitude(s: Decimal, s': Decimal, e: int)
    requires s.Finite? && s'.Finite? && s.exp == s'.exp == e && Value(s) == Value(s')
    ensures s.coef == s'.coef && (s.coef > 0 ==> s.neg == s'.neg)
  {
    var c, c' := s.coef as real, s'.coef as real;
    ScaleOrder(c, c', e);
    ScaleOrder(c', c, e);
    ScaleOrder(0.0, c, e);
    ScaleOrder(0.0, c', e);
    ScaleZero(e);
  }

  /** ... and the exact sum is it. */
  lemma ExactSumIsSum(mode: Mode, a: Decimal, b: Decimal)
    requires a.Finite? && b.Finite?
    ensures IsSum(mode, a, b, ExactSum(mode, a, b))
  {
    ExactSumValue(mode, a, b);
    var e := Min(a.exp, b.exp);
    PaddedZero(a, e);
    PaddedZero(b, e);
  }

  lemma PaddedZero(a: Decimal, e: int)
    requires a.Finite? && e <= a.exp
    ensures CoefAt(a, e) == 0 <==> a.coef == 0
  {
    Times10Product(0, a.exp - e);
  }

  /** What cancels leaves a zero of the lower exponent. */
  lemma CancellingSum(mode: Mode, a: Decimal, b: Decimal)
    requires a.Finite? && b.Finite? && Value(a) + Value(b) == 0.0
    ensures ExactSum(mode, a, b)
         == Finite((a.neg && b.neg) || (a.neg != b.neg && mode == RoundFloor), 0, Min(a.exp, b.exp))
  {
    var s := ExactSum(mode, a, b);
    ExactSumIsSum(mode, a, b);
    ScaleZero(s.exp);
    SameMagnitude(s, Finite(s.neg, 0, s.exp), s.exp);
  }

  /** The value of the exact sum */
  lemma ExactSumValue(mode: Mode, a: Decimal, b: Decimal)
    requires a.Finite? && b.Finite?
    ensures Value(ExactSum(mode, a, b)) == Value(a) + Value(b)
  {
    var e := Min(a.exp, b.exp);
    CoefAtValue(a, e);
    CoefAtValue(b, e);
    var i, j := Signed(a.neg, CoefAt(a, e)), Signed(b.neg, CoefAt(b, e));
    ScaleSum(i as real, j as real, e);
    ScaleNegate((i + j) as real, e);
    ScaleZero(e);
    assert (i + j) as real == i as real + j as real;
  }

  lemma ScaleNegate(x: real, e: int)
    ensures Scale(-x, e) == -Scale(x, e)
  {
    ScaleSum(x, -x, e);
    ScaleZero(e);
  }

  lemma CoefAtValue(a: Decimal, e: int)
    requires a.Finite? && e <= a.exp
    ensures Scale(Signed(a.neg, CoefAt(a, e)) as real, e) == Value(a)
  {
    MagnitudeShift(a.neg, a.coef, a.exp, a.exp - e);
    ScaleNegate(CoefAt(a, e) as real, e);
  }

  // ----- padding with zeros that are rounded away again

  /** Beyond the precision, zeros at the end of a coefficient make no difference. */
  lemma PaddedTwins(p: Params, d: Decimal, d': Decimal)
    requires p.Valid() && d.Finite? && d'.Finite? && d.neg == d'.neg && Magnitude(d) == Magnitude(d')
    requires NumDigits(d.coef) > p.prec && NumDigits(d'.coef) > p.prec
    ensures FixValue(p, d) == FixValue(p, d') && FixSignals(p, d) == FixSignals(p, d')
  {
    MagnitudeLeads(d);
    MagnitudeLeads(d');
    LeadingExponentUnique(Magnitude(d), d.Adjusted(), d'.Adjusted());
    RoundedCoefIsReal(p, d);
    RoundedCoefIsReal(p, d');
  }

  /** Padding by prec + 1 zeros is as good as padding all the way. */
  lemma PaddingSuffices(p: Params, b: Decimal, e: int)
    requires p.Valid() && b.Finite? && b.coef > 0 && e <= b.exp - p.prec - 1
    ensures var e' := b.exp - p.prec - 1;
      && FixValue(p, Finite(b.neg, Times10(b.coef, b.exp - e), e))
         == FixValue(p, Finite(b.neg, Times10(b.coef, b.exp - e'), e'))
      && FixSignals(p, Finite(b.neg, Times10(b.coef, b.exp - e), e))
         == FixSignals(p, Finite(b.neg, Times10(b.coef, b.exp - e'), e'))
  {
    var e' := b.exp - p.prec - 1;
    NumDigitsShift(b.coef, b.exp - e);
    NumDigitsShift(b.coef, b.exp - e');
    MagnitudeShift(b.neg, b.coef, b.exp, b.exp - e);
    MagnitudeShift(b.neg, b.coef, b.exp, b.exp - e');
    PaddedTwins(p, Finite(b.neg, Times10(b.coef, b.exp - e), e), Finite(b.neg, Times10(b.coef, b.exp - e'), e'));
  }

  // ----- rescaling

  /** The value at the given exponent: padded with zeros, or rounded */
  function Rescale(d: Decimal, exp: int, mode: Mode): Decimal
  {
    if !d.Finite? then d
    else if d.coef == 0 then Finite(d.neg, 0, exp)
    else if d.exp >= exp then
      PaddedValue(d.coef, d.exp - exp);
      Finite(d.neg, ToNat(Digits(d.coef) + Zeros(d.exp - exp)), exp)
    else
      Rounding0InRange(d, exp);
      var (s, k) := Rounding0(d, exp);
      Finite(d.neg, ToNat(s[..k]) + if Decide(mode, d.neg, s, k) == 1 then 1 else 0, exp)
  }

  // ----- the working representation

  class WorkRep {
    var neg: bool
    var int_: nat
    var exp: int

    constructor (d: Decimal)
      requires d.Finite?
      ensures neg == d.neg && int_ == d.coef && exp == d.exp
    {
      neg, int_, exp := d.neg, d.coef, d.exp;
    }
  }

  /** Is an operand c * 10^exp below every place that can matter next to one with these digits? */
  predicate Negligible(tmpInt: nat, tmpExp: int, otherInt: nat, otherExp: int, prec: int) {
    NumDigits(otherInt) + otherExp - 1 < UnitBelow(tmpInt, tmpExp, prec)
  }

  /** The exponent of the unit that stands for a negligible operand */
  function UnitBelow(tmpInt: nat, tmpExp: int, prec: int): int {
    tmpExp + Min(-1, NumDigits(tmpInt) - prec - 2)
  }

  /** The higher-exponent operand hi and the other, lo, brought to the exponent e */
  ghost predicate Normalized(hiInt: nat, hiExp: int, loInt: nat, loExp: int, prec: int, hiInt': nat, loInt': nat,
                             e: int)
    requires hiExp >= loExp
  {
    && e == (if Negligible(hiInt, hiExp, loInt, loExp, prec) then UnitBelow(hiInt, hiExp, prec) else loExp)
    && loInt' == (if Negligible(hiInt, hiExp, loInt, loExp, prec) then 1 else loInt)
    && hiInt' == Times10(hiInt, hiExp - e)
  }

  /**
   Brings both operands to one exponent.  The one with the higher exponent keeps its value; the
   other keeps it too, or is replaced by a single unit when it is negligible.
   */
  method Normalize(op1: WorkRep, op2: WorkRep, prec: int) returns (r1: WorkRep, r2: WorkRep)
    requires op1 != op2
    modifies op1, op2
    ensures r1 == op1 && r2 == op2 && op1.neg == old(op1.neg) && op2.neg == old(op2.neg)
    ensures op1.exp == op2.exp
    ensures old(op1.exp) >= old(op2.exp) ==>
      Normalized(old(op1.int_), old(op1.exp), old(op2.int_), old(op2.exp), prec, op1.int_, op2.int_, op1.exp)
    ensures old(op1.exp) < old(op2.exp) ==>
      Normalized(old(op2.int_), old(op2.exp), old(op1.int_), old(op1.exp), prec, op2.int_, op1.int_, op1.exp)
  {
    var tmp, other := op1, op2;
    if op1.exp < op2.exp {
      tmp, other := op2, op1;
    }
    var tmpLen, otherLen := NumDigits(tmp.int_), NumDigits(other.int_);
    var exp := tmp.exp + Min(-1, tmpLen - prec - 2);
    if otherLen + other.exp - 1 < exp {
      other.int_ := 1;
      other.exp := exp;
    }
    tmp.int_ := Times10(tmp.int_, tmp.exp - other.exp);
    tmp.exp := other.exp;
    return op1, op2;
  }

  // ----- the replacement is invisible

  lemma ExactSumCommutes(mode: Mode, a: Decimal, b: Decimal)
    requires a.Finite? && b.Finite?
    ensures ExactSum(mode, a, b) == ExactSum(mode, b, a)
  {
  }

  lemma LargePlus(p: Params, big: nat)
    requires p.Valid() && NumDigits(big) >= p.prec + 2
    ensures big >= 10 && NumDigits(big + 1) > p.prec && NumDigits(big - 1) > p.prec
  {
    NumDigitsBounds(big);
    PowMonotone(10, p.prec + 1, NumDigits(big) - 1);
    PowPositive(10, p.prec);
    assert Pow(10, p.prec + 1) == 10 * Pow(10, p.prec);
    NumDigitsUnique(Pow(10, p.prec), p.prec);
    NumDigitsMonotone(Pow(10, p.prec), big - 1);
    NumDigitsMonotone(big, big + 1);
  }

  /** A large operand plus something below a unit, and plus the unit */
  lemma UnitAbove(p: Params, d: Decimal, x: Decimal, big: nat, k: nat, small: nat)
    requires p.Valid() && big % 10 == 0 && NumDigits(big) >= p.prec + 2 && 0 < small < Times10(1, k)
    requires d.Finite? && x.Finite? && d.neg == x.neg && d.exp == x.exp + k
    requires d.coef == big + 1 && x.coef == Times10(big, k) + small
    ensures FixValue(p, d) == FixValue(p, x) && FixSignals(p, d) == FixSignals(p, x)
  {
    LargePlus(p, big);
    CellAbove(big, k, small);
    StickyTwins(p, d, x, k, big);
  }

  lemma CellAbove(big: nat, k: nat, small: nat)
    requires big % 10 == 0 && 0 < small < Times10(1, k)
    ensures InCell((big + 1) as real, big) && Times10(big, k) < Times10(big, k) + small < Times10(big + 5, k)
  {
    Times10Sum(big, 5, k);
    Times10Sum(1, 4, k);
  }

  /** A large operand minus something below a unit, and minus the unit */
  lemma UnitBeneath(p: Params, d: Decimal, x: Decimal, big: nat, k: nat, small: nat)
    requires p.Valid() && big % 10 == 0 && NumDigits(big) >= p.prec + 2 && 0 < small < Times10(1, k)
    requires d.Finite? && x.Finite? && d.neg == x.neg && d.exp == x.exp + k
    requires d.coef == big - 1 && x.coef == Times10(big, k) - small
    ensures FixValue(p, d) == FixValue(p, x) && FixSignals(p, d) == FixSignals(p, x)
  {
    LargePlus(p, big);
    CellBeneath(big, k, small);
    StickyTwins(p, d, x, k, big - 5);
  }

  lemma CellBeneath(big: nat, k: nat, small: nat)
    requires big >= 10 && big % 10 == 0 && 0 < small < Times10(1, k)
    ensures InCell((big - 1) as real, big - 5) && Times10(big - 5, k) < Times10(big, k) - small < Times10(big, k)
  {
    var low := big - 5;
    assert low == 5 * (2 * (big / 10) - 1);
    Times10Sum(low, 5, k);
    Times10Sum(1, 4, k);
  }

  /** What Normalize leaves of a large operand next to a negligible one */
  lemma NegligibleShape(c: nat, exp: int, other: nat, otherExp: int, prec: nat, e: int)
    requires c > 0 && exp >= otherExp && Negligible(c, exp, other, otherExp, prec) && e == UnitBelow(c, exp, prec)
    ensures otherExp < e < exp && other < Times10(1, e - otherExp)
    ensures Times10(c, exp - e) % 10 == 0 && NumDigits(Times10(c, exp - e)) >= prec + 2
    ensures Times10(c, exp - otherExp) == Times10(Times10(c, exp - e), e - otherExp)
  {
    NumDigitsBounds(other);
    assert NumDigits(other) <= e - otherExp;
    PowMonotone(10, NumDigits(other), e - otherExp);
    Times10One(e - otherExp);
    NumDigitsShift(c, exp - e);
    Times10Twice(c, exp - e, e - otherExp);
  }

  /** Rounding the sum of the normalized operands is rounding the exact sum. */
  lemma NormalizeSound(p: Params, hi: Decimal, lo: Decimal, hiInt: nat, loInt: nat, e: int)
    requires p.Valid() && hi.Finite? && lo.Finite? && hi.coef > 0 && lo.coef > 0 && hi.exp >= lo.exp
    requires Normalized(hi.coef, hi.exp, lo.coef, lo.exp, p.prec, hiInt, loInt, e)
    ensures var s := SumOf(p.mode, hi.neg, hiInt, lo.neg, loInt, e);
      && FixValue(p, s) == FixValue(p, ExactSum(p.mode, hi, lo))
      && FixSignals(p, s) == FixSignals(p, ExactSum(p.mode, hi, lo))
      && (s.coef == 0 ==> e == lo.exp)
      && hiInt > 0 && loInt > 0
  {
    assert CoefAt(lo, lo.exp) == lo.coef;
    NumDigitsShift(hi.coef, hi.exp - e);
    if Negligible(hi.coef, hi.exp, lo.coef, lo.exp, p.prec) {
      NegligibleSound(p, hi, lo, hiInt, e);
    }
  }

  lemma NegligibleSound(p: Params, hi: Decimal, lo: Decimal, big: nat, e: int)
    requires p.Valid() && hi.Finite? && lo.Finite? && hi.coef > 0 && lo.coef > 0 && hi.exp >= lo.exp
    requires Negligible(hi.coef, hi.exp, lo.coef, lo.exp, p.prec)
    requires e == UnitBelow(hi.coef, hi.exp, p.prec) && big == Times10(hi.coef, hi.exp - e)
    ensures var s := SumOf(p.mode, hi.neg, big, lo.neg, 1, e);
      && FixValue(p, s) == FixValue(p, ExactSum(p.mode, hi, lo))
      && FixSignals(p, s) == FixSignals(p, ExactSum(p.mode, hi, lo))
      && s.coef > 0
  {
    NegligibleShape(hi.coef, hi.exp, lo.coef, lo.exp, p.prec, e);
    UnitTwins(p, hi.neg, big, lo.neg, lo.coef, e - lo.exp, lo.exp);
  }

  /** The unit and the operand it stands for make sums that are fixed alike. */
  lemma UnitTwins(p: Params, neg1: bool, big: nat, neg2: bool, small: nat, k: nat, e: int)
    requires p.Valid() && big % 10 == 0 && NumDigits(big) >= p.prec + 2
    requires 0 < small < Times10(1, k)
    ensures var d, x := SumOf(p.mode, neg1, big, neg2, 1, e + k), SumOf(p.mode, neg1, Times10(big, k), neg2, small, e);
      FixValue(p, d) == FixValue(p, x) && FixSignals(p, d) == FixSignals(p, x) && d.coef > 0
  {
    LargePlus(p, big);
    CellBeneath(big, k, small);
    Times10Sum(big - 5, 5, k);
    LargerDecides(p.mode, neg1, big, neg2, 1, e + k);
    LargerDecides(p.mode, neg1, Times10(big, k), neg2, small, e);
    var d, x := SumOf(p.mode, neg1, big, neg2, 1, e + k), SumOf(p.mode, neg1, Times10(big, k), neg2, small, e);
    if neg1 == neg2 {
      UnitAbove(p, d, x, big, k, small);
    } else {
      UnitBeneath(p, d, x, big, k, small);
    }
  }

  /** The larger operand decides the sign of a sum. */
  lemma LargerDecides(mode: Mode, neg1: bool, int1: nat, neg2: bool, int2: nat, e: int)
    requires int1 > int2
    ensures SumOf(mode, neg1, int1, neg2, int2, e) == Finite(neg1, if neg1 == neg2 then int1 + int2 else int1 - int2, e)
  {
  }

  // ----- the operation

  /** Which NaN of two operands an operation returns: signaling ones first, then the left one */
  function ChooseNaN(a: Decimal, b: Decimal): (n: Decimal)
    requires a.NaN? || b.NaN?
    ensures n.NaN? && (n == a || n == b)
    ensures n.signaling <==> (a.NaN? && a.signaling) || (b.NaN? && b.signaling)
    ensures a.NaN? && a.signaling == n.signaling ==> n == a
  {
    if a.NaN? && a.signaling then a
    else if b.NaN? && b.signaling then b
    else if a.NaN? then a
    else b
  }

  /** Raises the flag for a signaling NaN, and gives the quiet NaN to return. */
  method CheckNaNs(a: Decimal, b: Decimal, ctx: Context) returns (r: Decimal)
    requires ctx.Valid() && (a.NaN? || b.NaN?)
    modifies ctx.flags
    ensures r == Quieted(ctx.P(), ChooseNaN(a, b))
    ensures ctx.flags.raised == old(ctx.flags.raised)
      + if ChooseNaN(a, b).signaling then {InvalidOperation} else {}
  {
    if a.NaN? && a.signaling {
      r := ctx.RaiseError(InvalidNaN(a));
    } else if b.NaN? && b.signaling {
      r := ctx.RaiseError(InvalidNaN(b));
    } else {
      r := FixNaN(ctx.P(), if a.NaN? then a else b);
    }
  }

  /**
   a + b.  For finite operands the result and the signals are those of rounding the exact sum,
   whatever the distance of the exponents.
   */
  method Add(a: Decimal, b: Decimal, ctx: Context) returns (r: Decimal)
    requires ctx.Valid()
    modifies ctx.flags
    ensures a.Finite? && b.Finite? ==>
      && r == FixValue(ctx.P(), ExactSum(ctx.mode, a, b))
      && ctx.flags.raised == old(ctx.flags.raised) + FixSignals(ctx.P(), ExactSum(ctx.mode, a, b))
    ensures a.Finite? && b.Finite? ==> exists s ::
      && IsSum(ctx.mode, a, b, s)
      && r == FixValue(ctx.P(), s)
      && ctx.flags.raised == old(ctx.flags.raised) + FixSignals(ctx.P(), s)
    ensures a.Finite? && b.Finite? && Value(a) + Value(b) == 0.0 ==>
      r == FixValue(ctx.P(), Finite((a.neg && b.neg) || (a.neg != b.neg && ctx.mode == RoundFloor), 0,
                                    Min(a.exp, b.exp)))
    ensures a.NaN? || b.NaN? ==>
      && r == Quieted(ctx.P(), ChooseNaN(a, b))
      && ctx.flags.raised == old(ctx.flags.raised) + if ChooseNaN(a, b).signaling then {InvalidOperation} else {}
    ensures a.Infinity? && (b.Finite? || b == a) ==> r == a && ctx.flags.raised == old(ctx.flags.raised)
    ensures a.Finite? && b.Infinity? ==> r == b && ctx.flags.raised == old(ctx.flags.raised)
    ensures a.Infinity? && b == Infinity(!a.neg) ==>
      r == NaN(false, false, 0) && ctx.flags.raised == old(ctx.flags.raised) + {InvalidOperation}
  {
    if !a.Finite? || !b.Finite? {
      if a.NaN? || b.NaN? {
        r := CheckNaNs(a, b, ctx);
        return;
      }
      if a.Infinity? {
        if a.neg != b.neg && b.Infinity? {
          r := ctx.RaiseError(Invalid);
          return;
        }
        return a;
      }
      return b;
    }

    r := AddFinite(a, b, ctx);
    ExactSumIsSum(ctx.mode, a, b);
    if Value(a) + Value(b) == 0.0 {
      CancellingSum(ctx.mode, a, b);
    }
  }

  lemma ZeroSum(mode: Mode, a: Decimal, b: Decimal)
    requires a.Finite? && b.Finite? && a.coef == 0 && b.coef == 0
    ensures ExactSum(mode, a, b)
      == Finite((a.neg && b.neg) || (mode == RoundFloor && a.neg != b.neg), 0, Min(a.exp, b.exp))
  {
    Times10Product(0, a.exp - Min(a.exp, b.exp));
    Times10Product(0, b.exp - Min(a.exp, b.exp));
  }

  method AddFinite(a: Decimal, b: Decimal, ctx: Context) returns (r: Decimal)
    requires ctx.Valid() && a.Finite? && b.Finite?
    modifies ctx.flags
    ensures r == FixValue(ctx.P(), ExactSum(ctx.mode, a, b))
    ensures ctx.flags.raised == old(ctx.flags.raised) + FixSignals(ctx.P(), ExactSum(ctx.mode, a, b))
  {
    var exp := Min(a.exp, b.exp);
    var negativeZero := ctx.mode == RoundFloor && a.neg != b.neg;
    if a.coef == 0 && b.coef == 0 {
      ZeroSum(ctx.mode, a, b);
      r := Fix(Finite((a.neg && b.neg) || negativeZero, 0, exp), ctx);
    } else if a.coef == 0 {
      r := AddToZero(a, b, ctx, exp);
    } else if b.coef == 0 {
      ExactSumCommutes(ctx.mode, a, b);
      r := AddToZero(b, a, ctx, exp);
    } else {
      r := AddNonzero(a, b, ctx, exp, negativeZero);
    }
  }

  /** Adding a zero is rounding the other operand at the lower exponent. */
  lemma AddZero(p: Params, a: Decimal, b: Decimal)
    requires p.Valid() && a.Finite? && b.Finite? && a.coef == 0 && b.coef > 0
    ensures var d := Rescale(b, Max(Min(a.exp, b.exp), b.exp - p.prec - 1), p.mode);
      && FixValue(p, d) == FixValue(p, ExactSum(p.mode, a, b))
      && FixSignals(p, d) == FixSignals(p, ExactSum(p.mode, a, b))
  {
    var e := Min(a.exp, b.exp);
    var e' := Max(e, b.exp - p.prec - 1);
    PaddedValue(b.coef, b.exp - e');
    Times10Product(0, a.exp - e);
    assert ExactSum(p.mode, a, b) == Finite(b.neg, Times10(b.coef, b.exp - e), e);
    if e' != e {
      PaddingSuffices(p, b, e);
    }
  }

  method AddToZero(zero: Decimal, other: Decimal, ctx: Context, exp: int) returns (r: Decimal)
    requires ctx.Valid() && zero.Finite? && other.Finite? && zero.coef == 0 && other.coef > 0
    requires exp == Min(zero.exp, other.exp)
    modifies ctx.flags
    ensures r == FixValue(ctx.P(), ExactSum(ctx.mode, zero, other))
    ensures ctx.flags.raised == old(ctx.flags.raised) + FixSignals(ctx.P(), ExactSum(ctx.mode, zero, other))
  {
    AddZero(ctx.P(), zero, other);
    r := Fix(Rescale(other, Max(exp, other.exp - ctx.prec - 1), ctx.mode), ctx);
  }

  /** Whichever operand has the higher exponent, the normalized sum is fixed like the exact one. */
  lemma NormalizedSum(p: Params, a: Decimal, b: Decimal, aInt: nat, bInt: nat, e: int)
    requires p.Valid() && a.Finite? && b.Finite? && a.coef > 0 && b.coef > 0
    requires a.exp >= b.exp ==> Normalized(a.coef, a.exp, b.coef, b.exp, p.prec, aInt, bInt, e)
    requires a.exp < b.exp ==> Normalized(b.coef, b.exp, a.coef, a.exp, p.prec, bInt, aInt, e)
    ensures var s := SumOf(p.mode, a.neg, aInt, b.neg, bInt, e);
      && FixValue(p, s) == FixValue(p, ExactSum(p.mode, a, b))
      && FixSignals(p, s) == FixSignals(p, ExactSum(p.mode, a, b))
      && (s.coef == 0 ==> e == Min(a.exp, b.exp))
      && aInt > 0 && bInt > 0
  {
    if a.exp >= b.exp {
      NormalizeSound(p, a, b, aInt, bInt, e);
    } else {
      NormalizeSound(p, b, a, bInt, aInt, e);
      ExactSumCommutes(p.mode, a, b);
    }
  }

  method AddNonzero(a: Decimal, b: Decimal, ctx: Context, exp: int, negativeZero: bool) returns (r: Decimal)
    requires ctx.Valid() && a.Finite? && b.Finite? && a.coef > 0 && b.coef > 0
    requires exp == Min(a.exp, b.exp) && negativeZero == (ctx.mode == RoundFloor && a.neg != b.neg)
    modifies ctx.flags
    ensures r == FixValue(ctx.P(), ExactSum(ctx.mode, a, b))
    ensures ctx.flags.raised == old(ctx.flags.raised) + FixSignals(ctx.P(), ExactSum(ctx.mode, a, b))
  {
    var op1 := new WorkRep(a);
    var op2 := new WorkRep(b);
    op1, op2 := Normalize(op1, op2, ctx.prec);
    NormalizedSum(ctx.P(), a, b, op1.int_, op2.int_, op1.exp);

    if op1.neg != op2.neg && op1.int_ == op2.int_ {
      r := Fix(Finite(negativeZero, 0, exp), ctx);
      return;
    }
    var resultNeg, resultInt, resultExp := Combine(op1, op2);
    r := Fix(Finite(resultNeg, resultInt, resultExp), ctx);
  }

  /** Adds or subtracts the magnitudes of two operands at one exponent. */
  method Combine(x: WorkRep, y: WorkRep) returns (resultNeg: bool, resultInt: nat, resultExp: int)
    requires x != y && x.int_ > 0 && y.int_ > 0 && x.exp == y.exp
    requires x.neg == y.neg || x.int_ != y.int_
    modifies x, y
    ensures forall mode ::
      Finite(resultNeg, resultInt, resultExp) == old(SumOf(mode, x.neg, x.int_, y.neg, y.int_, x.exp))
  {
    var op1, op2 := x, y;
    if op1.neg != op2.neg {
      if op1.int_ < op2.int_ {
        op1, op2 := op2, op1;
      }
      if op1.neg {
        resultNeg := true;
        op1.neg, op2.neg := op2.neg, op1.neg;
      } else {
        resultNeg := false;
      }
    } else if op1.neg {
      resultNeg := true;
      op1.neg, op2.neg := false, false;
    } else {
      resultNeg := false;
    }

    if !op2.neg {
      resultInt := op1.int_ + op2.int_;
    } else {
      resultInt := op1.int_ - op2.int_;
    }
    resultExp := op1.exp;
  }

  /** Addition is correctly rounded: a nonzero sum, rounded in any mode, at any distance of exponents. */
  lemma SumCorrectlyRounded(p: Params, a: Decimal, b: Decimal)
    requires p.Valid() && a.Finite? && b.Finite? && Value(a) + Value(b) != 0.0
    ensures var s := ExactSum(p.mode, a, b);
      && s.neg == (Value(a) + Value(b) < 0.0)
      && var x := if s.neg then -(Value(a) + Value(b)) else Value(a) + Value(b);
         CorrectlyRounded(p, s.neg, x, FixValue(p, s), FixSignals(p, s))
  {
    var s := ExactSum(p.mode, a, b);
    ExactSumValue(p.mode, a, b);
    ScaleZero(s.exp);
    MagnitudeLeads(s);
    FixCorrect(p, s);
  }
}
