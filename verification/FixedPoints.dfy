/** The results of Fix are exactly the values a context can hold. */
module FixedPoints {
  import opened Powers
  import opened DigitStrings
  import opened Decimals
  import opened ExactRounding

  /** The context can hold this value as it is. */
  predicate Fits(p: Params, d: Decimal)
    requires p.Valid()
  {
    match d
    case Infinity(_) => true
    case NaN(_, _, payload) => payload < Pow(10, p.prec - if p.clamp then 1 else 0)
    case Finite(_, coef, exp) =>
      && NumDigits(coef) <= p.prec
      && p.Etiny() <= exp
      && (if coef == 0 then exp <= p.emax else d.Adjusted() <= p.emax)
      && (p.clamp ==> exp <= p.Etop())
  }

  lemma NinesFit(p: Params, neg: bool)
    requires p.Valid()
    ensures Pow(10, p.prec) > 1 && Fits(p, Finite(neg, Pow(10, p.prec) - 1, p.Etop()))
  {
    NinesOddOne(p);
    PowPositive(10, p.prec - 1);
    assert Pow(10, p.prec) == 10 * Pow(10, p.prec - 1);
    NumDigitsUnique(Pow(10, p.prec) - 1, p.prec - 1);
  }

  lemma RoundedFits(p: Params, d: Decimal)
    requires p.Valid() && d.Finite? && d.coef > 0 && !Overflows(p, d) && d.exp < Quantum(p, d)
    ensures Fits(p, FixValue(p, d))
  {
    RoundedCoefBound(p, d);
    var n := RoundedCoef(p, d);
    if NumDigits(n) > p.prec {
      PowPositive(10, p.prec - 1);
      assert Pow(10, p.prec) == 10 * Pow(10, p.prec - 1);
      assert NumDigits(n / 10) == NumDigits(n) - 1;
    }
  }

  /** Whatever goes in, what comes out fits. */
  lemma FixFits(p: Params, d: Decimal)
    requires p.Valid()
    ensures Fits(p, FixValue(p, d))
  {
    if d.NaN? {
      PowPositive(10, p.prec - if p.clamp then 1 else 0);
    } else if d.Finite? && d.coef > 0 {
      if Overflows(p, d) {
        NinesFit(p, d.neg);
      } else if d.exp < Quantum(p, d) {
        RoundedFits(p, d);
      } else if p.clamp && d.exp > p.Etop() {
        NumDigitsShift(d.coef, d.exp - p.Etop());
      }
    }
  }

  /** Fix changes a value exactly when it does not fit, and then a second Fix changes nothing. */
  lemma FixFixedPoint(p: Params, d: Decimal)
    requires p.Valid()
    ensures FixValue(p, d) == d <==> Fits(p, d)
    ensures FixValue(p, FixValue(p, d)) == FixValue(p, d)
    ensures FixSignals(p, FixValue(p, d)) <= {Subnormal}
  {
    FixFits(p, d);
    if Fits(p, d) {
      FittingIsKept(p, d);
    }
    FittingIsKept(p, FixValue(p, d));
  }

  lemma FittingIsKept(p: Params, d: Decimal)
    requires p.Valid() && Fits(p, d)
    ensures FixValue(p, d) == d
    ensures FixSignals(p, d) <= {Subnormal}
    ensures Subnormal in FixSignals(p, d) <==> d.Finite? && d.coef > 0 && d.Adjusted() < p.emin
  {
    if d.NaN? {
      var m := Pow(10, p.prec - if p.clamp then 1 else 0);
      DivModUnique(d.payload, m, 0, d.payload);
    }
  }

  // ----- which of the equal representations is left

  /** The exponent is raised only as far as digits or range require, and lowered only by a clamp. */
  predicate KeepsExponent(p: Params, d: Decimal, r: Decimal)
    requires p.Valid() && d.Finite? && r.Finite?
  {
    && (r.exp > d.exp <==> NumDigits(d.coef) > p.prec || d.exp < p.Etiny())
    && (r.exp > d.exp ==> r.exp == p.Etiny() || (r.coef > 0 && NumDigits(r.coef) == p.prec))
    && (r.exp < d.exp <==> p.clamp && d.exp > p.Etop())
    && (r.exp < d.exp ==> r.exp == p.Etop())
  }

  lemma FixExponent(p: Params, d: Decimal)
    requires p.Valid() && d.Finite? && d.coef > 0 && Overflow !in FixSignals(p, d)
    ensures FixValue(p, d).Finite? && KeepsExponent(p, d, FixValue(p, d))
  {
    if d.exp < Quantum(p, d) {
      CutExponent(p, d);
    }
  }

  lemma CutExponent(p: Params, d: Decimal)
    requires p.Valid() && d.Finite? && d.coef > 0 && !Overflows(p, d) && d.exp < Quantum(p, d)
    ensures var r := FixValue(p, d);
      r.Finite? && r.exp > d.exp && (r.exp == p.Etiny() || (r.coef > 0 && NumDigits(r.coef) == p.prec))
  {
    RoundedCoefBound(p, d);
    if Quantum(p, d) > p.Etiny() {
      TargetKeepsDigits(p, d);
    }
  }

  /** Together with sign and magnitude that determines the result. */
  lemma FixOnly(p: Params, d: Decimal, r: Decimal)
    requires p.Valid() && d.Finite? && d.coef > 0 && Overflow !in FixSignals(p, d) && FixValue(p, d).Finite?
    requires r.Finite? && r.neg == FixValue(p, d).neg && Magnitude(r) == Magnitude(FixValue(p, d))
    requires Fits(p, r) && KeepsExponent(p, d, r)
    ensures r == FixValue(p, d)
  {
    var s := FixValue(p, d);
    FixFits(p, d);
    FixExponent(p, d);
    SamePlaces(r, s);
    if r.exp == s.exp {
      ScaleOrder(r.coef as real, s.coef as real, r.exp);
    }
  }

  lemma SamePlaces(r: Decimal, s: Decimal)
    requires r.Finite? && s.Finite? && Magnitude(r) == Magnitude(s)
    ensures r.coef == 0 <==> s.coef == 0
    ensures r.coef > 0 ==> r.Adjusted() == s.Adjusted()
  {
    ScaleZero(r.exp);
    ScaleZero(s.exp);
    if r.coef > 0 {
      MagnitudeLeads(r);
    }
    if s.coef > 0 {
      MagnitudeLeads(s);
    }
    if r.coef > 0 && s.coef > 0 {
      LeadingExponentUnique(Magnitude(r), r.Adjusted(), s.Adjusted());
    }
  }

  /** Rounded says that digits were cut off, Clamped that the exponent was changed without need of it. */
  lemma RoundedAndClamped(p: Params, d: Decimal)
    requires p.Valid() && d.Finite? && d.coef > 0
    ensures var r, signals := FixValue(p, d), FixSignals(p, d);
      && (Rounded in signals <==> Overflow in signals || (r.Finite? && r.exp > d.exp))
      && (Clamped in signals <==> Overflow !in signals && r.Finite? && (r.coef == 0 || r.exp < d.exp))
  {
    if Overflow !in FixSignals(p, d) {
      FixExponent(p, d);
    } else {
      NinesOddOne(p);
    }
    if d.exp < Quantum(p, d) && d.Adjusted() <= p.emax {
      RoundedCoefBound(p, d);
    }
  }

  /** A zero keeps its sign and takes the nearest exponent in range. */
  lemma FixZero(p: Params, d: Decimal, e: int)
    requires p.Valid() && d.IsZero()
    ensures var r := FixValue(p, d);
      && r.IsZero() && r.neg == d.neg && Fits(p, r)
      && (Fits(p, d.(exp := e)) ==> Abs(r.exp - d.exp) <= Abs(e - d.exp))
      && FixSignals(p, d) == if r.exp != d.exp then {Clamped} else {}
  {
  }

  /** Of a payload that is too long the last digits stay; sign and kind of a NaN never change. */
  lemma FixNaNDigits(p: Params, d: Decimal)
    requires p.Valid() && d.NaN?
    ensures var r, room := FixValue(p, d), p.prec - if p.clamp then 1 else 0;
      && r.NaN? && r.neg == d.neg && r.signaling == d.signaling && FixSignals(p, d) == {}
      && |Digits(d.payload)| >= 1 && AllDigits(Digits(d.payload))
      && r.payload == if |Digits(d.payload)| <= room then d.payload
                      else ToNat(Digits(d.payload)[|Digits(d.payload)| - room..])
  {
    var s, room := Digits(d.payload), p.prec - if p.clamp then 1 else 0;
    DigitsShape(d.payload);
    if |s| <= room {
      NumDigitsBounds(d.payload);
      PowMonotone(10, |s|, room);
      DivModUnique(d.payload, Pow(10, room), 0, d.payload);
    } else {
      ToNatSplit(s, |s| - room);
    }
  }

  /** No finite value that fits is larger than the finite result of an overflow. */
  lemma LargestFits(p: Params, d: Decimal, neg: bool)
    requires p.Valid() && d.Finite? && Fits(p, d)
    ensures Pow(10, p.prec) > 0
    ensures Fits(p, Finite(neg, Pow(10, p.prec) - 1, p.Etop()))
    ensures Magnitude(d) <= Magnitude(Finite(neg, Pow(10, p.prec) - 1, p.Etop()))
  {
    var c := Pow(10, p.prec) - 1;
    NinesFit(p, neg);
    NumDigitsBounds(d.coef);
    PowMonotone(10, NumDigits(d.coef), p.prec);
    if d.coef == 0 {
      ScaleZero(d.exp);
      ScalePositive(c as real, p.Etop());
    } else if d.exp <= p.Etop() {
      ScaleOrder(d.coef as real, c as real, d.exp);
      ScaleGrows(c as real, d.exp, p.Etop());
    } else {
      PaddedBelow(p, d, c);
    }
  }

  lemma {:induction false} ScaleGrows(x: real, d: int, e: int)
    requires x > 0.0 && d <= e
    ensures Scale(x, d) <= Scale(x, e)
    decreases e - d
  {
    if d < e {
      ScaleGrows(x, d, e - 1);
      ScaleStep(x, e - 1);
      ScalePositive(x, e - 1);
    }
  }

  lemma PaddedBelow(p: Params, d: Decimal, c: nat)
    requires p.Valid() && d.Finite? && d.coef > 0 && Fits(p, d) && d.exp > p.Etop() && c == Pow(10, p.prec) - 1
    ensures Magnitude(d) <= Scale(c as real, p.Etop())
  {
    var k := d.exp - p.Etop();
    var padded := Times10(d.coef, k);
    NumDigitsShift(d.coef, k);
    NumDigitsBounds(padded);
    PowMonotone(10, NumDigits(padded), p.prec);
    MagnitudeShift(d.neg, d.coef, d.exp, k);
    ScaleOrder(padded as real, c as real, p.Etop());
  }
}
