/**
 The sticky-interval argument.

 Add, divide and square root all compute an integer that stands in for the exact result: both lie
 strictly between the same two neighbouring multiples of five units, and the stand-in has at
 least one digit more than the context keeps.  Rounding cannot tell them apart.
 */
module Sticky {
  import opened Powers
  import opened DigitStrings
  import opened Rounding
  import opened Decimals
  import opened ExactRounding

  /** y lies strictly between low, a multiple of five, and the next multiple of five. */
  ghost predicate InCell(y: real, low: int) {
    low % 5 == 0 && low as real < y < (low + 5) as real
  }

  /** A multiple of five, cut at a place above the last */
  lemma CellInPlace(low: nat, k: nat)
    requires k >= 1 && low % 5 == 0
    ensures Pow(10, k) > 0
    ensures var f := low / Pow(10, k);
      && Times10(f, k) <= low && low + 5 <= Times10(f + 1, k)
      && (2 * low >= Times10(2 * f + 1, k) || 2 * (low + 5) <= Times10(2 * f + 1, k))
  {
    RatioBounds(low, k);
    var f, r := low / Pow(10, k), low % Pow(10, k);
    var t, d := Times10(f, k - 1), Pow(10, k - 1);
    assert low == 10 * t + r && Pow(10, k) == 10 * d;
    FiveInTen(low / 5, t, r, d);
  }

  lemma FiveInTen(v: int, t: int, r: int, d: int)
    requires 5 * v == 10 * t + r && 0 <= r < 10 * d
    ensures r <= 10 * d - 5 && (r >= 5 * d || r + 5 <= 5 * d)
  {
    assert r == 5 * (v - 2 * t);
  }

  /** What a rounding to tens sees of a number is decided by its cell. */
  lemma CellRound(z: real, low: nat, k: int)
    requires InCell(z, low) && k >= 1
    ensures Pow(10, k) > 0
    ensures var f := low / Pow(10, k);
      && Scale(z, -k).Floor == f
      && TailOfReal(Scale(z, -k)) == if 2 * low >= Times10(2 * f + 1, k) then AboveHalf else BelowHalf
  {
    CellInPlace(low, k);
    var f, y := low / Pow(10, k), Scale(z, -k);
    ScaleTwice(z, -k, k);
    ScaleSum(y, y, k);
    ScaleCompare(y, f, k);
    ScaleCompare(y, f + 1, k);
    ScaleCompare(y + y, 2 * f + 1, k);
  }

  lemma CellsRoundAlike(mode: Mode, neg: bool, x: real, y: real, low: nat, k: int)
    requires InCell(x, low) && InCell(y, low) && k >= 1
    ensures RoundReal(mode, neg, Scale(x, -k)) == RoundReal(mode, neg, Scale(y, -k))
    ensures TailOfReal(Scale(x, -k)) != Nothing && TailOfReal(Scale(y, -k)) != Nothing
  {
    CellRound(x, low, k);
    CellRound(y, low, k);
  }

  /** No power of ten, the unit excepted, falls inside a cell. */
  lemma CellDigits(m: nat, low: nat)
    requires low % 5 == 0 && low < m < low + 5 && NumDigits(m) >= 2
    ensures Pow(10, NumDigits(m) - 1) <= low && low + 5 <= Pow(10, NumDigits(m))
  {
    NumDigitsBounds(m);
    assert Pow(10, NumDigits(m) - 1) == 10 * Pow(10, NumDigits(m) - 2);
    assert Pow(10, NumDigits(m)) == 10 * Pow(10, NumDigits(m) - 1);
  }

  /** Every number in the cell leads where the stand-in leads. */
  lemma CellLeads(d: Decimal, y: real, low: nat)
    requires d.Finite? && NumDigits(d.coef) >= 2
    requires InCell(y, low) && InCell(d.coef as real, low)
    ensures LeadingExponent(Scale(y, d.exp), d.Adjusted())
  {
    var l := NumDigits(d.coef);
    CellDigits(d.coef, low);
    ScaleWhole(1, l - 1);
    ScaleWhole(1, l);
    Times10One(l - 1);
    Times10One(l);
    LeadsScaled(y, l - 1, d.exp);
  }

  /** Stand-in and exact value are rounded to the same integer at the quantum, and neither is one. */
  lemma CellQuantum(p: Params, d: Decimal, y: real, low: nat)
    requires p.Valid() && d.Finite? && NumDigits(d.coef) > p.prec
    requires InCell(y, low) && InCell(d.coef as real, low)
    ensures d.exp < Quantum(p, d) && d.coef > 0
    ensures RoundReal(p.mode, d.neg, Scale(Scale(y, d.exp), -Quantum(p, d))) == RoundedCoef(p, d)
    ensures TailOfReal(Scale(Scale(y, d.exp), -Quantum(p, d))) != Nothing
    ensures LosesDigits(p, d)
  {
    var q := Quantum(p, d);
    ScaleTwice(y, d.exp, -q);
    ScaleTwice(d.coef as real, d.exp, -q);
    CellsRoundAlike(p.mode, d.neg, y, d.coef as real, low, q - d.exp);
    RoundedCoefIsReal(p, d);
  }

  /** Fixing the stand-in rounds every exact value of its cell correctly, signals included. */
  lemma StickyFix(p: Params, d: Decimal, y: real, low: nat)
    requires p.Valid() && d.Finite? && NumDigits(d.coef) > p.prec
    requires InCell(y, low) && InCell(d.coef as real, low)
    ensures CorrectlyRounded(p, d.neg, Scale(y, d.exp), FixValue(p, d), FixSignals(p, d))
  {
    var x, e := Scale(y, d.exp), d.Adjusted();
    CellLeads(d, y, low);
    CellQuantum(p, d, y, low);
    FixRoundedAt(p, d);
    RoundedCoefIsReal(p, d);
    FractionalNotWhole(x, Quantum(p, d), RoundedCoef(p, d));
    LosesIff(p, d);
    ReachesIff(x, e, p.emin);
    ReachesIff(Magnitude(d), e, p.emin);
    assert RoundedAt(p, d.neg, x, e, FixValue(p, d), FixSignals(p, d));
  }

  /** Two decimals in one cell are fixed to the identical result with identical signals. */
  lemma StickyTwins(p: Params, d: Decimal, exact: Decimal, k: nat, low: nat)
    requires p.Valid() && d.Finite? && NumDigits(d.coef) > p.prec
    requires exact.Finite? && exact.neg == d.neg && exact.exp + k == d.exp
    requires InCell(d.coef as real, low)
    requires Times10(low, k) < exact.coef < Times10(low + 5, k)
    ensures FixValue(p, d) == FixValue(p, exact)
    ensures FixSignals(p, d) == FixSignals(p, exact)
  {
    var y := Scale(exact.coef as real, 0 - k);
    ScaleTwice(exact.coef as real, 0 - k, k);
    ScaleTwice(exact.coef as real, 0 - k, d.exp);
    ScaleCompare(y, low, k);
    ScaleCompare(y, low + 5, k);
    CellLeads(d, y, low);
    PowPositive(10, k);
    MagnitudeLeads(exact);
    LeadingExponentUnique(Magnitude(exact), d.Adjusted(), exact.Adjusted());
    CellQuantum(p, d, y, low);
    RoundedCoefIsReal(p, exact);
  }
}
