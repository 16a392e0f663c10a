/**
 The eight rounding modes.

 The program decides a rounding by looking at characters of the coefficient; the reference
 decides it from the integer part of a quotient and from how the fraction that is cut off
 compares with one half.  DecideAgrees ties the two together.
 */
module Rounding {
  import opened Powers
  import opened DigitStrings

  datatype Mode =
    | RoundDown | RoundHalfUp | RoundHalfEven | RoundCeiling
    | RoundFloor | RoundUp | RoundHalfDown | Round05Up

  // ----- the reference

  /** The fraction left behind by an integer part */
  datatype Tail = Nothing | BelowHalf | ExactlyHalf | AboveHalf

  /** Is the magnitude with integer part q and this tail rounded to q + 1? */
  predicate RoundsAway(mode: Mode, neg: bool, q: int, tail: Tail) {
    && tail != Nothing
    && match mode
       case RoundDown => false
       case RoundUp => true
       case RoundHalfUp => tail != BelowHalf
       case RoundHalfDown => tail == AboveHalf
       case RoundHalfEven => tail == AboveHalf || (tail == ExactlyHalf && q % 2 == 1)
       case RoundCeiling => !neg
       case RoundFloor => neg
       case Round05Up => q % 5 == 0
  }

  function TailOfRatio(n: nat, d: nat): Tail
    requires d > 0
  {
    var r := n % d;
    if r == 0 then Nothing
    else if 2 * r < d then BelowHalf
    else if 2 * r == d then ExactlyHalf
    else AboveHalf
  }

  /** n / d rounded to an integer */
  function RoundRatio(mode: Mode, neg: bool, n: nat, d: nat): nat
    requires d > 0
  {
    DivPositive(n, d);
    if RoundsAway(mode, neg, n / d, TailOfRatio(n, d)) then n / d + 1 else n / d
  }

  /** The fractional part of a real magnitude, classified */
  ghost function TailOfReal(x: real): Tail {
    var f := x - x.Floor as real;
    if f == 0.0 then Nothing
    else if f < 0.5 then BelowHalf
    else if f == 0.5 then ExactlyHalf
    else AboveHalf
  }

  /** A real magnitude rounded to an integer */
  ghost function RoundReal(mode: Mode, neg: bool, x: real): int {
    if RoundsAway(mode, neg, x.Floor, TailOfReal(x)) then x.Floor + 1 else x.Floor
  }

  /** What the names of the modes promise, for the signed value whose magnitude is x */
  ghost predicate Honours(mode: Mode, neg: bool, x: real, n: int) {
    var y := n as real;
    match mode
    case RoundDown => y <= x < y + 1.0
    case RoundUp => y - 1.0 < x <= y
    case RoundCeiling => if neg then y <= x < y + 1.0 else y - 1.0 < x <= y
    case RoundFloor => if neg then y - 1.0 < x <= y else y <= x < y + 1.0
    case RoundHalfUp => y - 0.5 <= x < y + 0.5
    case RoundHalfDown => y - 0.5 < x <= y + 0.5
    case RoundHalfEven => y - 0.5 <= x <= y + 0.5 && (x == y - 0.5 || x == y + 0.5 ==> n % 2 == 0)
    case Round05Up => y - 1.0 < x < y + 1.0 && (y < x ==> n % 5 != 0) && (x < y ==> (n - 1) % 5 == 0)
  }

  /** RoundReal is the only rounding that does what the mode promises. */
  lemma RoundRealHonours(mode: Mode, neg: bool, x: real, n: int)
    ensures Honours(mode, neg, x, n) <==> n == RoundReal(mode, neg, x)
  {
    var q := x.Floor;
    if n < q {
      assert n as real <= q as real - 1.0;
    } else if n > q + 1 {
      assert n as real >= q as real + 2.0;
    }
  }

  // ----- the program's decisions

  /** re.compile('0*$').match(s, k) */
  predicate AllZeros(s: string, k: nat)
    requires k <= |s|
  {
    forall i :: k <= i < |s| ==> s[i] == '0'
  }

  /** re.compile('50*$').match(s, k) */
  predicate ExactHalf(s: string, k: nat)
    requires k <= |s|
  {
    k < |s| && s[k] == '5' && AllZeros(s, k + 1)
  }

  function DecideDown(s: string, prec: nat): int
    requires prec < |s|
  {
    if AllZeros(s, prec) then 0 else -1
  }

  function DecideHalfUp(s: string, prec: nat): int
    requires prec < |s|
  {
    if s[prec] in "56789" then 1
    else if AllZeros(s, prec) then 0
    else -1
  }

  /** 1 to round away from zero, 0 when only zeros are cut off, -1 when the digits cut off are dropped */
  function Decide(mode: Mode, neg: bool, s: string, prec: nat): int
    requires prec < |s|
  {
    match mode
    case RoundDown => DecideDown(s, prec)
    case RoundUp => -DecideDown(s, prec)
    case RoundHalfUp => DecideHalfUp(s, prec)
    case RoundHalfDown => if ExactHalf(s, prec) then -1 else DecideHalfUp(s, prec)
    case RoundHalfEven =>
      if ExactHalf(s, prec) && (prec == 0 || s[prec - 1] in "02468") then -1 else DecideHalfUp(s, prec)
    case RoundCeiling => if neg then DecideDown(s, prec) else -DecideDown(s, prec)
    case RoundFloor => if !neg then DecideDown(s, prec) else -DecideDown(s, prec)
    case Round05Up =>
      if prec != 0 && s[prec - 1] !in "05" then DecideDown(s, prec) else -DecideDown(s, prec)
  }

  // ----- the two agree

  lemma TailIsZero(s: string, k: nat)
    requires AllDigits(s) && k <= |s|
    ensures AllZeros(s, k) <==> ToNat(s[k..]) == 0
  {
    ZeroIffAllZeros(s[k..]);
    forall i | k <= i < |s| ensures s[i] == s[k..][i - k] {}
  }

  lemma LeadingDigit(s: string)
    requires AllDigits(s) && s != []
    ensures ToNat(s) == DigitValue(s[0]) * Pow(10, |s| - 1) + ToNat(s[1..])
    ensures ToNat(s[1..]) < Pow(10, |s| - 1)
  {
    var a, t := s[..1], s[1..];
    assert s == a + t;
    assert ToNat(a) == DigitValue(s[0]) by {
      assert a[..0] == [];
    }
    ToNatConcat(a, t);
    ToNatBound(t);
  }

  lemma HalfDigit(v: nat, p: nat, w: nat)
    requires v < 10 && w < p
    ensures 2 * (v * p + w) >= 10 * p <==> v >= 5
    ensures 2 * (v * p + w) == 10 * p <==> v == 5 && w == 0
    ensures v * p + w == 0 <==> v == 0 && w == 0
  {
    if v >= 5 {
      MulMonotone(p, 5, v);
      if v >= 6 {
        MulMonotone(p, 6, v);
      }
    } else {
      MulMonotone(p, v, 4);
      if v >= 1 {
        MulMonotone(p, 1, v);
      }
    }
  }

  /** The digits cut off at position k, compared with half of the last place kept */
  lemma TailByDigits(s: string, k: nat)
    requires AllDigits(s) && k < |s|
    ensures Pow(10, |s| - k) > 0
    ensures TailOfRatio(ToNat(s), Pow(10, |s| - k)) == Nothing <==> AllZeros(s, k)
    ensures TailOfRatio(ToNat(s), Pow(10, |s| - k)) == ExactlyHalf <==> ExactHalf(s, k)
    ensures TailOfRatio(ToNat(s), Pow(10, |s| - k)) in {ExactlyHalf, AboveHalf} <==> s[k] in "56789"
  {
    ToNatSplit(s, k);
    var t := s[k..];
    LeadingDigit(t);
    assert t[1..] == s[k + 1..];
    TailIsZero(s, k);
    TailIsZero(s, k + 1);
    var v, p, w := DigitValue(s[k]), Pow(10, |t| - 1), ToNat(t[1..]);
    HalfDigit(v, p, w);
    assert Pow(10, |t|) == 10 * p;
    assert v == 5 <==> s[k] == '5';
    assert v >= 5 <==> s[k] in "56789";
  }

  lemma LastDigitKept(s: string, k: nat)
    requires AllDigits(s) && k <= |s|
    ensures k == 0 ==> ToNat(s[..k]) == 0
    ensures k > 0 ==> (ToNat(s[..k]) % 2 == 0 <==> s[k - 1] in "02468")
    ensures k > 0 ==> (ToNat(s[..k]) % 5 == 0 <==> s[k - 1] in "05")
  {
    if k > 0 {
      assert s[..k][..k - 1] == s[..k - 1];
      var v := DigitValue(s[k - 1]);
      assert ToNat(s[..k]) == 10 * ToNat(s[..k - 1]) + v;
      assert s[k - 1] == DigitChar(v);
    }
  }

  /** The case analysis over the modes, away from the digits */
  lemma DecideByTail(mode: Mode, neg: bool, s: string, k: nat, q: nat, tail: Tail)
    requires k < |s|
    requires tail == Nothing <==> AllZeros(s, k)
    requires tail == ExactlyHalf <==> ExactHalf(s, k)
    requires tail in {ExactlyHalf, AboveHalf} <==> s[k] in "56789"
    requires k == 0 ==> q == 0
    requires k > 0 ==> (q % 2 == 0 <==> s[k - 1] in "02468")
    requires k > 0 ==> (q % 5 == 0 <==> s[k - 1] in "05")
    ensures Decide(mode, neg, s, k) in {-1, 0, 1}
    ensures Decide(mode, neg, s, k) == 0 <==> tail == Nothing
    ensures Decide(mode, neg, s, k) > 0 <==> RoundsAway(mode, neg, q, tail)
  {
    assert tail != Nothing || s[k] == '0';
  }

  /** Every rounding function decides as the reference does. */
  lemma DecideAgrees(mode: Mode, neg: bool, s: string, k: nat)
    requires AllDigits(s) && k < |s|
    ensures Pow(10, |s| - k) > 0
    ensures Decide(mode, neg, s, k) == 0 <==> ToNat(s) % Pow(10, |s| - k) == 0
    ensures Decide(mode, neg, s, k) in {-1, 0, 1}
    ensures ToNat(s[..k]) + (if Decide(mode, neg, s, k) > 0 then 1 else 0)
         == RoundRatio(mode, neg, ToNat(s), Pow(10, |s| - k))
  {
    var n, d := ToNat(s), Pow(10, |s| - k);
    TailByDigits(s, k);
    LastDigitKept(s, k);
    ToNatSplit(s, k);
    DecideByTail(mode, neg, s, k, n / d, TailOfRatio(n, d));
  }
}
