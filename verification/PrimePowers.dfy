/** Telling powers of two and of five, and bounding a decimal logarithm from below. */
module PrimePowers {
  import opened Powers
  import opened DigitStrings
  import opened PythonText
  import opened Bits
  import opened IntegerRoots

  // ----- powers of two

  /** a & b for a nonnegative a and any b, in two's complement */
  function AndInt(a: nat, b: int): nat {
    if a == 0 then 0 else 2 * AndInt(a / 2, b / 2) + (a % 2) * (b % 2)
  }

  lemma {:induction false} AndComplement(a: nat)
    ensures AndInt(a, 0 - a - 1) == 0
  {
    if a > 0 {
      assert (0 - a - 1) / 2 == 0 - a / 2 - 1;
      AndComplement(a / 2);
    }
  }

  /** c & -c is c exactly for the powers of two, and then the exponent is one less than the bit length. */
  lemma {:induction false} PowerOfTwoTest(c: nat)
    requires c >= 1
    ensures AndInt(c, 0 - c) == c <==> c == Pow(2, BitLength(c) - 1)
  {
    if c % 2 == 0 {
      assert (0 - c) / 2 == 0 - c / 2;
      PowerOfTwoTest(c / 2);
    } else {
      assert (0 - c) / 2 == 0 - c / 2 - 1;
      AndComplement(c / 2);
    }
  }

  /** Powers of two have that exponent, so nothing else passes for one. */
  lemma {:induction false} TwoExponent(k: nat)
    ensures BitLength(Pow(2, k)) == k + 1
  {
    if k > 0 {
      TwoExponent(k - 1);
      PowPositive(2, k - 1);
      DoubledLength(Pow(2, k - 1));
    } else {
      assert BitLength(1) == 1 + BitLength(0);
    }
  }

  lemma DoubledLength(c: nat)
    requires c > 0
    ensures BitLength(2 * c) == BitLength(c) + 1
  {
    assert 2 * c / 2 == c;
  }

  // ----- powers of five

  /** A divisor of a power of five that is no multiple of five is 1. */
  lemma {:induction false} CoprimeToFive(q: nat, x: nat, e: nat)
    requires q * x == Pow(5, e) && q % 5 != 0
    ensures q == 1
  {
    if e == 0 {
      ProductOne(q, x);
    } else {
      FiveDivides(q, x, Pow(5, e - 1));
      CoprimeToFive(q, x / 5, e - 1);
    }
  }

  lemma ProductOne(q: nat, x: nat)
    requires q * x == 1
    ensures q == 1 && x == 1
  {
    if q >= 2 {
      if x >= 1 {
        MulMonotone(q, 1, x);
      }
    } else if x >= 2 {
      if q >= 1 {
        MulMonotone(x, 1, q);
      }
    }
  }

  lemma FiveDivides(q: nat, x: nat, p: nat)
    requires q * x == 5 * p && q % 5 != 0
    ensures x % 5 == 0 && q * (x / 5) == p
  {
    var a, r, b, s := q / 5, q % 5, x / 5, x % 5;
    assert q * x == q * (5 * b + s) == 5 * (q * b) + q * s;
    assert q * s == (5 * a + r) * s == 5 * (a * s) + r * s;
    assert (r * s) % 5 == 0;
    ResiduesOfFive(r, s);
  }

  lemma ResiduesOfFive(r: nat, s: nat)
    requires 0 < r < 5 && s < 5 && (r * s) % 5 == 0
    ensures s == 0
  {
    if r == 1 {
    } else if r == 2 {
    } else if r == 3 {
    } else {
    }
  }

  /** nbits(c) * 28 // 65 is at least the exponent of c, if c is a power of five. */
  lemma FiveExponentBound(c: nat, k: nat)
    requires c == Pow(5, k) && k >= 1
    ensures k <= BitLength(c) * 28 / 65
  {
    var b := BitLength(c);
    BitLengthPow(c);
    SixtyFiveBits();
    PowersCross(2, 65, 5, 28, k, b);
  }

  /** From c**i < d**j and d**k < c**b: the exponents compare as i*k <= j*b. */
  lemma PowersCross(c: nat, i: nat, d: nat, j: nat, k: nat, b: nat)
    requires c >= 2 && k >= 1 && j >= 1 && Pow(c, i) < Pow(d, j) && Pow(d, k) < Pow(c, b)
    ensures i * k <= j * b
  {
    Raised(d, k, c, b, j);
    RaisedStrict(c, i, d, j, k);
    MulCommute(k, j);
    MulCommute(b, j);
    if j * b < i * k {
      PowMonotone(c, j * b, i * k);
    }
  }

  lemma Raised(d: nat, k: nat, c: nat, b: nat, j: nat)
    requires Pow(d, k) <= Pow(c, b)
    ensures 0 <= k * j && 0 <= b * j && Pow(d, k * j) <= Pow(c, b * j)
  {
    PowTimes(d, k, j);
    PowTimes(c, b, j);
    PowOrder(Pow(d, k), Pow(c, b), j);
  }

  lemma RaisedStrict(d: nat, k: nat, c: nat, b: nat, j: nat)
    requires j >= 1 && Pow(d, k) < Pow(c, b)
    ensures 0 <= k * j && 0 <= b * j && Pow(d, k * j) < Pow(c, b * j)
  {
    PowTimes(d, k, j);
    PowTimes(c, b, j);
    PowOrderStrict(Pow(d, k), Pow(c, b), j);
  }

  lemma SixtyFiveBits()
    ensures Pow(2, 65) < Pow(5, 28)
  {
    assert Pow(2, 8) == 256 && Pow(2, 5) == 32 && Pow(5, 7) == 78125;
    PowAdd(2, 8, 8);
    PowAdd(2, 16, 16);
    PowAdd(2, 32, 32);
    assert Pow(2, 65) == 2 * Pow(2, 64);
    PowAdd(5, 7, 7);
    PowAdd(5, 14, 14);
  }

  /** The exponent of c, when c is a power of five */
  method PowerOfFive(c: nat) returns (exponent: Option<nat>)
    requires c >= 1 && c % 10 == 5
    ensures exponent.Some? ==> c == Pow(5, exponent.value)
    ensures exponent.None? ==> forall k: nat :: c != Pow(5, k)
  {
    var e: nat := BitLength(c) * 28 / 65;
    PowPositive(5, e);
    var q, r := DivMod(Pow(5, e), c);
    if r != 0 {
      RejectedIsNoPower(c, e, q, r);
      return None;
    }
    while q % 5 == 0
      invariant c * q == Pow(5, e)
      decreases q
    {
      FiveOut(c, q, e);
      q := q / 5;
      e := e - 1;
    }
    CoprimeToFive(q, c, e);
    return Some(e);
  }

  lemma FiveOut(c: nat, q: nat, e: nat)
    requires c * q == Pow(5, e) && q % 5 == 0
    ensures e > 0 && 0 < q / 5 < q && c * (q / 5) == Pow(5, e - 1)
  {
    if e == 0 {
      ProductOne(c, q);
    } else {
      PowPositive(5, e - 1);
      FifthFactor(c, q, q / 5, Pow(5, e - 1));
    }
  }

  lemma FifthFactor(c: nat, q: nat, h: nat, p: nat)
    requires q == 5 * h && c * q == 5 * p && p > 0
    ensures c * h == p && h > 0
  {
    MulPull(c, 5, h);
  }

  lemma RejectedIsNoPower(c: nat, e: nat, q: nat, r: nat)
    requires c >= 5 && e == BitLength(c) * 28 / 65 && Pow(5, e) == c * q + r && 0 < r < c
    ensures forall k: nat :: c != Pow(5, k)
  {
    forall k: nat ensures c != Pow(5, k) {
      if c == Pow(5, k) {
        NotRejected(c, k, e, q, r);
      }
    }
  }

  lemma NotRejected(c: nat, k: nat, e: nat, q: nat, r: nat)
    requires c == Pow(5, k) && c >= 5 && e == BitLength(c) * 28 / 65
    requires Pow(5, e) == c * q + r && r < c
    ensures r == 0
  {
    if k > 0 {
      FiveExponentBound(c, k);
      PowAdd(5, k, e - k);
      SameRemainder(Pow(5, e), c, Pow(5, e - k), q, r);
    }
  }

  lemma SameRemainder(n: nat, c: nat, t: nat, q: nat, r: nat)
    requires n == c * t && n == c * q + r && r < c
    ensures r == 0
  {
    DivModUnique(n, c, t, 0);
    DivModUnique(n, c, q, r);
  }

  // ----- a lower bound for the logarithm

  function Correction(first: nat): nat
    requires 1 <= first <= 9
  {
    match first
    case 1 => 100
    case 2 => 70
    case 3 => 53
    case 4 => 40
    case 5 => 31
    case 6 => 23
    case 7 => 16
    case 8 => 10
    case 9 => 5
  }

  lemma FirstDigit(c: nat)
    requires c >= 1
    ensures |Digits(c)| == NumDigits(c) >= 1 && AllDigits(Digits(c))
    ensures 1 <= DigitValue(Digits(c)[0]) <= 9
  {
    DigitsShape(c);
  }

  function Log10Lb(c: nat): int
    requires c >= 1
  {
    FirstDigit(c);
    100 * |Digits(c)| - Correction(DigitValue(Digits(c)[0]))
  }

  /** The digit string starts with the digit that is left when the others are divided away. */
  lemma {:induction false} LeadingDigit(c: nat)
    requires c >= 1
    ensures AllDigits(Digits(c)) && |Digits(c)| == NumDigits(c) >= 1
    ensures DigitValue(Digits(c)[0]) * Pow(10, NumDigits(c) - 1) <= c
  {
    DigitsShape(c);
    if c >= 10 {
      LeadingDigit(c / 10);
      DigitsShape(c / 10);
      var d, p := DigitValue(Digits(c / 10)[0]), Pow(10, NumDigits(c / 10) - 1);
      assert Pow(10, NumDigits(c) - 1) == 10 * p;
      MulPull(d, 10, p);
    }
  }

  lemma PowersOfTen()
    ensures Pow(10, 14) == 100000000000000 && Pow(10, 16) == 10000000000000000
    ensures Pow(10, 18) == 1000000000000000000 && Pow(10, 20) == 100000000000000000000
    ensures Pow(10, 21) == 1000000000000000000000 && Pow(10, 22) == 10000000000000000000000
  {
    assert Pow(10, 7) == 10000000;
    PowAdd(10, 7, 7);
    PowAdd(10, 14, 2);
    PowAdd(10, 16, 2);
    PowAdd(10, 18, 2);
    PowAdd(10, 20, 1);
    PowAdd(10, 20, 2);
  }

  /** A lower bound for d**100 from d**5 and d**25 */
  lemma FromFifths(d: nat, d5: nat, d25: nat, a: nat, k: nat, j: nat)
    requires Pow(d, 5) == d5 && Pow(d5, 5) == d25 && d25 >= a * Pow(10, k) && Pow(a, 4) >= Pow(10, j)
    ensures Pow(d, 100) >= Pow(10, 4 * k + j)
  {
    PowTimes(d, 5, 5);
    PowTimes(d, 25, 4);
    PowOrder(a * Pow(10, k), d25, 4);
    PowOfProduct(a, Pow(10, k), 4);
    PowTimes(10, k, 4);
    PowAdd(10, k * 4, j);
    MulMonotone(Pow(10, k * 4), Pow(10, j), Pow(a, 4));
  }

  lemma TwoAndThree(h: nat)
    requires h == 100
    ensures Pow(2, h) >= Pow(10, h - 70) && Pow(3, h) >= Pow(10, h - 53)
  {
    PowersOfTen();
    FromFifths(2, 32, 33554432, 33, 6, 6);
    FromFifths(3, 243, 847288609443, 84, 10, 7);
  }

  lemma FourAndFive(h: nat)
    requires h == 100
    ensures Pow(4, h) >= Pow(10, h - 40) && Pow(5, h) >= Pow(10, h - 31)
  {
    PowersOfTen();
    FromFifths(4, 1024, 1125899906842624, 11, 14, 4);
    FromFifths(5, 3125, 298023223876953125, 29, 16, 5);
  }

  lemma SixAndSeven(h: nat)
    requires h == 100
    ensures Pow(6, h) >= Pow(10, h - 23) && Pow(7, h) >= Pow(10, h - 16)
  {
    PowersOfTen();
    FromFifths(6, 7776, 28430288029929701376, 28, 18, 5);
    FromFifths(7, 16807, 1341068619663964900807, 13, 20, 4);
  }

  lemma EightAndNine(h: nat)
    requires h == 100
    ensures Pow(8, h) >= Pow(10, h - 10) && Pow(9, h) >= Pow(10, h - 5)
  {
    PowersOfTen();
    FromFifths(8, 32768, 37778931862957161709568, 37, 21, 6);
    FromFifths(9, 59049, 717897987691852588770249, 71, 22, 7);
  }

  /** The corrections are lower bounds: 10**(100 - correction) <= d**100 for every leading digit d. */
  lemma DigitHundredth(d: nat, h: nat)
    requires 1 <= d <= 9 && h == 100
    ensures Pow(d, h) >= Pow(10, h - Correction(d))
  {
    match d {
      case 1 => PowOne(h);
      case 2 => TwoAndThree(h);
      case 3 => TwoAndThree(h);
      case 4 => FourAndFive(h);
      case 5 => FourAndFive(h);
      case 6 => SixAndSeven(h);
      case 7 => SixAndSeven(h);
      case 8 => EightAndNine(h);
      case 9 => EightAndNine(h);
    }
  }

  lemma ScaledPower(c: nat, d: nat, k: nat, h: nat, t: nat)
    requires d * Pow(10, k) <= c && Pow(d, h) >= Pow(10, t)
    ensures t + k * h >= 0 && Pow(10, t + k * h) <= Pow(c, h)
  {
    var p := Pow(10, k);
    PowOrder(d * p, c, h);
    PowOfProduct(d, p, h);
    PowTimes(10, k, h);
    PowAdd(10, t, k * h);
    MulMonotone(Pow(10, k * h), Pow(10, t), Pow(d, h));
  }

  /** The bound is one: 10**lb <= c**100. */
  lemma Log10LbBelow(c: nat, hundred: nat)
    requires c >= 1 && hundred == 100
    ensures Log10Lb(c) >= 0 && Pow(10, Log10Lb(c)) <= Pow(c, hundred)
  {
    FirstDigit(c);
    LeadingDigit(c);
    var d, k := DigitValue(Digits(c)[0]), NumDigits(c) - 1;
    DigitHundredth(d, hundred);
    ScaledPower(c, d, k, hundred, 100 - Correction(d));
  }

  lemma Log10LbPositive(c: nat)
    requires c > 1
    ensures Log10Lb(c) > 0
  {
    FirstDigit(c);
    LeadingDigit(c);
    if c < 10 {
      assert Digits(c) == [DigitChar(c)];
    }
  }
}
