/** How a decimal is laid out: where the point stands, and when and which exponent is printed. */
module DecimalPrinted {
  import opened Powers
  import opened DigitStrings
  import opened Decimals
  import opened DecimalText
  import opened DecimalRoundTrip

  /**
   The exponent to print.  There is none when the last digit is not left of the point and the first
   stands at most six places right of it; otherwise it is that of the leading digit or, in engineering
   form, the multiple of three that leaves one to three digits before the point, and for a zero the
   least one not below its exponent.
   */
  predicate ExponentFor(d: Decimal, eng: bool, e: int)
    requires d.Finite?
  {
    if d.exp <= 0 && d.Adjusted() >= -6 then e == 0
    else if !eng then e == d.Adjusted()
    else e % 3 == 0 && if d.coef == 0 then d.exp <= e <= d.exp + 2 else e <= d.Adjusted() <= e + 2
  }

  /** Digits without a superfluous zero at the front */
  predicate Canonical(i: string) {
    AllDigits(i) && i != "" && (i == "0" || i[0] != '0')
  }

  /** The exponent e, with its sign, unless it is zero */
  function ShownExponent(e: int, capitals: bool): string {
    if e == 0 then "" else [if capitals then 'E' else 'e', if e < 0 then '-' else '+'] + Digits(Abs(e))
  }

  /** The digits i before the point and f behind it, and the exponent e: together the value of d */
  predicate Divides(d: Decimal, eng: bool, i: string, f: string, e: int)
    requires d.Finite?
  {
    && ExponentFor(d, eng, e) && Canonical(i) && AllDigits(f) && AllDigits(i + f)
    && |f| == Max(0, e - d.exp) && ToNat(i + f) == Times10(d.coef, Max(0, d.exp - e))
  }

  /** A sign, the digits i, a point and the digits f if there are any, and the exponent */
  function LaidOut(neg: bool, i: string, f: string, e: int, capitals: bool): string {
    (if neg then "-" else "") + (i + (if f == "" then "" else "." + f) + ShownExponent(e, capitals))
  }

  // ----- what is printed is laid out so

  lemma {:induction false} PrintedPieces(digits: string, dot: int) returns (i: string, f: string)
    requires Canonical(digits) && (digits == "0" ==> dot <= 1)
    ensures i == IntText(digits, dot) && FracText(digits, dot) == if f == "" then "" else "." + f
    ensures Canonical(i) && Holds(i, f, digits, dot)
  {
    if dot <= 0 {
      i, f := "0", Zeros(0 - dot) + digits;
      ZerosPlusDigits(0 - dot, digits, f);
      assert "." + Zeros(0 - dot) + digits == "." + f;
    } else if dot >= |digits| {
      i, f := digits + Zeros(dot - |digits|), "";
      DigitsPlusZeros(digits, dot - |digits|);
      assert i + f == i && i[0] == digits[0];
    } else {
      i, f := digits[..dot], digits[dot..];
      assert i + f == digits && i[0] == digits[0];
    }
  }

  lemma ExponentChosen(d: Decimal, eng: bool, dot: int)
    requires d.Finite? && dot == DotPlace(d.exp, NumDigits(d.coef), d.coef == 0, eng)
    ensures ExponentFor(d, eng, d.exp + NumDigits(d.coef) - dot)
    ensures d.coef == 0 ==> dot <= 1
  {
    var len := NumDigits(d.coef);
    NumDigitsBounds(d.coef);
    if d.exp > 0 || d.exp + len <= -6 {
      EngineeringExponent(d.exp, len, d.coef == 0);
    }
  }

  lemma {:induction false} ExpTextShown(e: int, capitals: bool)
    ensures ExpText(e, capitals) == ShownExponent(e, capitals)
  {
    if e != 0 {
      var letter := if capitals then 'E' else 'e';
      var sign := if e < 0 then '-' else '+';
      JoinedMarks(letter, sign, Digits(Abs(e)));
    }
  }

  lemma JoinedMarks(letter: char, sign: char, digits: string)
    ensures [letter] + ([sign] + digits) == [letter, sign] + digits
  {
  }

  lemma HeldDivides(d: Decimal, eng: bool, digits: string, dot: int, i: string, f: string)
    requires d.Finite? && AllDigits(digits) && |digits| == NumDigits(d.coef) && ToNat(digits) == d.coef
    requires dot == DotPlace(d.exp, |digits|, d.coef == 0, eng)
    requires Canonical(i) && Holds(i, f, digits, dot)
    ensures Divides(d, eng, i, f, d.exp + |digits| - dot)
  {
    ExponentChosen(d, eng, dot);
  }

  lemma {:induction false} PiecesLaidOut(neg: bool, digits: string, dot: int, i: string, f: string, e: int,
                                         capitals: bool)
    requires i == IntText(digits, dot) && FracText(digits, dot) == if f == "" then "" else "." + f
    ensures SignText(neg) + (IntText(digits, dot) + FracText(digits, dot) + ExpText(e, capitals))
         == LaidOut(neg, i, f, e, capitals)
  {
    ExpTextShown(e, capitals);
  }

  lemma {:induction false} CoefCanonical(n: nat)
    ensures Canonical(Digits(n)) && |Digits(n)| == NumDigits(n) && ToNat(Digits(n)) == n
    ensures Digits(n) == "0" <==> n == 0
  {
    DigitsShape(n);
    ZeroText(n);
  }

  lemma {:induction false} DigitsLaidOut(d: Decimal, eng: bool, capitals: bool, digits: string, dot: int, e: int)
    returns (i: string, f: string)
    requires d.Finite? && digits == Digits(d.coef) && dot == DotPlace(d.exp, |digits|, d.coef == 0, eng)
    requires e == d.exp + |digits| - dot
    ensures Divides(d, eng, i, f, e)
    ensures SignText(d.neg) + (IntText(digits, dot) + FracText(digits, dot) + ExpText(e, capitals))
         == LaidOut(d.neg, i, f, e, capitals)
  {
    CoefCanonical(d.coef);
    ExponentChosen(d, eng, dot);
    i, f := PrintedPieces(digits, dot);
    HeldDivides(d, eng, digits, dot, i, f);
    PiecesLaidOut(d.neg, digits, dot, i, f, e, capitals);
  }

  lemma {:induction false} StrLaidOut(d: Decimal, eng: bool, capitals: bool) returns (i: string, f: string, e: int)
    requires d.Finite?
    ensures Divides(d, eng, i, f, e) && Str(d, eng, capitals) == LaidOut(d.neg, i, f, e, capitals)
  {
    var digits := Digits(d.coef);
    var dot := DotPlace(d.exp, |digits|, d.coef == 0, eng);
    e := d.exp + |digits| - dot;
    i, f := DigitsLaidOut(d, eng, capitals, digits, dot, e);
    StrFinite(d, eng, capitals, digits, dot, ExpText(e, capitals));
  }

  // ----- and nothing else is

  lemma {:induction false} FirstDigitCounts(i: string)
    requires AllDigits(i) && i != "" && i[0] != '0'
    ensures ToNat(i) > 0 && NumDigits(ToNat(i)) == |i|
  {
    var first, rest := i[..1], i[1..];
    assert i == first + rest;
    assert first[..0] == "";
    ToNatConcat(first, rest);
    ToNatBound(i);
    PowPositive(10, |rest|);
    AtLeastPower(ToNat(i), ToNat(first), Pow(10, |rest|), ToNat(rest));
    NumDigitsUnique(ToNat(i), |rest|);
  }

  lemma AtLeastPower(n: nat, d: nat, p: nat, r: nat)
    requires n == d * p + r && d >= 1
    ensures n >= p
  {
    MulMonotone(p, 1, d);
  }

  lemma {:induction false} CanonicalUnique(i: string, i': string)
    requires Canonical(i) && Canonical(i') && ToNat(i) == ToNat(i')
    ensures i == i'
  {
    ZerosValue(1);
    assert Zeros(1) == "0";
    if i != "0" {
      FirstDigitCounts(i);
    }
    if i' != "0" {
      FirstDigitCounts(i');
    }
    ToNatInjective(i, i');
  }

  lemma {:induction false} PartsUnique(i: string, f: string, i': string, f': string)
    requires Canonical(i) && Canonical(i') && AllDigits(f) && AllDigits(f') && |f| == |f'|
    requires AllDigits(i + f) && AllDigits(i' + f') && ToNat(i + f) == ToNat(i' + f')
    ensures i == i' && f == f'
  {
    ToNatSplit(i + f, |i|);
    ToNatSplit(i' + f', |i'|);
    assert (i + f)[..|i|] == i && (i + f)[|i|..] == f;
    assert (i' + f')[..|i'|] == i' && (i' + f')[|i'|..] == f';
    CanonicalUnique(i, i');
    ToNatInjective(f, f');
  }

  lemma ExponentUnique(d: Decimal, eng: bool, e: int, e': int)
    requires d.Finite? && ExponentFor(d, eng, e) && ExponentFor(d, eng, e')
    ensures e == e'
  {
  }

  lemma DividesUnique(d: Decimal, eng: bool, i: string, f: string, e: int, i': string, f': string, e': int)
    requires d.Finite? && Divides(d, eng, i, f, e) && Divides(d, eng, i', f', e')
    ensures i == i' && f == f' && e == e'
  {
    ExponentUnique(d, eng, e, e');
    PartsUnique(i, f, i', f');
  }

  /** The printed text of a finite decimal is the one text with that layout. */
  lemma {:induction false} StrMeans(d: Decimal, eng: bool, capitals: bool, t: string)
    requires d.Finite?
    ensures t == Str(d, eng, capitals) <==>
            exists i, f, e :: Divides(d, eng, i, f, e) && t == LaidOut(d.neg, i, f, e, capitals)
  {
    var i, f, e := StrLaidOut(d, eng, capitals);
    forall i', f', e' | Divides(d, eng, i', f', e') && t == LaidOut(d.neg, i', f', e', capitals)
      ensures t == Str(d, eng, capitals)
    {
      DividesUnique(d, eng, i, f, e, i', f', e');
    }
  }

  /** Infinities and NaNs are printed by name, a NaN with the digits of its payload unless that is zero. */
  lemma {:induction false} StrSpecial(neg: bool, signaling: bool, payload: nat, eng: bool, capitals: bool)
    ensures Str(Infinity(neg), eng, capitals) == if neg then "-Infinity" else "Infinity"
    ensures var name := if neg then if signaling then "-sNaN" else "-NaN" else if signaling then "sNaN" else "NaN";
            Str(NaN(neg, signaling, payload), eng, capitals) == if payload == 0 then name else name + Digits(payload)
  {
    assert "-" + "Infinity" == "-Infinity" && "" + "Infinity" == "Infinity";
    assert "-" + "NaN" == "-NaN" && "-" + "sNaN" == "-sNaN" && "" + "NaN" == "NaN" && "" + "sNaN" == "sNaN";
    var digits := PayloadText(payload);
    assert Str(NaN(neg, signaling, payload), eng, capitals)
        == SignText(neg) + (if signaling then "sNaN" else "NaN") + digits;
    if payload == 0 {
      assert digits == "";
    }
  }
}
