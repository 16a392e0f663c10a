/** What is printed is read back: scientific form loses nothing, engineering form at most two zeros. */
module DecimalRoundTrip {
  import opened Powers
  import opened DigitStrings
  import opened PythonText
  import opened Decimals
  import opened ExactRounding
  import opened DecimalText

  // ----- the exponent and the infinities

  lemma {:induction false} ReadPlus(n: int)
    ensures ReadInt(PlusText(n)) == Some(n)
  {
    var m: nat := if n < 0 then 0 - n else n;
    DigitsShape(m);
    LeadAll(Digits(m));
    assert PlusText(n)[1..] == Digits(m);
  }

  lemma {:induction false} ReadExpText(e: int, capitals: bool)
    ensures ReadExponent(ExpText(e, capitals)) == Some(e)
    ensures ExpText(e, capitals) == [] || !(IsDigit(ExpText(e, capitals)[0]) || ExpText(e, capitals)[0] == '.')
  {
    if e != 0 {
      ReadPlus(e);
      assert ExpText(e, capitals)[1..] == PlusText(e);
    }
  }

  lemma {:induction false} ReadInf(neg: bool)
    ensures ReadSpecial(neg, "Infinity") == Some(Infinity(neg))
  {
  }

  // ----- stripping leaves printed text alone

  predicate Plain(s: string) {
    forall i :: 0 <= i < |s| ==> s[i] != '_' && !IsSpace(s[i])
  }

  lemma {:induction false} PlainWithout(s: string)
    requires Plain(s)
    ensures Without(s, '_') == s
  {
    if s != [] {
      PlainWithout(s[1..]);
    }
  }

  lemma {:induction false} PlainRead(text: string, neg: bool, s: string)
    requires text == SignText(neg) + s && Plain(s) && s != [] && s[0] != '-' && s[0] != '+'
    ensures Read(text) == ReadUnsigned(neg, s)
  {
    PlainWithout(text);
    assert neg ==> text[1..] == s;
    assert !neg ==> text == s;
  }

  lemma {:induction false} PlainConcat(a: string, b: string)
    requires Plain(a) && Plain(b)
    ensures Plain(a + b)
  {
  }

  lemma {:induction false} DigitsPlain(s: string)
    requires AllDigits(s)
    ensures Plain(s)
  {
  }

  lemma {:induction false} PlusPlain(n: int)
    ensures Plain(PlusText(n))
  {
    var digits := Digits(Abs(n));
    DigitsShape(Abs(n));
    DigitsPlain(digits);
    PlainConcat("-", digits);
    PlainConcat("+", digits);
  }

  lemma {:induction false} ExpTextPlain(e: int, capitals: bool)
    ensures Plain(ExpText(e, capitals))
  {
    PlusPlain(e);
    PlainConcat("E", PlusText(e));
    PlainConcat("e", PlusText(e));
  }

  // ----- the digits on both sides of the point

  lemma {:induction false} ZerosPlusDigits(k: nat, digits: string, f: string)
    requires AllDigits(digits) && f == Zeros(k) + digits
    ensures AllDigits("0" + f) && ToNat("0" + f) == ToNat(digits)
  {
    assert "0" + f == Zeros(k + 1) + digits;
    PaddedNat(k + 1, digits);
  }

  lemma {:induction false} DigitsPlusZeros(digits: string, k: nat)
    requires AllDigits(digits)
    ensures ToNat(digits + Zeros(k)) == Times10(ToNat(digits), k)
  {
    ToNatConcat(digits, Zeros(k));
    ZerosValue(k);
    Times10Product(ToNat(digits), k);
  }

  /** How many zeros printing adds to len digits when dot of them stand left of the point */
  function Padding(dot: int, len: nat): nat {
    if dot > len then dot - len else 0
  }

  // ----- the printed decimal, put together

  /** The printed body holds the digits, padded, with the right number of them after the point. */
  ghost predicate Holds(i: string, f: string, digits: string, dot: int) {
    && AllDigits(digits) && AllDigits(i) && AllDigits(f) && i != []
    && AllDigits(i + f) && ToNat(i + f) == Times10(ToNat(digits), Padding(dot, |digits|))
    && |f| == |digits| + Padding(dot, |digits|) - dot
  }

  lemma {:induction false} BodySmall(digits: string, dot: int, x: string) returns (i: string, f: string)
    requires AllDigits(digits) && dot <= 0
    ensures Pointed(IntText(digits, dot) + FracText(digits, dot) + x, i, f, x) && Holds(i, f, digits, dot)
  {
    i, f := "0", Zeros(0 - dot) + digits;
    ZerosPlusDigits(0 - dot, digits, f);
    assert "." + Zeros(0 - dot) + digits == "." + f;
    assert i + ("." + f) + x == i + ("." + (f + x));
  }

  lemma {:induction false} BodyLarge(digits: string, dot: int, x: string) returns (i: string, f: string)
    requires AllDigits(digits) && digits != [] && dot >= |digits|
    ensures Pointed(IntText(digits, dot) + FracText(digits, dot) + x, i, f, x) && Holds(i, f, digits, dot)
  {
    i, f := digits + Zeros(dot - |digits|), [];
    DigitsPlusZeros(digits, dot - |digits|);
    assert i + f == i;
  }

  lemma {:induction false} BodyMiddle(digits: string, dot: int, x: string) returns (i: string, f: string)
    requires AllDigits(digits) && 0 < dot < |digits|
    ensures Pointed(IntText(digits, dot) + FracText(digits, dot) + x, i, f, x) && Holds(i, f, digits, dot)
  {
    i, f := digits[..dot], digits[dot..];
    assert i + f == digits;
    assert i + ("." + f) + x == i + ("." + (f + x));
  }

  lemma {:induction false} Body(digits: string, dot: int, x: string) returns (i: string, f: string)
    requires AllDigits(digits) && digits != []
    ensures Pointed(IntText(digits, dot) + FracText(digits, dot) + x, i, f, x) && Holds(i, f, digits, dot)
  {
    if dot <= 0 {
      i, f := BodySmall(digits, dot, x);
    } else if dot >= |digits| {
      i, f := BodyLarge(digits, dot, x);
    } else {
      i, f := BodyMiddle(digits, dot, x);
    }
  }

  lemma {:induction false} PointedPlain(body: string, i: string, f: string, x: string)
    requires AllDigits(i) && AllDigits(f) && i != [] && Plain(x) && Pointed(body, i, f, x)
    ensures body != [] && IsDigit(body[0]) && Plain(body)
  {
  }

  lemma {:induction false} NumberFromParts(neg: bool, body: string, i: string, f: string, x: string, e: int, d: Decimal)
    requires body != [] && IsDigit(body[0])
    requires SplitNumber(body) == Parts(i, f, x) && i != [] && ReadExponent(x) == Some(e)
    requires AllDigits(i + f) && d == Finite(neg, ToNat(i + f), e - |f|)
    ensures ReadUnsigned(neg, body) == Some(d)
  {
    SplitReads(neg, body, i, f, i + f, x, Some(e));
  }

  lemma {:induction false} ReadBody(neg: bool, body: string, digits: string, dot: int, x: string, e: int, d: Decimal)
    requires AllDigits(digits) && digits != []
    requires Plain(x) && (x == [] || !(IsDigit(x[0]) || x[0] == '.')) && ReadExponent(x) == Some(e)
    requires body == IntText(digits, dot) + FracText(digits, dot) + x
    requires var k := Padding(dot, |digits|);
      d == Finite(neg, Times10(ToNat(digits), k), e - (|digits| + k - dot))
    ensures ReadUnsigned(neg, body) == Some(d)
    ensures body != [] && IsDigit(body[0]) && Plain(body)
  {
    var i, f := Body(digits, dot, x);
    SplitPrinted(body, i, f, x);
    PointedPlain(body, i, f, x);
    NumberFromParts(neg, body, i, f, x, e, d);
  }

  /** The exponent and the padding of the printed form of d */
  function PrintedPadding(d: Decimal, eng: bool): nat
    requires d.Finite?
  {
    Padding(DotPlace(d.exp, NumDigits(d.coef), d.coef == 0, eng), NumDigits(d.coef))
  }

  lemma {:induction false} ReadFinite(d: Decimal, eng: bool, capitals: bool, text: string, r: Decimal)
    requires d.Finite? && text == Str(d, eng, capitals)
    requires r == Finite(d.neg, Times10(d.coef, PrintedPadding(d, eng)), d.exp - PrintedPadding(d, eng))
    ensures Read(text) == Some(r)
  {
    var body := PrintedBody(d, eng, capitals, text, r);
    PlainRead(text, d.neg, body);
  }

  lemma {:induction false} PrintedBody(d: Decimal, eng: bool, capitals: bool, text: string, r: Decimal)
    returns (body: string)
    requires d.Finite? && text == Str(d, eng, capitals)
    requires r == Finite(d.neg, Times10(d.coef, PrintedPadding(d, eng)), d.exp - PrintedPadding(d, eng))
    ensures text == SignText(d.neg) + body && ReadUnsigned(d.neg, body) == Some(r)
    ensures body != [] && IsDigit(body[0]) && Plain(body)
  {
    var digits := Digits(d.coef);
    DigitsShape(d.coef);
    var dot := DotPlace(d.exp, |digits|, d.coef == 0, eng);
    var e := d.exp + |digits| - dot;
    var x := ExpText(e, capitals);
    StrFinite(d, eng, capitals, digits, dot, x);
    assert PrintedPadding(d, eng) == Padding(dot, |digits|);
    body := ReadLaidOut(d.neg, text, digits, dot, e, capitals, x, r);
  }

  lemma {:induction false} ReadLaidOut(neg: bool, text: string, digits: string, dot: int, e: int, capitals: bool,
                                       x: string, r: Decimal)
    returns (body: string)
    requires AllDigits(digits) && digits != [] && x == ExpText(e, capitals)
    requires text == SignText(neg) + (IntText(digits, dot) + FracText(digits, dot) + x)
    requires var k := Padding(dot, |digits|);
      r == Finite(neg, Times10(ToNat(digits), k), e - (|digits| + k - dot))
    ensures text == SignText(neg) + body && ReadUnsigned(neg, body) == Some(r)
    ensures body != [] && IsDigit(body[0]) && Plain(body)
  {
    ReadExpText(e, capitals);
    ExpTextPlain(e, capitals);
    body := IntText(digits, dot) + FracText(digits, dot) + x;
    ReadBody(neg, body, digits, dot, x, e, r);
  }

  lemma {:induction false} ZeroText(n: nat)
    ensures Digits(n) == "0" <==> n == 0
  {
    DigitsShape(n);
  }

  lemma {:induction false} JoinedLeft(a: string, b: string, c: string, x: string)
    ensures a + b + c + x == a + (b + c + x)
  {
  }

  lemma {:induction false} StrFinite(d: Decimal, eng: bool, capitals: bool, digits: string, dot: int, x: string)
    requires d.Finite? && digits == Digits(d.coef) && dot == DotPlace(d.exp, |digits|, d.coef == 0, eng)
    requires x == ExpText(d.exp + |digits| - dot, capitals)
    ensures Str(d, eng, capitals) == SignText(d.neg) + (IntText(digits, dot) + FracText(digits, dot) + x)
  {
    ZeroText(d.coef);
    JoinedLeft(SignText(d.neg), IntText(digits, dot), FracText(digits, dot), x);
  }

  lemma {:induction false} ReadInfinity(neg: bool, text: string)
    requires text == Str(Infinity(neg), false, true)
    ensures Read(text) == Some(Infinity(neg))
  {
    ReadInf(neg);
    PlainRead(text, neg, "Infinity");
  }

  lemma {:induction false} ReadName(s: string, neg: bool, signaling: bool, p: string)
    requires AllDigits(p) && s == (if signaling then "sNaN" else "NaN") + p
    ensures ReadSpecial(neg, s) == Some(NaN(neg, signaling, ToNat(p)))
  {
    var u := NotANumber(if signaling then "s" else "", "NaN", p);
    assert s == u.signal + (u.word + p);
    NaNReads(u, neg, s);
  }

  lemma {:induction false} NaNName(signaling: bool, s: string, p: string)
    requires AllDigits(p) && s == (if signaling then "sNaN" else "NaN") + p
    ensures s != [] && !IsDigit(s[0]) && s[0] != '.' && s[0] != '-' && s[0] != '+' && Plain(s)
  {
  }

  lemma {:induction false} PayloadDigits(payload: nat, p: string)
    requires p == PayloadText(payload)
    ensures AllDigits(p) && ToNat(p) == payload
  {
    DigitsShape(payload);
  }

  lemma {:induction false} NaNText(neg: bool, signaling: bool, payload: nat, text: string)
    returns (s: string, p: string)
    requires text == Str(NaN(neg, signaling, payload), false, true)
    ensures p == PayloadText(payload) && s == (if signaling then "sNaN" else "NaN") + p
    ensures text == SignText(neg) + s
  {
    p := PayloadText(payload);
    s := (if signaling then "sNaN" else "NaN") + p;
  }

  lemma {:induction false} ReadNaN(neg: bool, signaling: bool, payload: nat, text: string)
    requires text == Str(NaN(neg, signaling, payload), false, true)
    ensures Read(text) == Some(NaN(neg, signaling, payload))
  {
    var s, p := NaNText(neg, signaling, payload, text);
    PayloadDigits(payload, p);
    ReadNamed(text, neg, s, signaling, p);
  }

  lemma {:induction false} ReadNamed(text: string, neg: bool, s: string, signaling: bool, p: string)
    requires AllDigits(p) && s == (if signaling then "sNaN" else "NaN") + p && text == SignText(neg) + s
    ensures Read(text) == Some(NaN(neg, signaling, ToNat(p)))
  {
    ReadName(s, neg, signaling, p);
    NaNName(signaling, s, p);
    PlainRead(text, neg, s);
  }

  lemma {:induction false} NoPadding(d: Decimal)
    requires d.Finite?
    ensures d == Finite(d.neg, Times10(d.coef, PrintedPadding(d, false)), d.exp - PrintedPadding(d, false))
  {
    NumDigitsBounds(d.coef);
  }

  /** Scientific form keeps everything: reading it gives back the very same decimal. */
  lemma {:induction false} RoundTrip(d: Decimal, capitals: bool)
    ensures Read(Str(d, false, capitals)) == Some(d)
  {
    if d.Infinity? {
      ReadInfinity(d.neg, Str(d, false, capitals));
    } else if d.NaN? {
      ReadNaN(d.neg, d.signaling, d.payload, Str(d, false, capitals));
    } else {
      NoPadding(d);
      ReadFinite(d, false, capitals, Str(d, false, capitals), d);
    }
  }

  /** The same value with k more zeros in the coefficient */
  function Padded(d: Decimal, k: nat): Decimal
    requires d.Finite?
  {
    Finite(d.neg, Times10(d.coef, k), d.exp - k)
  }

  lemma {:induction false} SmallPadding(d: Decimal)
    requires d.Finite?
    ensures PrintedPadding(d, true) <= 2
    ensures Magnitude(Padded(d, PrintedPadding(d, true))) == Magnitude(d)
  {
    NumDigitsBounds(d.coef);
    MagnitudeShift(d.neg, d.coef, d.exp, PrintedPadding(d, true));
  }

  /** Engineering form keeps sign and value, with an exponent at most two lower, ... */
  lemma {:induction false} EngineeringKeepsValue(d: Decimal, capitals: bool) returns (r: Decimal)
    requires d.Finite?
    ensures Read(Str(d, true, capitals)) == Some(r)
    ensures r.Finite? && r.neg == d.neg && Magnitude(r) == Magnitude(d) && d.exp - 2 <= r.exp <= d.exp
  {
    r := Padded(d, PrintedPadding(d, true));
    SmallPadding(d);
    ReadFinite(d, true, capitals, Str(d, true, capitals), r);
  }

  /** ... and the exponent it prints is a multiple of three, with one to three digits before the point. */
  lemma {:induction false} EngineeringExponent(exp: int, len: nat, zero: bool)
    requires len >= 1 && (exp > 0 || exp + len <= -6)
    ensures var dot := DotPlace(exp, len, zero, true);
            (exp + len - dot) % 3 == 0 && if zero then len == 1 ==> -1 <= dot <= 1 else 1 <= dot <= 3
  {
  }
}
