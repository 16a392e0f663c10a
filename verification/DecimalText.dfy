/**
 Printing a decimal and reading one from text.

 The reader takes ASCII text.  What the program matches with one regular expression is here read from
 left to right: at every point the next character leaves at most one way to go on.
 */
module DecimalText {
  import opened DigitStrings
  import opened PythonText
  import opened Decimals

  // ----- printing

  function SignText(neg: bool): string {
    if neg then "-" else ""
  }

  /** The digits of a NaN's payload; none for the payload zero */
  function PayloadText(payload: nat): string {
    if payload == 0 then "" else Digits(payload)
  }

  /** '%+d' % n */
  function PlusText(n: int): string {
    if n < 0 then "-" + Digits(0 - n) else "+" + Digits(n)
  }

  /** How many of len digits stand left of the point, for the exponent exp of the last digit */
  function DotPlace(exp: int, len: nat, zero: bool, eng: bool): int {
    var leftdigits := exp + len;
    if exp <= 0 && leftdigits > -6 then leftdigits
    else if !eng then 1
    else if zero then (leftdigits + 1) % 3 - 1
    else (leftdigits - 1) % 3 + 1
  }

  function IntText(digits: string, dot: int): string {
    if dot <= 0 then "0"
    else if dot >= |digits| then digits + Zeros(dot - |digits|)
    else digits[..dot]
  }

  function FracText(digits: string, dot: int): string {
    if dot <= 0 then "." + Zeros(0 - dot) + digits
    else if dot >= |digits| then ""
    else "." + digits[dot..]
  }

  function ExpText(e: int, capitals: bool): string {
    if e == 0 then "" else (if capitals then "E" else "e") + PlusText(e)
  }

  function Str(d: Decimal, eng: bool, capitals: bool): string {
    match d
    case Infinity(neg) => SignText(neg) + "Infinity"
    case NaN(neg, signaling, payload) => SignText(neg) + (if signaling then "sNaN" else "NaN") + PayloadText(payload)
    case Finite(neg, coef, exp) =>
      var digits := Digits(coef);
      var dot := DotPlace(exp, |digits|, digits == "0", eng);
      SignText(neg) + IntText(digits, dot) + FracText(digits, dot) + ExpText(exp + |digits| - dot, capitals)
  }

  // ----- reading

  /** The length of the longest run of digits at the start */
  function LeadDigits(s: string): (k: nat)
    ensures k <= |s|
  {
    if s == [] || !IsDigit(s[0]) then 0 else LeadDigits(s[1..]) + 1
  }

  lemma {:induction false} LeadAreDigits(s: string)
    ensures AllDigits(s[..LeadDigits(s)])
  {
    if s != [] && IsDigit(s[0]) {
      LeadAreDigits(s[1..]);
      assert s[..LeadDigits(s)] == [s[0]] + s[1..][..LeadDigits(s[1..])];
    }
  }

  function LowerChar(c: char): char {
    if 'A' <= c <= 'Z' then c - 'A' + 'a' else c
  }

  /** s is the word, whatever its case */
  predicate Spells(s: string, word: string) {
    |s| == |word| && forall i :: 0 <= i < |s| ==> LowerChar(s[i]) == word[i]
  }

  /** An optional sign and at least one digit, to the end */
  function ReadInt(s: string): Option<int> {
    var digits := if s != [] && (s[0] == '-' || s[0] == '+') then s[1..] else s;
    if digits == [] || LeadDigits(digits) < |digits| then None
    else
      LeadAreDigits(digits);
      assert digits[..|digits|] == digits;
      Some(if s[0] == '-' then 0 - ToNat(digits) else ToNat(digits))
  }

  /** Nothing, or E and an exponent, to the end */
  function ReadExponent(s: string): Option<int> {
    if s == [] then Some(0) else if s[0] == 'e' || s[0] == 'E' then ReadInt(s[1..]) else None
  }

  datatype Parts = Parts(whole: string, frac: string, rest: string)

  /** The digits before a point, those after it, and what follows */
  function SplitNumber(s: string): (p: Parts)
    ensures AllDigits(p.whole) && AllDigits(p.frac)
  {
    LeadAreDigits(s);
    var i := LeadDigits(s);
    if i < |s| && s[i] == '.' then
      var t := s[i + 1..];
      LeadAreDigits(t);
      Parts(s[..i], t[..LeadDigits(t)], t[LeadDigits(t)..])
    else Parts(s[..i], [], s[i..])
  }

  /** A number of these digits, so many of them after the point, if there is a digit and the exponent is one */
  function Assembled(neg: bool, digits: string, places: nat, exp: Option<int>): Option<Decimal>
    requires AllDigits(digits)
  {
    if digits == [] || exp.None? then None else Some(Finite(neg, ToNat(digits), exp.value - places))
  }

  function ReadNumber(neg: bool, s: string): Option<Decimal> {
    var p := SplitNumber(s);
    assert AllDigits(p.whole + p.frac);
    Assembled(neg, p.whole + p.frac, |p.frac|, ReadExponent(p.rest))
  }

  function ReadSpecial(neg: bool, s: string): Option<Decimal> {
    if Spells(s, "inf") || Spells(s, "infinity") then Some(Infinity(neg))
    else
      var signaling := s != [] && LowerChar(s[0]) == 's';
      var name := if signaling then s[1..] else s;
      if |name| >= 3 && Spells(name[..3], "nan") && LeadDigits(name[3..]) == |name| - 3 then
        LeadAreDigits(name[3..]);
        assert name[3..][..|name| - 3] == name[3..];
        Some(NaN(neg, signaling, ToNat(name[3..])))
      else None
  }

  function ReadUnsigned(neg: bool, s: string): Option<Decimal> {
    if s != [] && (IsDigit(s[0]) || s[0] == '.') then ReadNumber(neg, s) else ReadSpecial(neg, s)
  }

  function ReadSigned(s: string): Option<Decimal> {
    var signed := s != [] && (s[0] == '-' || s[0] == '+');
    ReadUnsigned(signed && s[0] == '-', if signed then s[1..] else s)
  }

  function Read(text: string): Option<Decimal> {
    ReadSigned(Without(Strip(text), '_'))
  }

  // ----- numeric strings

  lemma {:induction false} LeadOf(a: string, t: string)
    requires AllDigits(a) && (t == [] || !IsDigit(t[0]))
    ensures LeadDigits(a + t) == |a|
  {
    if a == [] {
      assert a + t == t;
    } else {
      assert (a + t)[1..] == a[1..] + t;
      LeadOf(a[1..], t);
    }
  }

  lemma {:induction false} LeadAll(a: string)
    requires AllDigits(a)
    ensures LeadDigits(a) == |a|
  {
    LeadOf(a, []);
    assert a + [] == a;
  }

  lemma {:induction false} SplitPointed(s: string, i: string, f: string, x: string)
    requires AllDigits(i) && AllDigits(f) && (x == [] || !IsDigit(x[0])) && s == i + ("." + (f + x))
    ensures SplitNumber(s) == Parts(i, f, x)
  {
    LeadOf(i, "." + (f + x));
    LeadOf(f, x);
    assert s[..|i|] == i && s[|i| + 1..] == f + x;
    assert (f + x)[..|f|] == f && (f + x)[|f|..] == x;
  }

  lemma {:induction false} SplitWhole(s: string, i: string, x: string)
    requires AllDigits(i) && (x == [] || !(IsDigit(x[0]) || x[0] == '.')) && s == i + x
    ensures SplitNumber(s) == Parts(i, [], x)
  {
    LeadOf(i, x);
    assert s[..|i|] == i && s[|i|..] == x;
  }

  /** Digits i, a point and digits f, or only i; then x */
  predicate Pointed(body: string, i: string, f: string, x: string) {
    body == i + ("." + (f + x)) || (f == [] && body == i + x)
  }

  lemma {:induction false} SplitPrinted(body: string, i: string, f: string, x: string)
    requires AllDigits(i) && AllDigits(f) && (x == [] || !(IsDigit(x[0]) || x[0] == '.')) && Pointed(body, i, f, x)
    ensures SplitNumber(body) == Parts(i, f, x)
  {
    if body == i + ("." + (f + x)) {
      SplitPointed(body, i, f, x);
    } else {
      SplitWhole(body, i, x);
    }
  }

  /** A numeric string: digits, perhaps a point and digits, at least one digit in all, and an exponent */
  predicate NumericString(s: string, i: string, f: string, x: string) {
    AllDigits(i) && AllDigits(f) && AllDigits(i + f) && i + f != [] && Pointed(s, i, f, x) && ReadExponent(x).Some?
  }

  lemma {:induction false} SplitReads(neg: bool, s: string, i: string, f: string, w: string, x: string, e: Option<int>)
    requires SplitNumber(s) == Parts(i, f, x) && w == i + f && AllDigits(w) && e == ReadExponent(x)
    ensures ReadNumber(neg, s) == Assembled(neg, w, |f|, e)
  {
  }

  lemma {:induction false} ExponentStart(x: string)
    requires ReadExponent(x).Some?
    ensures x == [] || !(IsDigit(x[0]) || x[0] == '.')
  {
  }

  lemma {:induction false} NumericReads(neg: bool, s: string, i: string, f: string, x: string)
    requires NumericString(s, i, f, x)
    ensures ReadNumber(neg, s) == Some(Finite(neg, ToNat(i + f), ReadExponent(x).value - |f|))
  {
    var w, e := i + f, ReadExponent(x);
    ExponentStart(x);
    SplitPrinted(s, i, f, x);
    SplitReads(neg, s, i, f, w, x, e);
  }

  lemma {:induction false} CutTwice(s: string, i: nat, j: nat, t: string)
    requires i < |s| && s[i] == '.' && t == s[i + 1..] && j <= |t|
    ensures s == s[..i] + ("." + (t[..j] + t[j..]))
  {
    assert t == t[..j] + t[j..];
    assert s[i..] == "." + t;
  }

  lemma {:induction false} SplitIsPointed(s: string, p: Parts)
    requires p == SplitNumber(s)
    ensures Pointed(s, p.whole, p.frac, p.rest)
  {
    var i := LeadDigits(s);
    if i < |s| && s[i] == '.' {
      CutTwice(s, i, LeadDigits(s[i + 1..]), s[i + 1..]);
    } else {
      assert s == s[..i] + s[i..];
    }
  }

  /** Reading from left to right accepts exactly the numeric strings, each with the value of its parts. */
  lemma {:induction false} NumberGrammar(neg: bool, s: string)
    ensures ReadNumber(neg, s).Some? <==> exists i, f, x :: NumericString(s, i, f, x)
    ensures forall i, f, x :: NumericString(s, i, f, x) ==>
              ReadNumber(neg, s) == Some(Finite(neg, ToNat(i + f), ReadExponent(x).value - |f|))
  {
    forall i, f, x | NumericString(s, i, f, x)
      ensures ReadNumber(neg, s) == Some(Finite(neg, ToNat(i + f), ReadExponent(x).value - |f|))
    {
      NumericReads(neg, s, i, f, x);
    }
    if ReadNumber(neg, s).Some? {
      var p := SplitNumber(s);
      SplitIsPointed(s, p);
      assert NumericString(s, p.whole, p.frac, p.rest);
    }
  }

  // ----- the grammar of all that is read

  /** Nothing, or the letter E, an optional sign and digits */
  datatype Exponent = NoExponent | Exponent(letter: char, mark: string, digits: string) {
    predicate Valid() {
      Exponent? ==> (letter == 'e' || letter == 'E') && SignMark(mark) && AllDigits(digits) && digits != ""
    }

    function Text(): string {
      if NoExponent? then "" else [letter] + (mark + digits)
    }

    function Means(): int
      requires Valid()
    {
      if NoExponent? then 0 else if mark == "-" then 0 - ToNat(digits) else ToNat(digits)
    }
  }

  lemma {:induction false} IntReads(s: string, mark: string, digits: string)
    requires s == mark + digits && SignMark(mark) && AllDigits(digits) && digits != ""
    ensures ReadInt(s) == Some(if mark == "-" then 0 - ToNat(digits) else ToNat(digits))
  {
    LeadAll(digits);
    if mark == "" {
      assert s == digits;
    } else {
      assert s[1..] == digits;
    }
  }

  lemma {:induction false} ExponentReads(x: Exponent, t: string)
    requires x.Valid() && t == x.Text()
    ensures ReadExponent(t) == Some(x.Means())
  {
    if x.Exponent? {
      assert t[1..] == x.mark + x.digits;
      IntReads(t[1..], x.mark, x.digits);
    }
  }

  lemma {:induction false} ExponentOf(t: string) returns (x: Exponent)
    requires ReadExponent(t).Some?
    ensures x.Valid() && t == x.Text()
  {
    if t == [] {
      return NoExponent;
    }
    var s := t[1..];
    var mark := if s[0] == '-' || s[0] == '+' then s[..1] else "";
    var digits := s[|mark|..];
    LeadAreDigits(digits);
    assert digits[..|digits|] == digits;
    x := Exponent(t[0], mark, digits);
    assert s == mark + digits;
  }

  /** A number with a digit before or after the point, an infinity, or a NaN; in any case of letters */
  datatype Unsigned =
    | Number(whole: string, point: bool, frac: string, exponent: Exponent)
    | Infinite(word: string)
    | NotANumber(signal: string, word: string, payload: string)
  {
    predicate Valid() {
      match this
      case Number(whole, point, frac, exponent) =>
        AllDigits(whole) && AllDigits(frac) && whole + frac != "" && (frac != "" ==> point) && exponent.Valid()
      case Infinite(word) => Spells(word, "inf") || Spells(word, "infinity")
      case NotANumber(signal, word, payload) =>
        (signal == "" || Spells(signal, "s")) && Spells(word, "nan") && AllDigits(payload)
    }

    function Text(): string {
      match this
      case Number(whole, point, frac, exponent) =>
        whole + if point then "." + (frac + exponent.Text()) else exponent.Text()
      case Infinite(word) => word
      case NotANumber(signal, word, payload) => signal + (word + payload)
    }

    function Means(neg: bool): Decimal
      requires Valid()
    {
      match this
      case Number(whole, _, frac, exponent) =>
        assert AllDigits(whole + frac);
        Finite(neg, ToNat(whole + frac), exponent.Means() - |frac|)
      case Infinite(_) => Infinity(neg)
      case NotANumber(signal, _, payload) => NaN(neg, signal != "", ToNat(payload))
    }
  }

  lemma {:induction false} NumberReads(u: Unsigned, neg: bool, s: string, x: string)
    requires u.Number? && u.Valid() && s == u.Text() && x == u.exponent.Text()
    ensures s != "" && (IsDigit(s[0]) || s[0] == '.') && ReadNumber(neg, s) == Some(u.Means(neg))
  {
    ExponentReads(u.exponent, x);
    NumberNumeric(s, u.whole, u.point, u.frac, x);
    NumericReads(neg, s, u.whole, u.frac, x);
  }

  lemma {:induction false} NumberNumeric(s: string, i: string, point: bool, f: string, x: string)
    requires AllDigits(i) && AllDigits(f) && i + f != "" && (f != "" ==> point) && ReadExponent(x).Some?
    requires s == i + if point then "." + (f + x) else x
    ensures NumericString(s, i, f, x) && s != "" && (IsDigit(s[0]) || s[0] == '.')
  {
    if i == "" {
      assert s == "." + (f + x);
    } else {
      assert s[0] == i[0];
    }
  }

  lemma {:induction false} NaNReads(u: Unsigned, neg: bool, s: string)
    requires u.NotANumber? && u.Valid() && s == u.Text()
    ensures s != "" && !(IsDigit(s[0]) || s[0] == '.') && ReadSpecial(neg, s) == Some(u.Means(neg))
  {
    var name := u.word + u.payload;
    assert name[..3] == u.word && name[3..] == u.payload;
    assert u.signal != "" ==> s[1..] == name;
    assert u.signal == "" ==> s == name;
    LeadAll(u.payload);
  }

  lemma {:induction false} UnsignedReads(u: Unsigned, neg: bool, s: string)
    requires u.Valid() && s == u.Text()
    ensures s != "" && s[0] != '-' && s[0] != '+' && ReadUnsigned(neg, s) == Some(u.Means(neg))
  {
    match u
    case Number(_, _, _, exponent) => NumberReads(u, neg, s, exponent.Text());
    case Infinite(_) =>
    case NotANumber(_, _, _) => NaNReads(u, neg, s);
  }

  lemma {:induction false} UnsignedOf(neg: bool, s: string) returns (u: Unsigned)
    requires ReadUnsigned(neg, s).Some?
    ensures u.Valid() && s == u.Text()
  {
    if s != [] && (IsDigit(s[0]) || s[0] == '.') {
      u := NumberOf(neg, s);
    } else if Spells(s, "inf") || Spells(s, "infinity") {
      u := Infinite(s);
    } else {
      u := NaNOf(neg, s);
    }
  }

  lemma {:induction false} NumberOf(neg: bool, s: string) returns (u: Unsigned)
    requires ReadNumber(neg, s).Some?
    ensures u.Valid() && s == u.Text()
  {
    var p := SplitNumber(s);
    SplitIsPointed(s, p);
    var x := ExponentOf(p.rest);
    u := Number(p.whole, s == p.whole + ("." + (p.frac + p.rest)), p.frac, x);
  }

  lemma {:induction false} NaNOf(neg: bool, s: string) returns (u: Unsigned)
    requires ReadSpecial(neg, s).Some? && !Spells(s, "inf") && !Spells(s, "infinity")
    ensures u.Valid() && s == u.Text()
  {
    var k: nat := if LowerChar(s[0]) == 's' then 1 else 0;
    var signal, name := s[..k], s[k..];
    LeadAreDigits(name[3..]);
    CutInThree(s, k, signal, name, name[..3], name[3..]);
    u := NotANumber(signal, name[..3], name[3..]);
  }

  lemma {:induction false} CutInThree(s: string, k: nat, signal: string, name: string, word: string, payload: string)
    requires k <= |s| && signal == s[..k] && name == s[k..] && |name| >= 3
    requires word == name[..3] && payload == name[3..]
    ensures s == signal + (word + payload) && payload[..|payload|] == payload && |payload| == |name| - 3
  {
    assert name == word + payload;
    assert s == signal + name;
  }

  /** The text of an optional sign and what it stands before */
  predicate Written(core: string, mark: string, u: Unsigned) {
    SignMark(mark) && u.Valid() && core == mark + u.Text()
  }

  lemma {:induction false} SignedReads(core: string, mark: string, u: Unsigned)
    requires Written(core, mark, u)
    ensures ReadSigned(core) == Some(u.Means(mark == "-"))
  {
    UnsignedReads(u, mark == "-", u.Text());
    assert mark != "" ==> core[1..] == u.Text();
    assert mark == "" ==> core == u.Text();
  }

  /** Text without its outer blanks and its underscores is read exactly if it is a sign and one of the three forms. */
  lemma {:induction false} ReadGrammar(text: string, core: string)
    requires core == Without(Strip(text), '_')
    ensures Read(text).Some? <==> exists mark, u :: Written(core, mark, u)
    ensures forall mark, u :: Written(core, mark, u) ==> Read(text) == Some(u.Means(mark == "-"))
  {
    forall mark, u | Written(core, mark, u) ensures Read(text) == Some(u.Means(mark == "-")) {
      SignedReads(core, mark, u);
    }
    if Read(text).Some? {
      var mark, u := WrittenOf(core);
    }
  }

  lemma {:induction false} WrittenOf(core: string) returns (mark: string, u: Unsigned)
    requires ReadSigned(core).Some?
    ensures Written(core, mark, u)
  {
    if core != [] && (core[0] == '-' || core[0] == '+') {
      u := UnsignedOf(core[0] == '-', core[1..]);
      mark := core[..1];
      assert core == mark + u.Text();
    } else {
      u := UnsignedOf(false, core);
      mark := "";
    }
  }

  /** Decimal(text): text that is no number raises a signal and gives a NaN. */
  method FromText(text: string, ctx: Context) returns (d: Decimal)
    requires ctx.Valid()
    modifies ctx.flags
    ensures var core := Without(Strip(text), '_');
      && (forall mark, u :: Written(core, mark, u) ==> d == u.Means(mark == "-"))
      && ((exists mark, u :: Written(core, mark, u)) ==> ctx.flags.raised == old(ctx.flags.raised))
      && ((forall mark, u :: !Written(core, mark, u)) ==>
            d == NaN(false, false, 0) && ctx.flags.raised == old(ctx.flags.raised) + {InvalidOperation})
    ensures Read(text).Some? ==> d == Read(text).value
  {
    ReadGrammar(text, Without(Strip(text), '_'));
    var m := Read(text);
    if m.None? {
      d := ctx.RaiseError(Invalid);
    } else {
      d := m.value;
    }
  }
}
