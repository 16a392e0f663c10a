/** The ISO 8601 forms the reader accepts, printed or not, and what it makes of each. */
module IsoForms {
  import opened Powers
  import opened DigitStrings
  import opened PythonText
  import opened Calendar
  import IsoWeek
  import opened IsoText

  // ----- a clock time, exactly

  /** Nothing, or a point or comma and digits, of which the first six count */
  predicate FractionText(t: string, us: int) {
    if t == "" then us == 0
    else
      var k := if |t| > 6 then 6 else |t| - 1;
      && (t[0] == '.' || t[0] == ',') && k >= 1
      && PyInt(t[1..1 + k]).Some? && us == Corrected(PyInt(t[1..1 + k]).value, k)
      && AllDigits(t[1 + k..])
  }

  /** Hours, and perhaps minutes, seconds and a fraction, all separated by colons or none */
  predicate Clock(s: string, colons: bool, parts: nat, c: Comps) {
    var w := if colons then 3 else 2;
    && 1 <= parts <= 3 && (colons ==> parts >= 2)
    && |s| >= w * (parts - 1) + 2 && PyInt(s[0..2]) == Some(c.hour)
    && (parts >= 2 ==> (colons ==> s[2] == ':') && PyInt(s[w..w + 2]) == Some(c.minute))
    && (parts == 3 ==> (colons ==> s[5] == ':') && PyInt(s[2 * w..2 * w + 2]) == Some(c.second)
                       && FractionText(s[2 * w + 2..], c.micro))
    && (parts < 3 ==> |s| == w * (parts - 1) + 2 && c.second == 0 && c.micro == 0)
    && (parts == 1 ==> c.minute == 0)
  }

  lemma NoColonInt(t: string)
    requires |t| == 2 && t[0] == ':'
    ensures PyInt(t).None?
  {
    var u := t[..1];
    assert Numeral(u).None?;
  }

  lemma {:induction false} FractionReads(s: string, f: Fields, c: Comps)
    requires f.pos <= |s| && f.comps.micro == 0
    ensures ReadFraction(s, f) == Ok(c) <==> FractionText(s[f.pos..], c.micro) && c == f.comps.(micro := c.micro)
  {
    var t := s[f.pos..];
    if t != "" {
      var k := if |t| > 6 then 6 else |t| - 1;
      assert s[f.pos + 1..f.pos + 1 + k] == t[1..1 + k];
      assert s[f.pos + 1 + k..] == t[1 + k..];
    }
  }

  /** One component, and where the reading goes on */
  lemma ReadOne(s: string, comp: nat, pos: nat, hasSep: bool, comps: Comps, n: int, sep: bool)
    requires comp < 3 && pos + 2 <= |s| && PyInt(s[pos..pos + 2]) == Some(n)
    requires sep == if comp == 0 then pos + 2 < |s| && s[pos + 2] == ':' else hasSep
    ensures pos + 2 == |s| || comp == 2 ==>
              ReadFields(s, comp, pos, hasSep, comps) == Ok(Fields(comps.With(comp, n), pos + 2))
    ensures pos + 2 < |s| && comp < 2 && sep && s[pos + 2] != ':' ==>
              ReadFields(s, comp, pos, hasSep, comps) == ValueError
    ensures pos + 2 < |s| && comp < 2 && (sep ==> s[pos + 2] == ':') ==>
              ReadFields(s, comp, pos, hasSep, comps)
              == ReadFields(s, comp + 1, pos + 2 + (if sep then 1 else 0), sep, comps.With(comp, n))
  {
    if pos + 2 < |s| {
      assert s[pos + 2..pos + 3] == [s[pos + 2]];
    }
  }

  /** The components of a clock time, as the loop reads them */
  lemma {:induction false} ClockFields(s: string, colons: bool, parts: nat, c: Comps)
    requires Clock(s, colons, parts, c)
    ensures ReadFields(s, 0, 0, false, NO_COMPS)
         == Ok(Fields(c.(micro := 0), (if colons then 3 else 2) * (parts - 1) + 2))
  {
    if parts >= 2 && !colons {
      if s[2] == ':' {
        NoColonInt(s[2..4]);
      }
    }
    ReadOne(s, 0, 0, false, NO_COMPS, c.hour, colons);
    if parts >= 2 {
      ReadOne(s, 1, if colons then 3 else 2, colons, Comps(c.hour, 0, 0, 0), c.minute, colons);
    }
    if parts == 3 {
      ReadOne(s, 2, if colons then 6 else 4, colons, Comps(c.hour, c.minute, 0, 0), c.second, colons);
    }
  }

  lemma {:induction false} ClockReads(s: string, colons: bool, parts: nat, c: Comps)
    requires Clock(s, colons, parts, c)
    ensures ReadTime(s) == Ok(c)
  {
    ClockFields(s, colons, parts, c);
    FractionReads(s, Fields(c.(micro := 0), (if colons then 3 else 2) * (parts - 1) + 2), c);
  }

  /** Where the loop over the components stopped, and with what */
  lemma {:induction false} FieldsAreClock(s: string, f: Fields) returns (colons: bool, parts: nat)
    requires ReadFields(s, 0, 0, false, NO_COMPS) == Ok(f)
    ensures 1 <= parts <= 3 && (colons ==> parts >= 2) && f.comps.micro == 0
    ensures f.pos == (if colons then 3 else 2) * (parts - 1) + 2 <= |s|
    ensures PyInt(s[0..2]) == Some(f.comps.hour)
    ensures parts >= 2 ==> (colons ==> s[2] == ':') && PyInt(s[f.pos - 2..f.pos]).Some?
    ensures parts == 2 ==> PyInt(s[f.pos - 2..f.pos]) == Some(f.comps.minute)
    ensures parts == 3 ==> (colons ==> s[5] == ':') && PyInt(s[f.pos - 2..f.pos]) == Some(f.comps.second)
                           && var w := if colons then 3 else 2; PyInt(s[w..w + 2]) == Some(f.comps.minute)
    ensures parts < 3 ==> f.pos == |s| && f.comps.second == 0
    ensures parts == 1 ==> f.comps.minute == 0
  {
    colons := |s| > 2 && s[2] == ':';
    var w := if colons then 3 else 2;
    ReadOne(s, 0, 0, false, NO_COMPS, PyInt(s[0..2]).value, colons);
    if |s| == 2 {
      parts := 1;
      return;
    }
    var hour := Comps(PyInt(s[0..2]).value, 0, 0, 0);
    ReadOne(s, 1, w, colons, hour, PyInt(s[w..w + 2]).value, colons);
    if |s| == w + 2 {
      parts := 2;
      return;
    }
    parts := 3;
    var v := if colons then 6 else 4;
    ReadOne(s, 2, v, colons, hour.(minute := PyInt(s[w..w + 2]).value), PyInt(s[v..v + 2]).value, colons);
  }

  lemma {:induction false} ReadIsClock(s: string, c: Comps) returns (colons: bool, parts: nat)
    requires ReadTime(s) == Ok(c)
    ensures Clock(s, colons, parts, c)
  {
    var f := ReadFields(s, 0, 0, false, NO_COMPS).value;
    colons, parts := FieldsAreClock(s, f);
    FractionReads(s, f, c);
  }

  /** The reader accepts exactly the clock times, each with the value of its parts. */
  lemma {:induction false} ClockGrammar(s: string, c: Comps)
    ensures ReadTime(s) == Ok(c) <==> exists colons, parts :: Clock(s, colons, parts, c)
  {
    if ReadTime(s) == Ok(c) {
      var colons, parts := ReadIsClock(s, c);
    }
    forall colons, parts | Clock(s, colons, parts, c) ensures ReadTime(s) == Ok(c) {
      ClockReads(s, colons, parts, c);
    }
  }

  // ----- clock times written in digits

  /** A clock time as it is written: two digits a part, then perhaps a fraction of any length */
  datatype ClockForm = ClockForm(colons: bool, parts: nat, hour: nat, minute: nat, second: nat, point: char,
                                 frac: string) {
    predicate Valid() {
      && 1 <= parts <= 3 && hour < 100 && minute < 100 && second < 100
      && (point == '.' || point == ',') && AllDigits(frac) && (frac != "" ==> parts == 3)
    }

    function Mark(): string {
      if colons then ":" else ""
    }

    function Fraction(): string {
      if frac == "" then "" else [point] + frac
    }

    function Text(): string {
      if parts == 1 then Pad(hour, 2)
      else if parts == 2 then Pad(hour, 2) + Mark() + Pad(minute, 2)
      else Pad(hour, 2) + Mark() + Pad(minute, 2) + Mark() + Pad(second, 2) + Fraction()
    }

    /** The parts that are written; of the fraction, whole microseconds */
    function Value(): Comps
      requires Valid()
    {
      PowPositive(10, |frac|);
      Comps(hour, if parts >= 2 then minute else 0, if parts == 3 then second else 0,
            ToNat(frac) * 1000000 / Pow(10, |frac|))
    }
  }

  lemma SmallPowers()
    ensures Pow(10, 1) == 10 && Pow(10, 2) == 100 && Pow(10, 3) == 1000
    ensures Pow(10, 4) == 10000 && Pow(10, 5) == 100000 && Pow(10, 6) == 1000000
  {
    assert Pow(10, 1) == 10;
    assert Pow(10, 2) == 100;
    assert Pow(10, 3) == 1000;
    assert Pow(10, 4) == 10000;
    assert Pow(10, 5) == 100000;
  }

  lemma PaddedInt(n: nat, w: nat)
    requires w >= 1 && n < Pow(10, w)
    ensures |Pad(n, w)| == w && AllDigits(Pad(n, w)) && PyInt(Pad(n, w)) == Some(n)
  {
    PadShape(n, w);
    PyIntDigits(Pad(n, w));
  }

  lemma TwoDigits(n: nat)
    requires n < 100
    ensures |Pad(n, 2)| == 2 && AllDigits(Pad(n, 2)) && PyInt(Pad(n, 2)) == Some(n)
  {
    SmallPowers();
    PaddedInt(n, 2);
  }

  lemma CancelFactor(a: nat, m: nat, b: nat)
    requires m > 0 && b > 0
    ensures m * b > 0 && a * m / (m * b) == a / b
  {
    MulMonotone(m, 1, b);
    DivIdentity(a, b);
    var q, r := a / b, a % b;
    assert a * m == (m * b) * q + r * m;
    MulMonotone(m, r + 1, b);
    assert m * (r + 1) == r * m + m;
    MulMonotone(m, 0, r);
    DivModUnique(a * m, m * b, q, r * m);
  }

  /** Up to six digits are scaled up to microseconds; of more, the first six count. */
  lemma {:induction false} FractionValue(frac: string)
    requires AllDigits(frac) && frac != ""
    ensures Pow(10, |frac|) > 0
    ensures var k := if |frac| > 6 then 6 else |frac|;
            Corrected(ToNat(frac[..k]), k) == ToNat(frac) * 1000000 / Pow(10, |frac|)
  {
    var n := |frac|;
    PowPositive(10, n);
    SmallPowers();
    if n <= 6 {
      assert frac[..n] == frac;
      ShortFraction(ToNat(frac), n);
    } else {
      ToNatSplit(frac, 6);
      PowAdd(10, 6, n - 6);
      CancelFactor(ToNat(frac), 1000000, Pow(10, n - 6));
    }
  }

  lemma ShortFraction(v: nat, k: nat)
    requires 1 <= k <= 6
    ensures Pow(10, k) > 0 && Corrected(v, k) == v * 1000000 / Pow(10, k)
  {
    SmallPowers();
    if k == 1 {
    } else if k == 2 {
    } else if k == 3 {
    } else if k == 4 {
    } else if k == 5 {
    }
  }

  lemma {:induction false} FractionForm(t: string, point: char, frac: string)
    requires AllDigits(frac) && (point == '.' || point == ',') && t == if frac == "" then "" else [point] + frac
    ensures Pow(10, |frac|) > 0 && FractionText(t, ToNat(frac) * 1000000 / Pow(10, |frac|))
  {
    PowPositive(10, |frac|);
    if frac != "" {
      FractionValue(frac);
      var k := if |t| > 6 then 6 else |t| - 1;
      assert t[1..1 + k] == frac[..k] && t[1 + k..] == frac[k..];
      PyIntDigits(frac[..k]);
    }
  }

  /** The pieces of a text joined from two-character parts */
  lemma {:induction false} Joined(s: string, h: string, m: string, x: string, mark: string, tail: string)
    requires |h| == 2 && |m| == 2 && |x| == 2 && (mark == "" || mark == ":")
    requires s == h + mark + m + mark + x + tail
    ensures var w := 2 + |mark|;
            && |s| == 2 * w + 2 + |tail| && s[0..2] == h && s[w..w + 2] == m && s[2 * w..2 * w + 2] == x
            && s[2 * w + 2..] == tail && (mark == ":" ==> s[2] == ':' && s[5] == ':')
  {
  }

  /** What is written so is a clock time, and reads as its value. */
  lemma {:induction false} ClockFormReads(k: ClockForm)
    requires k.Valid()
    ensures ReadTime(k.Text()) == Ok(k.Value())
  {
    var s, c := k.Text(), k.Value();
    var h, m, x := Pad(k.hour, 2), Pad(k.minute, 2), Pad(k.second, 2);
    TwoDigits(k.hour);
    TwoDigits(k.minute);
    TwoDigits(k.second);
    FractionForm(k.Fraction(), k.point, k.frac);
    if k.parts == 1 {
      assert s[0..2] == h;
    } else if k.parts == 2 {
      assert s == h + k.Mark() + m;
      var w := 2 + |k.Mark()|;
      assert s[0..2] == h && s[w..w + 2] == m;
    } else {
      Joined(s, h, m, x, k.Mark(), k.Fraction());
    }
    ClockReads(s, k.colons && k.parts >= 2, k.parts, c);
  }

  /** The characters of a written clock time */
  predicate ClockText(s: string) {
    forall i :: 0 <= i < |s| ==> IsDigit(s[i]) || s[i] == ':' || s[i] == '.' || s[i] == ','
  }

  lemma {:induction false} ClockFormText(k: ClockForm)
    requires k.Valid()
    ensures ClockText(k.Text()) && |k.Text()| >= 2 && |k.Text()| != 3
    ensures IsDigit(k.Text()[0]) && IsDigit(k.Text()[1])
  {
    TwoDigits(k.hour);
    TwoDigits(k.minute);
    TwoDigits(k.second);
    assert ClockText(k.Fraction());
  }

  // ----- zones

  datatype Zone = Naive | Zulu | Shifted(neg: bool, clock: ClockForm) {
    predicate Valid() {
      Shifted? ==> clock.Valid()
    }

    function Text(): string {
      match this
      case Naive => ""
      case Zulu => "Z"
      case Shifted(neg, clock) => [if neg then '-' else '+'] + clock.Text()
    }

    /** The offset from UTC, which must be less than a day */
    function Offset(): Result<Option<int>>
      requires Valid()
    {
      match this
      case Naive => Ok(None)
      case Zulu => Ok(Some(0))
      case Shifted(neg, clock) =>
        var off := if neg then -Micros(clock.Value()) else Micros(clock.Value());
        if -MICROS_PER_DAY < off < MICROS_PER_DAY then Ok(Some(off)) else ValueError
    }
  }

  lemma {:induction false} FindAfterClock(a: string, c: char, b: string)
    requires ClockText(a) && ClockText(b) && (c == '-' || c == '+' || c == 'Z')
    ensures TzPos(a + [c] + b) == |a| + 1
  {
    var s := a + [c] + b;
    assert s[|a|] == c;
    assert forall i :: 0 <= i < |s| && i != |a| ==> s[i] == (if i < |a| then a[i] else b[i - |a| - 1]);
    var i := Find(s, c);
    assert c in s;
    if c != '-' {
      assert '-' !in s;
    }
    if c == 'Z' {
      assert '+' !in s;
    }
  }

  lemma FindNoZone(a: string)
    requires ClockText(a)
    ensures TzPos(a) == 0
  {
    assert '-' !in a && '+' !in a && 'Z' !in a;
  }

  /** A clock time a followed by a zone */
  function Timed(c: Result<Comps>, z: Zone): Result<ZonedComps>
    requires z.Valid()
  {
    if c.Ok? && z.Offset().Ok? then Ok(ZonedComps(c.value, z.Offset().value)) else ValueError
  }

  lemma {:induction false} ZoneReads(s: string, a: string, z: Zone)
    requires ClockText(a) && |a| >= 2 && z.Valid() && s == a + z.Text()
    ensures ReadIsoTime(s) == Timed(ReadTime(a), z)
  {
    match z
    case Naive =>
      assert s == a;
      FindNoZone(a);
    case Zulu =>
      assert s == a + ['Z'] + "";
      FindAfterClock(a, 'Z', "");
      assert s[..|a|] == a;
    case Shifted(neg, clock) =>
      ClockFormText(clock);
      ClockFormReads(clock);
      ShiftedReads(s, a, z, clock.Text(), ReadTime(a));
  }

  lemma {:induction false} ShiftedReads(s: string, a: string, z: Zone, b: string, t: Result<Comps>)
    requires ClockText(a) && |a| >= 2 && z.Shifted? && z.clock.Valid() && t == ReadTime(a)
    requires ClockText(b) && |b| >= 2 && |b| != 3 && ReadTime(b) == Ok(z.clock.Value())
    requires s == a + ([if z.neg then '-' else '+'] + b)
    ensures ReadIsoTime(s) == Timed(t, z)
  {
    var sign := if z.neg then '-' else '+';
    JoinedSign(a, sign, b);
    SignedReads(s, a, sign, b, z.clock.Value(), t);
    ShiftedOffset(z, sign);
  }

  lemma JoinedSign(a: string, sign: char, b: string)
    ensures a + ([sign] + b) == a + [sign] + b
  {
  }

  lemma ShiftedOffset(z: Zone, sign: char)
    requires z.Shifted? && z.clock.Valid() && sign == if z.neg then '-' else '+'
    ensures z.Offset() == SignedOffset(sign, z.clock.Value())
  {
  }

  /** The offset of a zone, or ValueError when it is a day or more */
  function SignedOffset(sign: char, c: Comps): Result<Option<int>> {
    var off := if sign == '-' then -Micros(c) else Micros(c);
    if -MICROS_PER_DAY < off < MICROS_PER_DAY then Ok(Some(off)) else ValueError
  }

  lemma {:induction false} SignedReads(s: string, a: string, sign: char, b: string, c: Comps, t: Result<Comps>)
    requires ClockText(a) && ClockText(b) && |a| >= 2 && |b| >= 2 && |b| != 3 && s == a + [sign] + b
    requires (sign == '-' || sign == '+') && ReadTime(b) == Ok(c) && t == ReadTime(a)
    ensures ReadIsoTime(s) == if t.Ok? && SignedOffset(sign, c).Ok?
                              then Ok(ZonedComps(t.value, SignedOffset(sign, c).value)) else ValueError
  {
    FindAfterClock(a, sign, b);
    assert s[..|a|] == a && s[|a| + 1..] == b && s[|a|] == sign;
    OffsetGrammar(s, |a| + 1, sign, b, c);
    TimeAndZone(s, |a| + 1, t, SignedOffset(sign, c));
  }

  lemma {:induction false} OffsetGrammar(s: string, k: nat, sign: char, b: string, c: Comps)
    requires 1 <= k < |s| && s[k..] == b && s[k - 1] == sign && |b| >= 2 && |b| != 3 && ReadTime(b) == Ok(c)
    ensures ReadZone(s, k) == SignedOffset(sign, c)
  {
  }

  lemma {:induction false} TimeAndZone(s: string, k: nat, t: Result<Comps>, z: Result<Option<int>>)
    requires |s| >= 2 && 1 <= k == TzPos(s) && ReadTime(s[..k - 1]) == t && ReadZone(s, k) == z
    ensures ReadIsoTime(s) == if t.Ok? && z.Ok? then Ok(ZonedComps(t.value, z.value)) else ValueError
  {
  }

  // ----- a time with its zone, exactly

  /** The mark that starts the zone: the first minus, or without one the first plus, or the first Z */
  predicate Marks(a: string, mark: char, tail: string) {
    || (mark == '-' && '-' !in a)
    || (mark == '+' && '-' !in a && '-' !in tail && '+' !in a)
    || (mark == 'Z' && '-' !in a && '-' !in tail && '+' !in a && '+' !in tail && 'Z' !in a)
  }

  /** What follows the mark: nothing after a Z, or a clock time of less than a day */
  ghost predicate ZoneTail(mark: char, tail: string, offset: Option<int>) {
    || (mark == 'Z' && tail == "" && offset == Some(0))
    || (|tail| >= 2 && |tail| != 3 && exists c :: ReadTime(tail) == Ok(c) && SignedOffset(mark, c) == Ok(offset))
  }

  /** A clock time alone, or one with a zone */
  ghost predicate Zoned(s: string, a: string, mark: char, tail: string, z: ZonedComps) {
    && ReadTime(a) == Ok(z.comps)
    && if z.offset.None? then s == a && '-' !in s && '+' !in s && 'Z' !in s
       else s == a + [mark] + tail && Marks(a, mark, tail) && ZoneTail(mark, tail, z.offset)
  }

  lemma {:induction false} FindFirst(s: string, a: string, c: char, tail: string)
    requires s == a + [c] + tail && c !in a
    ensures Find(s, c) == |a|
  {
    assert s[|a|] == c;
    assert forall i :: 0 <= i < |a| ==> s[i] == a[i];
  }

  lemma {:induction false} FindNone(s: string, a: string, c: char, mark: char, tail: string)
    requires s == a + [mark] + tail && c !in a && c !in tail && c != mark
    ensures Find(s, c) == -1
  {
  }

  lemma {:induction false} MarkFound(s: string, a: string, mark: char, tail: string)
    requires s == a + [mark] + tail && Marks(a, mark, tail)
    ensures TzPos(s) == |a| + 1 && s[..|a|] == a && s[|a| + 1..] == tail && s[|a|] == mark
  {
    FindFirst(s, a, mark, tail);
    if mark != '-' {
      FindNone(s, a, '-', mark, tail);
    }
    if mark == 'Z' {
      FindNone(s, a, '+', mark, tail);
    }
  }

  lemma {:induction false} MarkedSplit(s: string, k: nat)
    requires k == TzPos(s) > 0
    ensures s == s[..k - 1] + [s[k - 1]] + s[k..] && Marks(s[..k - 1], s[k - 1], s[k..])
  {
    assert s == s[..k - 1] + [s[k - 1]] + s[k..];
    assert forall c :: c in s[k..] ==> c in s;
    assert forall c :: c in s[..k - 1] ==> c in s;
  }

  /** The offset read after the mark at k - 1 */
  lemma {:induction false} ZoneTailReads(s: string, k: nat, mark: char, tail: string, offset: Option<int>)
    requires 1 <= k <= |s| && s[k..] == tail && s[k - 1] == mark && (mark == '-' || mark == '+' || mark == 'Z')
    ensures offset.Some? ==> (ReadZone(s, k) == Ok(offset) <==> ZoneTail(mark, tail, offset))
    ensures ReadZone(s, k) != Ok(None)
  {
    if tail == "" {
      assert k == |s|;
    }
  }

  /** The reader accepts exactly the clock times with such a zone, each with the value of its parts. */
  lemma {:induction false} ZoneGrammar(s: string, z: ZonedComps)
    ensures ReadIsoTime(s) == Ok(z) <==> exists a, mark, tail :: Zoned(s, a, mark, tail, z)
  {
    if ReadIsoTime(s) == Ok(z) {
      var k := TzPos(s);
      if k == 0 {
        assert Zoned(s, s, 'Z', "", z);
      } else {
        MarkedSplit(s, k);
        ZoneTailReads(s, k, s[k - 1], s[k..], z.offset);
        assert Zoned(s, s[..k - 1], s[k - 1], s[k..], z);
      }
    }
    forall a, mark, tail | Zoned(s, a, mark, tail, z) ensures ReadIsoTime(s) == Ok(z) {
      ZonedReads(s, a, mark, tail, z);
    }
  }

  lemma {:induction false} ZonedReads(s: string, a: string, mark: char, tail: string, z: ZonedComps)
    requires Zoned(s, a, mark, tail, z)
    ensures ReadIsoTime(s) == Ok(z)
  {
    var colons, parts := ReadIsClock(a, z.comps);
    assert |a| >= 2;
    if z.offset.Some? {
      MarkFound(s, a, mark, tail);
      ZoneTailReads(s, |a| + 1, mark, tail, z.offset);
      TimeAndZone(s, |a| + 1, Ok(z.comps), Ok(z.offset));
    }
  }

  // ----- a date, exactly

  /**
   Year, month and day with dashes between them, or with none; without dashes the day may be a single
   character, and what follows the eighth is not looked at.
   */
  predicate CalendarText(s: string, d: Date)
    requires |s| in {7, 8, 10}
  {
    && PyInt(s[..4]) == Some(d.year)
    && if s[4] == '-' then |s| == 10 && s[7] == '-' && PyInt(s[5..7]) == Some(d.month) && PyInt(s[8..]) == Some(d.day)
       else s[6] != '-' && PyInt(s[4..6]) == Some(d.month) && PyInt(if |s| == 7 then s[6..] else s[6..8]) == Some(d.day)
  }

  /**
   Year, week and perhaps weekday with dashes between them, or with none.  The week may be a single
   character if nothing follows it; without dashes, what follows the eighth is not looked at.
   */
  predicate WeekText(s: string, i: IsoWeek.IsoDate)
    requires |s| in {7, 8, 10}
  {
    && PyInt(s[..4]) == Some(i.year)
    && if s[4] == '-' then
         && PyInt(if |s| == 7 then s[6..] else s[6..8]) == Some(i.week)
         && if |s| == 10 then s[8] == '-' && PyInt(s[9..]) == Some(i.day) else i.day == 1
       else
         && PyInt(s[5..7]) == Some(i.week)
         && if |s| == 7 then i.day == 1 else s[7] != '-' && PyInt(s[7..8]) == Some(i.day)
  }

  lemma CharSlice(s: string, i: nat, c: char)
    requires i < |s|
    ensures Slice(s, i, i + 1) == [c] <==> s[i] == c
  {
    assert Slice(s, i, i + 1) == [s[i]];
  }

  /** The date reader accepts exactly these texts, each with its fields. */
  lemma {:induction false} DateGrammar(s: string, d: Date)
    requires |s| in {7, 8, 10}
    ensures ReadDate(s) == Ok(d) <==> CalendarText(s, d)
  {
    assert s[0..4] == s[..4];
    if s[4] == '-' {
      if |s| > 7 {
        CharSlice(s, 7, '-');
      }
      assert |s| == 10 ==> s[8..10] == s[8..];
    } else {
      CharSlice(s, 6, '-');
      assert |s| == 7 ==> s[6..7] == s[6..];
    }
  }

  lemma {:induction false} WeekGrammar(s: string, i: IsoWeek.IsoDate)
    requires |s| in {7, 8, 10}
    ensures ReadWeek(s) == Some(i) <==> WeekText(s, i)
  {
    assert s[0..4] == s[..4];
    if s[4] == '-' {
      if |s| > 8 {
        CharSlice(s, 8, '-');
        assert s[9..10] == s[9..];
      }
      assert |s| == 7 ==> s[6..7] == s[6..];
    } else if |s| > 7 {
      CharSlice(s, 7, '-');
    }
  }

  /** Seven digits, an ordinal date in ISO 8601, are read as year, month and a one-digit day. */
  lemma {:induction false} SevenDigits(s: string, d: Date)
    requires |s| == 7 && AllDigits(s)
    ensures !WeekForm(s) && (ReadDate(s) == Ok(d) <==> d == Date(ToNat(s[..4]), ToNat(s[4..6]), ToNat(s[6..])))
  {
    DateGrammar(s, d);
    PyIntDigits(s[..4]);
    PyIntDigits(s[4..6]);
    PyIntDigits(s[6..]);
  }

  /** An ordinal date is refused exactly when those fields are no date. */
  method ReadOrdinal(s: string) returns (r: Result<Date>)
    requires |s| == 7 && AllDigits(s)
    ensures var d := Date(ToNat(s[..4]), ToNat(s[4..6]), ToNat(s[6..]));
            r == if IsDate(d) then Ok(d) else ValueError
  {
    SevenDigits(s, Date(ToNat(s[..4]), ToNat(s[4..6]), ToNat(s[6..])));
    r := DateFromIsoFormat(s);
  }

  /** Day 123 of the year 2009 is taken for 3 December. */
  method OrdinalMisread() returns (r: Result<Date>)
    ensures r == Ok(Date(2009, 12, 3))
  {
    var s := "2009123";
    r := ReadOrdinal(s);
    TwoDigitInt(s[4..6]);
    FourDigitInt(s[..4]);
    assert s[6..][..0] == "";
  }

  lemma {:induction false} FourDigitInt(s: string)
    requires |s| == 4 && AllDigits(s)
    ensures ToNat(s) == 1000 * DigitValue(s[0]) + 100 * DigitValue(s[1]) + 10 * DigitValue(s[2]) + DigitValue(s[3])
  {
    var t, u, v := s[..3], s[..2], s[..1];
    assert t[..2] == u && u[..1] == v && v[..0] == "";
    assert ToNat(v) == DigitValue(s[0]);
    assert ToNat(u) == 10 * ToNat(v) + DigitValue(s[1]);
    assert ToNat(t) == 10 * ToNat(u) + DigitValue(s[2]);
  }

  // ----- dates written in digits

  /** A date in one of the forms; second is the month or the week, third the day or the weekday */
  datatype WrittenDate = WrittenDate(form: DateForm, year: nat, second: nat, third: nat) {
    predicate Valid() {
      year < 10000 && second < 100 && third < if form.Week? then 10 else 100
    }

    function Text(): string {
      var mark := if form.dashes then "-" else "";
      match form
      case Calendar(_) => Pad(year, 4) + mark + Pad(second, 2) + mark + Pad(third, 2)
      case Week(_, withDay) =>
        Pad(year, 4) + mark + "W" + Pad(second, 2) + if withDay then mark + Pad(third, 1) else ""
    }

    function Name(): IsoWeek.IsoDate
      requires form.Week?
    {
      IsoWeek.IsoDate(year, second, if form.withDay then third else 1)
    }

    /** r is what the fields stand for: themselves, or the day with that ISO name. */
    ghost predicate Means(r: Result<Date>) {
      if form.Calendar? then r == Ok(Date(year, second, third))
      else if !IsoWeek.IsName(Name()) then r == ValueError
      else r.Ok? && ValidDate(r.value) && IsoWeek.Names(Name(), Ymd2Ord(r.value))
    }
  }

  lemma {:induction false} CalendarReads(s: string, mark: string, y: string, m: string, d: string, date: Date)
    requires (mark == "" || mark == "-") && s == y + mark + m + mark + d
    requires |y| == 4 && |m| == 2 && |d| == 2 && IsDigit(m[0])
    requires PyInt(y) == Some(date.year) && PyInt(m) == Some(date.month) && PyInt(d) == Some(date.day) && IsDigit(d[0])
    ensures |s| == 8 + 2 * |mark| && !WeekForm(s) && ReadDate(s) == Ok(date)
  {
    if mark == "-" {
      assert s[0..4] == y && s[4] == '-' && s[5..7] == m && s[7..8] == "-" && s[8..10] == d;
    } else {
      assert s[0..4] == y && s[4] == m[0] && s[4..6] == m && s[6..7] == [d[0]] && s[6..8] == d;
    }
  }

  lemma {:induction false} WeekReads(s: string, mark: string, y: string, w: string, tail: string, i: IsoWeek.IsoDate)
    requires (mark == "" || mark == "-") && s == y + mark + "W" + w + tail && |y| == 4 && |w| == 2
    requires PyInt(y) == Some(i.year) && PyInt(w) == Some(i.week)
    requires if tail == "" then i.day == 1
             else |tail| == 1 + |mark| && PyInt(tail[|mark|..]) == Some(i.day) && IsDigit(tail[|mark|])
                  && (mark == "-" ==> tail[0] == '-')
    ensures |s| == 7 + |mark| + |tail| && WeekForm(s) && ReadWeek(s) == Some(i)
  {
    var p := 7 + |mark|;
    assert s[0..4] == y && (mark == "-" ==> s[4] == '-') && s[p - 3] == 'W' && s[p - 2..p] == w;
    assert s[p..] == tail;
    if tail != "" {
      assert s[p..p + 1] == [tail[0]];
      var q := p + |mark|;
      assert s[q..q + 1] == tail[|mark|..];
    }
  }

  /** Every form is read as what its fields mean, and is where the separator search looks for it. */
  lemma {:induction false} WrittenDateReads(d: WrittenDate, s: string, r: Result<Date>)
    requires d.Valid() && s == d.Text()
    ensures |s| == d.form.Length() && d.form.Starts(s)
    ensures ReadsAs(s, r) <==> d.Means(r)
  {
    SmallPowers();
    PaddedInt(d.year, 4);
    PaddedInt(d.second, 2);
    var mark := if d.form.dashes then "-" else "";
    var y, a := Pad(d.year, 4), Pad(d.second, 2);
    if d.form.Calendar? {
      PaddedInt(d.third, 2);
      CalendarReads(s, mark, y, a, Pad(d.third, 2), Date(d.year, d.second, d.third));
      CalendarStarts(s, mark, y, a, Pad(d.third, 2), d.form);
    } else {
      PaddedInt(d.third, 1);
      var tail := if d.form.withDay then mark + Pad(d.third, 1) else "";
      assert tail != "" ==> tail[|mark|..] == Pad(d.third, 1);
      WeekReads(s, mark, y, a, tail, d.Name());
      WeekStarts(s, mark, y, a, tail, d.form);
    }
  }

  lemma {:induction false} CalendarStarts(s: string, mark: string, y: string, m: string, d: string, f: DateForm)
    requires f.Calendar? && mark == (if f.dashes then "-" else "") && s == y + mark + m + mark + d
    requires |y| == 4 && |m| == 2 && |d| == 2 && AllDigits(y) && AllDigits(m) && AllDigits(d)
    ensures |s| == f.Length() && f.Starts(s)
  {
    assert s[..4] == y;
    if f.dashes {
      assert s[5..7] == m && s[8..10] == d;
    } else {
      assert s[4..8] == m + d;
    }
  }

  lemma {:induction false} WeekStarts(s: string, mark: string, y: string, w: string, tail: string, f: DateForm)
    requires f.Week? && mark == (if f.dashes then "-" else "") && s == y + mark + "W" + w + tail
    requires |y| == 4 && |w| == 2 && AllDigits(y) && AllDigits(w)
    requires if f.withDay then |tail| == 1 + |mark| && IsDigit(tail[|mark|]) && (f.dashes ==> tail[0] == '-')
             else tail == ""
    ensures |s| == f.Length() && f.Starts(s)
  {
    assert s[..4] == y;
    if f.dashes {
      assert s[6..8] == w && s[8..] == tail;
    } else {
      assert s[5..7] == w && s[7..] == tail;
    }
  }

  // ----- the character between date and time

  /** Any character may separate date and time, but for a digit after a weekday that follows a dash. */
  predicate Separates(f: DateForm, sep: char) {
    !(f == Week(true, true) && IsDigit(sep))
  }

  lemma {:induction false} RunOf(p: string, q: string)
    requires AllDigits(p) && (q == "" || !IsDigit(q[0]))
    ensures DigitRun(p + q, 0) == |p|
  {
    RunThrough(p + q, 0, |p|);
  }

  lemma {:induction false} RunThrough(s: string, i: nat, n: nat)
    requires i <= n <= |s| && AllDigits(s[..n]) && (n == |s| || !IsDigit(s[n]))
    ensures DigitRun(s, i) == n
    decreases n - i
  {
    if i < n {
      assert IsDigit(s[..n][i]);
      RunThrough(s, i + 1, n);
    }
  }

  /** A written time starts with an even number of digits. */
  lemma {:induction false} TimeRun(k: ClockForm, z: Zone) returns (p: string, q: string)
    requires k.Valid() && z.Valid()
    ensures k.Text() + z.Text() == p + q && AllDigits(p) && (q == "" || !IsDigit(q[0]))
    ensures |p| >= 2 && |p| % 2 == 0
  {
    TwoDigits(k.hour);
    TwoDigits(k.minute);
    TwoDigits(k.second);
    var h, m, x := Pad(k.hour, 2), Pad(k.minute, 2), Pad(k.second, 2);
    if k.parts == 1 {
      p, q := h, z.Text();
    } else if k.colons {
      p, q := h, if k.parts == 2 then ":" + m + z.Text() else ":" + m + ":" + x + k.Fraction() + z.Text();
      ColonsSplit(h, m, x, k.Fraction(), z.Text());
    } else if k.parts == 2 {
      p, q := h + m, z.Text();
      assert h + "" + m == h + m;
    } else {
      p, q := h + m + x, k.Fraction() + z.Text();
      PlainSplit(h, m, x, k.Fraction(), z.Text());
    }
  }

  lemma ColonsSplit(h: string, m: string, x: string, f: string, z: string)
    ensures h + ":" + m + z == h + (":" + m + z)
    ensures h + ":" + m + ":" + x + f + z == h + (":" + m + ":" + x + f + z)
  {
  }

  lemma PlainSplit(h: string, m: string, x: string, f: string, z: string)
    ensures h + "" + m + "" + x + f + z == h + m + x + (f + z)
  {
  }

  lemma {:induction false} SeparatedTail(f: DateForm, sep: char, t: string, p: string, q: string)
    requires t == p + q && AllDigits(p) && (q == "" || !IsDigit(q[0])) && |p| >= 2 && |p| % 2 == 0
    ensures f.EndsBefore([sep] + t) <==> Separates(f, sep)
  {
    var tail := [sep] + t;
    if IsDigit(sep) {
      assert tail == ([sep] + p) + q;
      RunOf([sep] + p, q);
    } else {
      RunOf("", tail);
      assert "" + tail == tail;
    }
    assert tail[2] == p[1];
  }

  lemma {:induction false} StartsWith(f: DateForm, s: string, date: string, tail: string)
    requires s == date + tail && |date| == f.Length() && f.Starts(date)
    ensures f.Starts(s) && s[f.Length()..] == tail
  {
    var n := f.Length();
    assert s[..4] == date[..4];
    match f
    case Calendar(dashes) =>
      if dashes {
        assert s[5..7] == date[5..7] && s[8..10] == date[8..10];
      } else {
        assert s[4..8] == date[4..8];
      }
    case Week(dashes, withDay) =>
      if dashes {
        assert s[6..8] == date[6..8];
      } else {
        assert s[5..7] == date[5..7];
      }
  }

  // ----- whole texts

  /** The date and time that the parts of a text make, or ValueError when they make none */
  function Assembled(date: Result<Date>, c: Comps, offset: Result<Option<int>>): Result<DateTime> {
    if date.Ok? && offset.Ok? then Checked(date.value, ZonedComps(c, offset.value)) else ValueError
  }

  lemma {:induction false} AfterDateReads(s: string, n: nat, date: Result<Date>, t: string, a: string, k: ClockForm,
                                          z: Zone)
    requires k.Valid() && z.Valid() && a == k.Text() && t == a + z.Text()
    requires n < |s| && s[n + 1..] == t && !date.AssertionError?
    ensures ReadAfterDate(s, n, date) == Assembled(date, k.Value(), z.Offset())
  {
    TimedReads(t, a, k, z);
    assert Slice(s, n + 1, |s|) == t;
  }

  lemma {:induction false} TimedReads(t: string, a: string, k: ClockForm, z: Zone)
    requires k.Valid() && z.Valid() && a == k.Text() && t == a + z.Text()
    ensures t != "" && ReadIsoTime(t) == Timed(Ok(k.Value()), z)
  {
    ClockFormText(k);
    ClockFormReads(k);
    ZoneReads(t, a, z);
  }

  /** Where the text of a date, a separator and a time is split */
  lemma {:induction false} SplitOf(s: string, d: WrittenDate, date: string, sep: char, t: string, k: ClockForm, z: Zone)
    requires d.Valid() && k.Valid() && z.Valid() && date == d.Text() && t == k.Text() + z.Text()
    requires s == date + ([sep] + t)
    ensures |s| > d.form.Length() >= 7 && (Separator(s) == d.form.Length() <==> Separates(d.form, sep))
    ensures Slice(s, 0, d.form.Length()) == date && s[d.form.Length() + 1..] == t && s[d.form.Length()] == sep
    ensures d.form.Starts(s)
  {
    WrittenDateReads(d, date, ValueError);
    StartsWith(d.form, s, date, [sep] + t);
    SeparatorEndsDate(s, d.form);
    var p, q := TimeRun(k, z);
    SeparatedTail(d.form, sep, t, p, q);
    SplitPieces(s, date, sep, t);
  }

  lemma SplitPieces(s: string, date: string, sep: char, t: string)
    requires s == date + ([sep] + t)
    ensures |s| == |date| + 1 + |t| && Slice(s, 0, |date|) == date && s[|date| + 1..] == t && s[|date|] == sep
  {
    assert s[0..|date|] == date;
  }

  /** What is read is what is meant. */
  lemma {:induction false} MeansOne(d: WrittenDate, r: Result<Date>, r': Result<Date>)
    requires d.Valid() && d.Means(r) && d.Means(r')
    ensures r == r'
  {
    WrittenDateReads(d, d.Text(), r);
    WrittenDateReads(d, d.Text(), r');
    ReadsAsOne(d.Text(), r, r');
  }

  // ----- a digit in the wrong place

  lemma {:induction false} TwoDigitInt(s: string)
    requires AllDigits(s) && |s| == 2
    ensures PyInt(s) == Some(10 * DigitValue(s[0]) + DigitValue(s[1]))
  {
    PyIntDigits(s);
    var u := s[..1];
    assert u[..0] == "";
    assert ToNat(u) == DigitValue(u[0]);
  }

  /** A clock time with two more digits before it is never read as the same time. */
  lemma {:induction false} NoShift(s: string, w: char, sep: char, k: ClockForm, c: Comps)
    requires k.Valid() && IsDigit(w) && w != '0' && IsDigit(sep) && s == [w, sep] + k.Text() && c == k.Value()
    ensures ReadTime(s) != Ok(c)
  {
    if ReadTime(s) == Ok(c) {
      var colons, parts := ReadIsClock(s, c);
      NoClock(s, w, sep, k, c, colons, parts);
    }
  }

  lemma {:induction false} NoClock(s: string, w: char, sep: char, k: ClockForm, c: Comps, colons: bool, parts: nat)
    requires k.Valid() && IsDigit(w) && w != '0' && IsDigit(sep) && s == [w, sep] + k.Text() && c == k.Value()
    ensures !Clock(s, colons, parts, c)
  {
    ClockFormText(k);
    HourText(k);
    var t := k.Text();
    assert s[0..2] == [w, sep] && s[2..] == t;
    TwoDigitInt(s[0..2]);
    assert s[2] == t[0];
    assert s[2..4] == t[..2];
    if k.parts >= 2 && c.minute > 0 {
      AfterTheHour(s, t, k, c, parts);
    }
  }

  lemma {:induction false} HourText(k: ClockForm)
    requires k.Valid()
    ensures |k.Text()| >= 2 && k.Text()[..2] == Pad(k.hour, 2) && PyInt(k.Text()[..2]) == Some(k.hour)
    ensures k.Text()[0] != ':'
  {
    TwoDigits(k.hour);
    TwoDigits(k.minute);
    TwoDigits(k.second);
  }

  lemma {:induction false} AfterTheHour(s: string, t: string, k: ClockForm, c: Comps, parts: nat)
    requires k.Valid() && |s| >= 2 && t == k.Text() && s[2..] == t && c == k.Value()
    requires k.parts >= 2 && c.minute > 0
    ensures parts >= 2 ==> !Clock(s, false, parts, c)
  {
    TwoDigits(k.minute);
    MinuteText(k, t);
    assert s[4..6] == t[2..4];
    if k.colons {
      NoColonInt(t[2..4]);
    } else if k.parts == 3 {
      assert s[6..][0] == t[4];
    }
  }

  lemma {:induction false} MinuteText(k: ClockForm, t: string)
    requires k.Valid() && k.parts >= 2 && t == k.Text()
    ensures |t| >= 4 && (if k.colons then t[2] == ':' else t[2..4] == Pad(k.minute, 2))
    ensures !k.colons && k.parts == 2 ==> |t| == 4
    ensures !k.colons && k.parts == 3 ==> |t| >= 6 && IsDigit(t[4])
  {
    TwoDigits(k.hour);
    TwoDigits(k.minute);
    TwoDigits(k.second);
    if !k.colons && k.parts == 3 {
      assert t[4] == Pad(k.second, 2)[0];
    }
  }

  /** The split that goes wrong: the weekday and the digit after it are taken for the hour. */
  lemma {:induction false} SplitEarly(s: string, d: WrittenDate, date: string, sep: char, t: string)
    requires d.Valid() && d.form == Week(true, true) && IsDigit(sep) && date == d.Text() && s == date + ([sep] + t)
    requires |date| == 10 && d.form.Starts(s) && d.third > 0
    ensures Separator(s) == 8 && s[9..] == [date[9], sep] + t && IsDigit(date[9]) && date[9] != '0'
  {
    SmallPowers();
    PaddedInt(d.third, 1);
    var y, a, b := Pad(d.year, 4), Pad(d.second, 2), Pad(d.third, 1);
    PaddedInt(d.year, 4);
    PaddedInt(d.second, 2);
    assert date == (y + "-" + "W" + a) + ("-" + b);
    assert date[9] == b[0];
    ZeroDigit(b);
  }

  lemma ZeroDigit(b: string)
    requires AllDigits(b) && |b| == 1 && PyInt(b) != Some(0)
    ensures b[0] != '0'
  {
    PyIntDigits(b);
    assert b[..0] == "";
  }

  lemma {:induction false} NotAsMeant(s: string, a: string, k: ClockForm, z: Zone, w: char, sep: char,
                                      read: Result<Date>, dt: DateTime)
    requires k.Valid() && z.Valid() && a == k.Text() && IsDigit(w) && w != '0' && IsDigit(sep)
    requires |s| > 9 && s[9..] == [w, sep] + (a + z.Text())
    requires dt.time == Time(k.hour, k.Value().minute, k.Value().second, k.Value().micro)
    ensures ReadAfterDate(s, 8, read) != Ok(dt)
  {
    var b, t := [w, sep] + a, s[9..];
    ClockFormText(k);
    assert t == b + z.Text();
    ZoneReads(t, b, z);
    NoShift(b, w, sep, k, k.Value());
    assert Slice(s, 9, |s|) == t;
    OtherTime(s, t, ReadTime(b), z, read, k.Value(), dt);
  }

  lemma {:induction false} OtherTime(s: string, t: string, c: Result<Comps>, z: Zone, read: Result<Date>, v: Comps,
                                     dt: DateTime)
    requires z.Valid() && t != "" && Slice(s, 9, |s|) == t && ReadIsoTime(t) == Timed(c, z)
    requires c != Ok(v) && dt.time == Time(v.hour, v.minute, v.second, v.micro)
    ensures ReadAfterDate(s, 8, read) != Ok(dt)
  {
  }

  // ----- the whole

  /**
   A date in any documented form, a separating character, a clock time in any documented form and a zone
   read as what the fields mean.  The promise that any one character may separate date and time fails
   for a digit after a weekday that follows a dash, and for nothing else.
   */
  method ReadForm(d: WrittenDate, sep: char, k: ClockForm, z: Zone) returns (r: Result<DateTime>)
    requires d.Valid() && k.Valid() && z.Valid()
    ensures Separates(d.form, sep) ==> exists date :: d.Means(date) && r == Assembled(date, k.Value(), z.Offset())
    ensures forall date :: d.Means(date) && Assembled(date, k.Value(), z.Offset()).Ok? ==>
              (r == Assembled(date, k.Value(), z.Offset()) <==> Separates(d.form, sep))
  {
    var date, t := d.Text(), k.Text() + z.Text();
    var s := date + ([sep] + t);
    SplitOf(s, d, date, sep, t, k, z);
    r := FromIsoFormat(s);
    ghost var read :| ReadsAs(Slice(s, 0, Separator(s)), read) && r == ReadAfterDate(s, Separator(s), read);
    ReadAsMeant(s, d, date, sep, t, k, z, read);
  }

  lemma {:induction false} ReadAsMeant(s: string, d: WrittenDate, date: string, sep: char, t: string,
                                       k: ClockForm, z: Zone, read: Result<Date>)
    requires d.Valid() && k.Valid() && z.Valid() && date == d.Text() && t == k.Text() + z.Text()
    requires s == date + ([sep] + t) && |s| >= 7 && ReadsAs(Slice(s, 0, Separator(s)), read)
    ensures Separates(d.form, sep) ==>
              d.Means(read) && ReadAfterDate(s, Separator(s), read) == Assembled(read, k.Value(), z.Offset())
    ensures forall m :: d.Means(m) && Assembled(m, k.Value(), z.Offset()).Ok? ==>
              (ReadAfterDate(s, Separator(s), read) == Assembled(m, k.Value(), z.Offset()) <==> Separates(d.form, sep))
  {
    SplitOf(s, d, date, sep, t, k, z);
    if Separates(d.form, sep) {
      WrittenDateReads(d, date, read);
      AfterDateReads(s, d.form.Length(), read, t, k.Text(), k, z);
      forall m | d.Means(m) ensures m == read {
        MeansOne(d, m, read);
      }
    } else {
      forall m | d.Means(m) && Assembled(m, k.Value(), z.Offset()).Ok?
        ensures ReadAfterDate(s, Separator(s), read) != Assembled(m, k.Value(), z.Offset())
      {
        ReadOtherwise(s, d, date, sep, t, k, z, read, m);
      }
    }
  }

  lemma {:induction false} ReadOtherwise(s: string, d: WrittenDate, date: string, sep: char, t: string,
                                         k: ClockForm, z: Zone, read: Result<Date>, m: Result<Date>)
    requires d.Valid() && k.Valid() && z.Valid() && date == d.Text() && t == k.Text() + z.Text()
    requires s == date + ([sep] + t) && |date| == d.form.Length() && d.form.Starts(s) && !Separates(d.form, sep)
    requires d.Means(m) && Assembled(m, k.Value(), z.Offset()).Ok?
    ensures ReadAfterDate(s, Separator(s), read) != Assembled(m, k.Value(), z.Offset())
  {
    SplitEarly(s, d, date, sep, t);
    NotAsMeant(s, k.Text(), k, z, date[9], sep, read, Assembled(m, k.Value(), z.Offset()).value);
  }

  /** The digit 5 after the second day of a week: it is taken for a part of the hour 25. */
  method DigitSeparator() returns (r: Result<DateTime>)
    ensures r == ValueError
  {
    var s := "2011-W01-2500";
    r := FromIsoFormat(s);
    assert Separator(s) == 8;
    ghost var read :| ReadsAs(Slice(s, 0, 8), read) && r == ReadAfterDate(s, 8, read);
    HourTooLarge(s, read);
  }

  lemma {:induction false} HourTooLarge(s: string, read: Result<Date>)
    requires |s| == 13 && s[9..] == "2500" && !read.AssertionError?
    ensures ReadAfterDate(s, 8, read) == ValueError
  {
    var t := s[9..];
    assert Slice(s, 9, 13) == t;
    TwoDigitInt(t[0..2]);
    TwoDigitInt(t[2..4]);
    ClockReads(t, false, 2, Comps(25, 0, 0, 0));
    FindNoZone(t);
  }

  /** A date alone is midnight of that day. */
  method ReadDateForm(d: WrittenDate) returns (r: Result<DateTime>)
    requires d.Valid()
    ensures exists date :: d.Means(date) && r == Assembled(date, NO_COMPS, Ok(None))
  {
    var s := d.Text();
    DateAlone(d, s);
    r := FromIsoFormat(s);
    ghost var read :| ReadsAs(s, read) && r == ReadAfterDate(s, |s|, read);
    WrittenDateReads(d, s, read);
    NothingAfter(s, read);
  }

  lemma {:induction false} DateAlone(d: WrittenDate, s: string)
    requires d.Valid() && s == d.Text()
    ensures |s| >= 7 && Separator(s) == |s| && Slice(s, 0, |s|) == s
  {
    WrittenDateReads(d, s, ValueError);
    SeparatorEndsDate(s, d.form);
    assert s[d.form.Length()..] == "";
  }

  lemma NothingAfter(s: string, read: Result<Date>)
    requires !read.AssertionError?
    ensures ReadAfterDate(s, |s|, read) == Assembled(read, NO_COMPS, Ok(None))
  {
  }
}
