/** What printing writes, character by character. */
module IsoPrinted {
  import opened Powers
  import opened DigitStrings
  import opened PythonText
  import opened Calendar
  import opened IsoText
  import opened IsoForms

  /** Two digits at i, of the value v */
  predicate TwoAt(s: string, i: nat, v: int) {
    && i + 2 <= |s| && IsDigit(s[i]) && IsDigit(s[i + 1])
    && 10 * DigitValue(s[i]) + DigitValue(s[i + 1]) == v
  }

  /** Nothing but digits from i on, of the value v */
  predicate DigitsFrom(s: string, i: nat, v: int) {
    i <= |s| && AllDigits(s[i..]) && ToNat(s[i..]) == v
  }

  function TimeLength(t: Time, spec: TimeSpec): nat {
    match spec
    case Hours => 2
    case Minutes => 5
    case Seconds => 8
    case Milliseconds => 12
    case Microseconds => 15
    case Auto => if t.micro == 0 then 8 else 15
  }

  /** Hours, and as the specification asks minutes, seconds and a fraction */
  predicate TimeShape(t: Time, spec: TimeSpec, s: string) {
    && |s| == TimeLength(t, spec) && TwoAt(s, 0, t.hour)
    && (|s| > 2 ==> s[2] == ':' && TwoAt(s, 3, t.minute))
    && (|s| > 5 ==> s[5] == ':' && TwoAt(s, 6, t.second))
    && (|s| > 8 ==> s[8] == '.' && DigitsFrom(s, 9, if |s| == 12 then t.micro / 1000 else t.micro))
  }

  function OffsetLength(offset: Option<int>): nat {
    if offset.None? then 0
    else if offset.value % 60000000 == 0 then 6
    else if offset.value % 1000000 == 0 then 9
    else 16
  }

  /** Nothing, or a sign, hours and minutes, and where they are needed seconds and microseconds */
  predicate OffsetShape(offset: Option<int>, s: string) {
    && |s| == OffsetLength(offset)
    && (|s| > 0 ==>
          var n := Abs(offset.value);
          && s[0] == (if offset.value < 0 then '-' else '+')
          && TwoAt(s, 1, n / 3600000000) && s[3] == ':' && TwoAt(s, 4, n / 60000000 % 60)
          && (|s| > 6 ==> s[6] == ':' && TwoAt(s, 7, n / 1000000 % 60))
          && (|s| > 9 ==> s[9] == '.' && DigitsFrom(s, 10, n % 1000000)))
  }

  predicate DateShape(d: Date, s: string) {
    && |s| == 10 && AllDigits(s[..4]) && ToNat(s[..4]) == d.year
    && s[4] == '-' && TwoAt(s, 5, d.month) && s[7] == '-' && TwoAt(s, 8, d.day)
  }

  /** A date, the separator, a time and an offset */
  predicate IsoShape(dt: DateTime, sep: char, spec: TimeSpec, s: string) {
    var k := 11 + TimeLength(dt.time, spec);
    && |s| >= k && DateShape(dt.date, s[..10]) && s[10] == sep
    && TimeShape(dt.time, spec, s[11..k]) && OffsetShape(dt.offset, s[k..])
  }

  // ----- digits

  lemma {:induction false} TwoPadded(n: nat, p: string)
    requires n < 100 && p == Pad(n, 2)
    ensures |p| == 2 && TwoAt(p, 0, n)
  {
    SmallPowers();
    PadShape(n, 2);
    var q := p[..1];
    assert q[..0] == "";
    assert ToNat(q) == DigitValue(p[0]);
  }

  lemma {:induction false} TwoAtMoved(p: string, s: string, i: nat, v: int)
    requires |p| == 2 && TwoAt(p, 0, v) && i + 2 <= |s| && s[i..i + 2] == p
    ensures TwoAt(s, i, v)
  {
    assert s[i] == p[0] && s[i + 1] == p[1];
  }

  lemma {:induction false} TwoAtUnique(s: string, s': string, i: nat, v: int)
    requires TwoAt(s, i, v) && TwoAt(s', i, v)
    ensures s[i] == s'[i] && s[i + 1] == s'[i + 1]
  {
  }

  lemma {:induction false} DigitsFromUnique(s: string, s': string, i: nat, v: int)
    requires DigitsFrom(s, i, v) && DigitsFrom(s', i, v) && |s| == |s'|
    ensures s[i..] == s'[i..]
  {
    ToNatInjective(s[i..], s'[i..]);
  }

  // ----- times

  lemma {:induction false} FormatTimeShape(t: Time, spec: TimeSpec)
    requires t.Valid()
    ensures TimeShape(t, spec, FormatTime(t, spec))
  {
    var h, m, x := Pad(t.hour, 2), Pad(t.minute, 2), Pad(t.second, 2);
    TwoPadded(t.hour, h);
    TwoPadded(t.minute, m);
    TwoPadded(t.second, x);
    SmallPowers();
    PadShape(t.micro / 1000, 3);
    PadShape(t.micro, 6);
    var f := if spec == Milliseconds then Pad(t.micro / 1000, 3) else Pad(t.micro, 6);
    ShapeOfPieces(t, spec, h, m, x, f, FormatTime(t, spec));
  }

  lemma {:induction false} ShapeOfPieces(t: Time, spec: TimeSpec, h: string, m: string, x: string, f: string, s: string)
    requires |h| == 2 && TwoAt(h, 0, t.hour) && |m| == 2 && TwoAt(m, 0, t.minute) && |x| == 2 && TwoAt(x, 0, t.second)
    requires AllDigits(f) && |f| == (if spec == Milliseconds then 3 else 6)
    requires ToNat(f) == if spec == Milliseconds then t.micro / 1000 else t.micro
    requires s == match TimeLength(t, spec)
                  case 2 => h
                  case 5 => h + ":" + m
                  case 8 => h + ":" + m + ":" + x
                  case _ => h + ":" + m + ":" + x + "." + f
    ensures TimeShape(t, spec, s)
  {
    assert s[0..2] == h;
    TwoAtMoved(h, s, 0, t.hour);
    if |s| > 2 {
      assert s[3..5] == m;
      TwoAtMoved(m, s, 3, t.minute);
    }
    if |s| > 5 {
      assert s[6..8] == x;
      TwoAtMoved(x, s, 6, t.second);
    }
    if |s| > 8 {
      assert s[9..] == f;
    }
  }

  /** One text has the shape of a time. */
  lemma {:induction false} TimeShapeUnique(t: Time, spec: TimeSpec, s: string, s': string)
    requires TimeShape(t, spec, s) && TimeShape(t, spec, s')
    ensures s == s'
  {
    TwoAtUnique(s, s', 0, t.hour);
    if |s| > 2 {
      TwoAtUnique(s, s', 3, t.minute);
    }
    if |s| > 5 {
      TwoAtUnique(s, s', 6, t.second);
    }
    if |s| > 8 {
      DigitsFromUnique(s, s', 9, if |s| == 12 then t.micro / 1000 else t.micro);
      assert s == s[..9] + s[9..] && s' == s'[..9] + s'[9..];
    }
  }

  // ----- offsets

  lemma OffsetFields(off: int)
    requires -MICROS_PER_DAY < off < MICROS_PER_DAY
    ensures var t, n := OffsetTime(off), Abs(off);
      && t.Valid() && t.hour == n / 3600000000 && t.minute == n / 60000000 % 60 && t.second == n / 1000000 % 60
      && t.micro == n % 1000000
    ensures var t := OffsetTime(off); t.second == 0 && t.micro == 0 <==> off % 60000000 == 0
    ensures OffsetTime(off).micro == 0 <==> off % 1000000 == 0
  {
    var n := Abs(off);
    OffsetPlaces(n);
    SameRemainder(off, n, 60000000);
    SameRemainder(off, n, 1000000);
  }

  lemma OffsetPlaces(n: nat)
    ensures n % 3600000000 / 60000000 == n / 60000000 % 60
    ensures n % 60000000 / 1000000 == n / 1000000 % 60
    ensures n % 60000000 == n % 60000000 / 1000000 * 1000000 + n % 1000000
  {
    Places(n, 60000000, n / 3600000000, n % 3600000000);
    Places(n, 1000000, n / 60000000, n % 60000000);
  }

  /** A remainder by sixty units, split into units */
  lemma Places(n: nat, unit: nat, h: nat, r: nat)
    requires (unit == 60000000 || unit == 1000000) && n == 60 * unit * h + r && r < 60 * unit
    ensures r / unit == n / unit % 60 && r == r / unit * unit + n % unit
  {
    var m, u := r / unit, r % unit;
    DivModUnique(n, unit, 60 * h + m, u);
    DivModUnique(60 * h + m, 60, h, m);
  }

  lemma SameRemainder(off: int, n: nat, unit: nat)
    requires n == Abs(off) && (unit == 60000000 || unit == 1000000)
    ensures off % unit == 0 <==> n % unit == 0
  {
    var q, r := n / unit, n % unit;
    if off < 0 && r > 0 {
      DivModUnique(off, unit, 0 - q - 1, unit - r);
    } else if off < 0 {
      DivModUnique(off, unit, 0 - q, 0);
    }
  }

  lemma {:induction false} FormatOffsetShape(offset: Option<int>)
    requires offset.Some? ==> -MICROS_PER_DAY < offset.value < MICROS_PER_DAY
    ensures OffsetShape(offset, FormatOffset(offset))
  {
    if offset.Some? {
      var t := OffsetTime(offset.value);
      OffsetFields(offset.value);
      TwoPadded(t.hour, Pad(t.hour, 2));
      TwoPadded(t.minute, Pad(t.minute, 2));
      TwoPadded(t.second, Pad(t.second, 2));
      SmallPowers();
      PadShape(t.micro, 6);
      OffsetOfPieces(offset.value, t, if offset.value < 0 then "-" else "+", Pad(t.hour, 2), Pad(t.minute, 2),
                     Pad(t.second, 2), Pad(t.micro, 6), FormatOffset(offset));
    }
  }

  lemma {:induction false} OffsetOfPieces(off: int, t: Time, sign: string, h: string, m: string, x: string, f: string,
                                          s: string)
    requires |h| == 2 && TwoAt(h, 0, t.hour) && |m| == 2 && TwoAt(m, 0, t.minute) && |x| == 2 && TwoAt(x, 0, t.second)
    requires |f| == 6 && AllDigits(f) && ToNat(f) == t.micro && sign == if off < 0 then "-" else "+"
    requires var n := Abs(off);
      && t.hour == n / 3600000000 && t.minute == n / 60000000 % 60 && t.second == n / 1000000 % 60
      && t.micro == n % 1000000
    requires s == match OffsetLength(Some(off))
                  case 6 => sign + h + ":" + m + ""
                  case 9 => sign + h + ":" + m + (":" + x + "")
                  case _ => sign + h + ":" + m + (":" + x + ("." + f))
    ensures OffsetShape(Some(off), s)
  {
    assert s[1..3] == h && s[4..6] == m;
    TwoAtMoved(h, s, 1, t.hour);
    TwoAtMoved(m, s, 4, t.minute);
    if |s| > 6 {
      assert s[7..9] == x;
      TwoAtMoved(x, s, 7, t.second);
    }
    if |s| > 9 {
      assert s[10..] == f;
    }
  }

  lemma {:induction false} OffsetShapeUnique(offset: Option<int>, s: string, s': string)
    requires OffsetShape(offset, s) && OffsetShape(offset, s')
    ensures s == s'
  {
    if |s| > 0 {
      var n := Abs(offset.value);
      TwoAtUnique(s, s', 1, n / 3600000000);
      TwoAtUnique(s, s', 4, n / 60000000 % 60);
      if |s| > 6 {
        TwoAtUnique(s, s', 7, n / 1000000 % 60);
      }
      if |s| > 9 {
        DigitsFromUnique(s, s', 10, n % 1000000);
        assert s == s[..10] + s[10..] && s' == s'[..10] + s'[10..];
      }
    }
  }

  // ----- dates, and the whole

  lemma {:induction false} FormatDateShape(d: Date)
    requires IsDate(d)
    ensures DateShape(d, FormatDate(d))
  {
    var y, m, x, s := Pad(d.year, 4), Pad(d.month, 2), Pad(d.day, 2), FormatDate(d);
    SmallPowers();
    PadShape(d.year, 4);
    TwoPadded(d.month, m);
    TwoPadded(d.day, x);
    assert s[..4] == y && s[5..7] == m && s[8..10] == x;
    TwoAtMoved(m, s, 5, d.month);
    TwoAtMoved(x, s, 8, d.day);
  }

  lemma {:induction false} DateShapeUnique(d: Date, s: string, s': string)
    requires DateShape(d, s) && DateShape(d, s')
    ensures s == s'
  {
    ToNatInjective(s[..4], s'[..4]);
    TwoAtUnique(s, s', 5, d.month);
    TwoAtUnique(s, s', 8, d.day);
    assert s == s[..4] + s[4..] && s' == s'[..4] + s'[4..];
  }

  lemma {:induction false} JoinedShape(dt: DateTime, sep: char, spec: TimeSpec, a: string, b: string, c: string,
                                       s: string)
    requires DateShape(dt.date, a) && TimeShape(dt.time, spec, b) && OffsetShape(dt.offset, c) && s == a + [sep] + b + c
    ensures IsoShape(dt, sep, spec, s)
  {
    var k := 11 + TimeLength(dt.time, spec);
    assert s[..10] == a && s[11..k] == b && s[k..] == c;
  }

  lemma {:induction false} IsoShapeUnique(dt: DateTime, sep: char, spec: TimeSpec, s: string, s': string)
    requires IsoShape(dt, sep, spec, s) && IsoShape(dt, sep, spec, s')
    ensures s == s'
  {
    var k := 11 + TimeLength(dt.time, spec);
    DateShapeUnique(dt.date, s[..10], s'[..10]);
    TimeShapeUnique(dt.time, spec, s[11..k], s'[11..k]);
    OffsetShapeUnique(dt.offset, s[k..], s'[k..]);
    Reassembled(s, k);
    Reassembled(s', k);
  }

  lemma Reassembled(s: string, k: nat)
    requires 11 <= k <= |s|
    ensures s == s[..10] + [s[10]] + s[11..k] + s[k..]
  {
  }

  /** The printed text is the one text of that shape. */
  lemma {:induction false} IsoFormatMeans(dt: DateTime, sep: char, spec: TimeSpec, s: string)
    requires dt.Valid()
    ensures s == IsoFormat(dt, sep, spec) <==> IsoShape(dt, sep, spec, s)
  {
    FormatDateShape(dt.date);
    FormatTimeShape(dt.time, spec);
    FormatOffsetShape(dt.offset);
    var a, b, c := FormatDate(dt.date), FormatTime(dt.time, spec), FormatOffset(dt.offset);
    JoinedShape(dt, sep, spec, a, b, c, IsoFormat(dt, sep, spec));
    if IsoShape(dt, sep, spec, s) {
      IsoShapeUnique(dt, sep, spec, s, IsoFormat(dt, sep, spec));
    }
  }
}
