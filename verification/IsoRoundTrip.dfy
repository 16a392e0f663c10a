/** Reading back what was printed. */
module IsoRoundTrip {
  import opened Powers
  import opened DigitStrings
  import opened PythonText
  import opened Calendar
  import IsoWeek
  import opened IsoText
  import opened IsoForms

  // ----- time

  /** What a time specification keeps of a time */
  function Truncated(t: Time, spec: TimeSpec): Time {
    match spec
    case Hours => Time(t.hour, 0, 0, 0)
    case Minutes => Time(t.hour, t.minute, 0, 0)
    case Seconds => Time(t.hour, t.minute, t.second, 0)
    case Milliseconds => Time(t.hour, t.minute, t.second, t.micro - t.micro % 1000)
    case Microseconds | Auto => t
  }

  function CompsOf(t: Time): Comps {
    Comps(t.hour, t.minute, t.second, t.micro)
  }

  /** The form in which a time is printed */
  function FormOf(t: Time, spec: TimeSpec): ClockForm
    requires t.Valid()
  {
    match Resolved(t, spec)
    case Hours => ClockForm(true, 1, t.hour, t.minute, t.second, '.', "")
    case Minutes => ClockForm(true, 2, t.hour, t.minute, t.second, '.', "")
    case Milliseconds => ClockForm(true, 3, t.hour, t.minute, t.second, '.', Pad(t.micro / 1000, 3))
    case Microseconds => ClockForm(true, 3, t.hour, t.minute, t.second, '.', Pad(t.micro, 6))
    case _ => ClockForm(true, 3, t.hour, t.minute, t.second, '.', "")
  }

  lemma {:induction false} PrintedForm(t: Time, spec: TimeSpec)
    requires t.Valid()
    ensures FormOf(t, spec).Valid() && FormatTime(t, spec) == FormOf(t, spec).Text()
    ensures FormOf(t, spec).Value() == CompsOf(Truncated(t, spec))
  {
    SmallPowers();
    PadShape(t.micro / 1000, 3);
    PadShape(t.micro, 6);
    var clock := Pad(t.hour, 2) + ":" + Pad(t.minute, 2) + ":" + Pad(t.second, 2);
    PrintedPieces(clock, Pad(t.micro / 1000, 3));
    PrintedPieces(clock, Pad(t.micro, 6));
    PrintedFraction(t.micro / 1000, 3);
    PrintedFraction(t.micro, 6);
    assert Pow(10, 0) == 1;
  }

  lemma {:induction false} PrintedFraction(v: nat, w: nat)
    requires (w == 3 || w == 6) && v < Pow(10, w)
    ensures AllDigits(Pad(v, w)) && |Pad(v, w)| == w && Pow(10, |Pad(v, w)|) > 0
    ensures ToNat(Pad(v, w)) * 1000000 / Pow(10, |Pad(v, w)|) == if w == 3 then v * 1000 else v
  {
    SmallPowers();
    PadShape(v, w);
  }

  lemma PrintedPieces(clock: string, frac: string)
    ensures clock + "" == clock
    ensures frac != "" ==> clock + "." + frac == clock + (['.'] + frac)
  {
  }

  /** Reading a printed time gives what the printing kept. */
  lemma ReadPrintedTime(t: Time, spec: TimeSpec)
    requires t.Valid()
    ensures ReadTime(FormatTime(t, spec)) == Ok(CompsOf(Truncated(t, spec)))
  {
    PrintedForm(t, spec);
    ClockFormReads(FormOf(t, spec));
  }

  // ----- zone

  /** The form in which the magnitude of an offset is printed */
  function OffsetSpec(off: int): TimeSpec {
    var t := OffsetTime(off);
    if t.second == 0 && t.micro == 0 then Minutes else if t.micro == 0 then Seconds else Microseconds
  }

  lemma OffsetTimeValid(off: int)
    requires -MICROS_PER_DAY < off < MICROS_PER_DAY
    ensures OffsetTime(off).Valid() && Micros(CompsOf(OffsetTime(off))) == Abs(off)
    ensures Truncated(OffsetTime(off), OffsetSpec(off)) == OffsetTime(off)
  {
    OffsetParts(Abs(off));
  }

  lemma OffsetParts(n: nat)
    requires n < MICROS_PER_DAY
    ensures var h, m, s, u := n / 3600000000, n % 3600000000 / 60000000, n % 60000000 / 1000000, n % 1000000;
      && 0 <= h < 24 && 0 <= m < 60 && 0 <= s < 60 && 0 <= u < 1000000
      && (h * 3600 + m * 60 + s) * 1000000 + u == n
  {
  }

  lemma FormatOffsetIsTime(off: int)
    requires -MICROS_PER_DAY < off < MICROS_PER_DAY
    ensures OffsetTime(off).Valid()
    ensures FormatOffset(Some(off)) == [if off < 0 then '-' else '+'] + FormatTime(OffsetTime(off), OffsetSpec(off))
  {
    OffsetTimeValid(off);
    var t := OffsetTime(off);
    JoinPieces(if off < 0 then "-" else "+", Pad(t.hour, 2), Pad(t.minute, 2), Pad(t.second, 2), Pad(t.micro, 6));
  }

  lemma JoinPieces(sign: string, h: string, m: string, x: string, f: string)
    ensures sign + h + ":" + m + "" == sign + (h + ":" + m)
    ensures sign + h + ":" + m + (":" + x + "") == sign + (h + ":" + m + ":" + x)
    ensures sign + h + ":" + m + (":" + x + ("." + f)) == sign + (h + ":" + m + ":" + x + "." + f)
  {
  }

  /** The zone a printed offset is written as */
  function ZoneOf(offset: Option<int>): Zone
    requires offset.Some? ==> -MICROS_PER_DAY < offset.value < MICROS_PER_DAY
  {
    if offset.None? then Naive
    else
      OffsetTimeValid(offset.value);
      Shifted(offset.value < 0, FormOf(OffsetTime(offset.value), OffsetSpec(offset.value)))
  }

  lemma {:induction false} PrintedZone(offset: Option<int>)
    requires offset.Some? ==> -MICROS_PER_DAY < offset.value < MICROS_PER_DAY
    ensures ZoneOf(offset).Valid() && FormatOffset(offset) == ZoneOf(offset).Text()
    ensures ZoneOf(offset).Offset() == Ok(offset)
  {
    if offset.Some? {
      OffsetTimeValid(offset.value);
      FormatOffsetIsTime(offset.value);
      PrintedForm(OffsetTime(offset.value), OffsetSpec(offset.value));
    }
  }

  /** Reading a printed time with its offset gives both back. */
  lemma {:induction false} ReadPrintedZoned(t: Time, spec: TimeSpec, offset: Option<int>)
    requires t.Valid() && (offset.Some? ==> -MICROS_PER_DAY < offset.value < MICROS_PER_DAY)
    ensures ReadIsoTime(FormatTime(t, spec) + FormatOffset(offset))
         == Ok(ZonedComps(CompsOf(Truncated(t, spec)), offset))
    ensures |FormatTime(t, spec)| >= 2
  {
    var a := FormatTime(t, spec);
    PrintedForm(t, spec);
    PrintedZone(offset);
    ReadPrintedTime(t, spec);
    ClockFormText(FormOf(t, spec));
    ZoneReads(a + FormatOffset(offset), a, ZoneOf(offset));
  }

  // ----- date and time

  lemma {:induction false} DateText(d: Date)
    requires IsDate(d)
    ensures |FormatDate(d)| == 10 && ReadDate(FormatDate(d)) == Ok(d)
    ensures FormatDate(d)[4] == '-' && FormatDate(d)[5] != 'W'
  {
    var w := WrittenDate(DateForm.Calendar(true), d.year, d.month, d.day);
    WrittenDateReads(w, FormatDate(d), Ok(d));
    assert IsDigit(FormatDate(d)[5..7][0]);
  }

  /** Whatever separates date and time, the text of a date and time is read back. */
  lemma ReadPrinted(dt: DateTime, sep: char, spec: TimeSpec)
    requires dt.Valid()
    ensures var s := IsoFormat(dt, sep, spec);
      |s| >= 7 && !WeekForm(s) && ReadDateTime(s) == Ok(dt.(time := Truncated(dt.time, spec)))
  {
    var d, a, b := FormatDate(dt.date), FormatTime(dt.time, spec), FormatOffset(dt.offset);
    DateText(dt.date);
    ReadPrintedZoned(dt.time, spec, dt.offset);
    var z := ZonedComps(CompsOf(Truncated(dt.time, spec)), dt.offset);
    ReadJoined(d, sep, a + b, dt.date, z);
    CheckedPrinted(dt, spec);
    JoinedText(d, sep, a, b);
  }

  lemma JoinedText(d: string, sep: char, a: string, b: string)
    ensures d + [sep] + a + b == d + [sep] + (a + b)
  {
  }

  lemma CheckedPrinted(dt: DateTime, spec: TimeSpec)
    requires dt.Valid()
    ensures Checked(dt.date, ZonedComps(CompsOf(Truncated(dt.time, spec)), dt.offset))
      == Ok(dt.(time := Truncated(dt.time, spec)))
  {
  }

  /** Without a specification nothing is cut. */
  lemma AutoKeepsAll(t: Time)
    requires t.Valid()
    ensures ReadTime(FormatTime(t, Auto)) == Ok(CompsOf(t))
  {
    ReadPrintedTime(t, Auto);
  }

  lemma ReadJoined(d: string, sep: char, t: string, date: Date, z: ZonedComps)
    requires |d| == 10 && d[4] == '-' && d[5] != 'W' && ReadDate(d) == Ok(date)
    requires t != "" && ReadIsoTime(t) == Ok(z)
    ensures !WeekForm(d + [sep] + t) && ReadDateTime(d + [sep] + t) == Checked(date, z)
  {
    var s := d + [sep] + t;
    assert s[4] == d[4] && s[5] == d[5];
    assert Slice(s, 0, 10) == d && Slice(s, 11, |s|) == t;
  }

  /** fromisoformat(isoformat()) recovers every field the format keeps, and the offset. */
  method PrintAndRead(dt: DateTime, sep: char, spec: TimeSpec) returns (r: Result<DateTime>)
    requires dt.Valid()
    ensures r == Ok(dt.(time := Truncated(dt.time, spec)))
    ensures spec == Auto || spec == Microseconds ==> r == Ok(dt)
  {
    ReadPrinted(dt, sep, spec);
    r := FromIsoFormat(IsoFormat(dt, sep, spec));
  }
}
