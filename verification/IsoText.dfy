/** Printing dates and times in ISO 8601 form, and reading them back. */
module IsoText {
  import opened Powers
  import opened DigitStrings
  import opened PythonText
  import opened Calendar
  import IsoWeek

  datatype Time = Time(hour: int, minute: int, second: int, micro: int) {
    predicate Valid() {
      0 <= hour < 24 && 0 <= minute < 60 && 0 <= second < 60 && 0 <= micro < 1000000
    }
  }

  datatype TimeSpec = Auto | Hours | Minutes | Seconds | Milliseconds | Microseconds

  const MICROS_PER_SECOND := 1000000
  const MICROS_PER_DAY := 24 * 3600 * 1000000

  /** A date and time, with the offset from UTC in microseconds unless it is naive */
  datatype DateTime = DateTime(date: Date, time: Time, offset: Option<int>) {
    predicate Valid() {
      && IsDate(date) && time.Valid()
      && (offset.Some? ==> -MICROS_PER_DAY < offset.value < MICROS_PER_DAY)
    }
  }

  /** The dates a date object can hold */
  predicate IsDate(d: Date) {
    ValidDate(d) && IsoWeek.MINYEAR <= d.year <= IsoWeek.MAXYEAR
  }

  /** AssertionError is what a date part of unexpected length runs into. */
  datatype Result<T> = Ok(value: T) | ValueError | AssertionError

  // ----- printing

  function Resolved(t: Time, spec: TimeSpec): TimeSpec {
    if spec == Auto then if t.micro != 0 then Microseconds else Seconds else spec
  }

  function FormatTime(t: Time, spec: TimeSpec): string
    requires t.Valid()
  {
    match Resolved(t, spec)
    case Hours => Pad(t.hour, 2)
    case Minutes => Pad(t.hour, 2) + ":" + Pad(t.minute, 2)
    case Milliseconds =>
      Pad(t.hour, 2) + ":" + Pad(t.minute, 2) + ":" + Pad(t.second, 2) + "." + Pad(t.micro / 1000, 3)
    case Microseconds =>
      Pad(t.hour, 2) + ":" + Pad(t.minute, 2) + ":" + Pad(t.second, 2) + "." + Pad(t.micro, 6)
    case _ => Pad(t.hour, 2) + ":" + Pad(t.minute, 2) + ":" + Pad(t.second, 2)
  }

  /** The hours, minutes, seconds and microseconds of the magnitude of an offset */
  function OffsetTime(off: int): Time {
    var n := Abs(off);
    Time(n / (3600 * MICROS_PER_SECOND), n % (3600 * MICROS_PER_SECOND) / (60 * MICROS_PER_SECOND),
         n % (60 * MICROS_PER_SECOND) / MICROS_PER_SECOND, n % MICROS_PER_SECOND)
  }

  function FormatOffset(offset: Option<int>): string
    requires offset.Some? ==> -MICROS_PER_DAY < offset.value < MICROS_PER_DAY
  {
    if offset.None? then ""
    else
      var t := OffsetTime(offset.value);
      (if offset.value < 0 then "-" else "+")
      + Pad(t.hour, 2) + ":" + Pad(t.minute, 2)
      + if t.second == 0 && t.micro == 0 then ""
        else ":" + Pad(t.second, 2) + if t.micro == 0 then "" else "." + Pad(t.micro, 6)
  }

  function FormatDate(d: Date): string
    requires d.year >= 0 && ValidDate(d)
  {
    Pad(d.year, 4) + "-" + Pad(d.month, 2) + "-" + Pad(d.day, 2)
  }

  function IsoFormat(dt: DateTime, sep: char, spec: TimeSpec): string
    requires dt.Valid()
  {
    FormatDate(dt.date) + [sep] + FormatTime(dt.time, spec) + FormatOffset(dt.offset)
  }

  // ----- reading: the specification of the loop over the components

  /** A fraction of k digits, in microseconds */
  function Corrected(v: int, k: nat): int
    requires 1 <= k <= 6
  {
    if k == 1 then v * 100000
    else if k == 2 then v * 10000
    else if k == 3 then v * 1000
    else if k == 4 then v * 100
    else if k == 5 then v * 10
    else v
  }

  /** The list time_comps */
  datatype Comps = Comps(hour: int, minute: int, second: int, micro: int) {
    /** time_comps[comp] = v */
    function With(comp: nat, v: int): Comps
      requires comp < 4
    {
      if comp == 0 then this.(hour := v)
      else if comp == 1 then this.(minute := v)
      else if comp == 2 then this.(second := v)
      else this.(micro := v)
    }
  }

  const NO_COMPS := Comps(0, 0, 0, 0)

  /** The components read so far, and where the reading stopped */
  datatype Fields = Fields(comps: Comps, pos: nat)

  /** Reads the component number comp at pos and the ones after it. */
  function ReadFields(s: string, comp: nat, pos: nat, hasSep: bool, comps: Comps): Result<Fields>
    requires comp < 3
    decreases 3 - comp
  {
    if |s| - pos < 2 then ValueError
    else
      var v := PyInt(s[pos..pos + 2]);
      if v.None? then ValueError
      else
        var comps', next := comps.With(comp, v.value), Slice(s, pos + 2, pos + 3);
        var sep := if comp == 0 then next == ":" else hasSep;
        if next == "" || comp >= 2 then Ok(Fields(comps', pos + 2))
        else if sep && next != ":" then ValueError
        else ReadFields(s, comp + 1, pos + 2 + (if sep then 1 else 0), sep, comps')
  }

  /** Reads the fraction of a second, if there is one. */
  function ReadFraction(s: string, f: Fields): Result<Comps>
  {
    if f.pos >= |s| then Ok(f.comps)
    else if s[f.pos] !in ".," then ValueError
    else
      var pos := f.pos + 1;
      var rest := |s| - pos;
      var toParse := if rest >= 6 then 6 else rest;
      var v := PyInt(s[pos..pos + toParse]);
      if v.None? then ValueError
      else if rest > toParse && !AllDigits(s[pos + toParse..]) then ValueError
      else
        NoIntIsEmpty(s[pos..pos + toParse]);
        Ok(f.comps.With(3, Corrected(v.value, toParse)))
  }

  function ReadTime(s: string): Result<Comps> {
    var f := ReadFields(s, 0, 0, false, NO_COMPS);
    if !f.Ok? then ValueError else ReadFraction(s, f.value)
  }

  // ----- reading: the methods

  lemma NoIntIsEmpty(s: string)
    requires PyInt(s).Some?
    ensures s != ""
  {
  }

  /** The loop over hours, minutes and seconds */
  method ParseComponents(tstr: string) returns (r: Result<Fields>)
    ensures r == ReadFields(tstr, 0, 0, false, NO_COMPS)
  {
    var comps, pos, hasSep := NO_COMPS, 0, false;
    var comp := 0;
    while true
      invariant pos >= 0 && 0 <= comp < 3
      invariant ReadFields(tstr, 0, 0, false, NO_COMPS) == ReadFields(tstr, comp, pos, hasSep, comps)
      decreases 3 - comp
    {
      if |tstr| - pos < 2 {
        return ValueError;
      }
      var v := PyInt(tstr[pos..pos + 2]);
      if v.None? {
        return ValueError;
      }
      comps := comps.With(comp, v.value);
      pos := pos + 2;
      var nextChar := Slice(tstr, pos, pos + 1);
      if comp == 0 {
        hasSep := nextChar == ":";
      }
      if nextChar == "" || comp >= 2 {
        return Ok(Fields(comps, pos));
      }
      if hasSep && nextChar != ":" {
        return ValueError;
      }
      pos := pos + if hasSep then 1 else 0;
      comp := comp + 1;
    }
  }

  /** The fraction of a second after the components */
  method ParseFraction(tstr: string, f: Fields) returns (r: Result<Comps>)
    ensures r == ReadFraction(tstr, f)
  {
    if f.pos >= |tstr| {
      return Ok(f.comps);
    }
    if tstr[f.pos] !in ".," {
      return ValueError;
    }
    var pos := f.pos + 1;
    var lenRemainder := |tstr| - pos;
    var toParse := if lenRemainder >= 6 then 6 else lenRemainder;
    var v := PyInt(tstr[pos..pos + toParse]);
    if v.None? {
      return ValueError;
    }
    NoIntIsEmpty(tstr[pos..pos + toParse]);
    if lenRemainder > toParse && !AllDigits(tstr[pos + toParse..]) {
      return ValueError;
    }
    r := Ok(f.comps.With(3, Corrected(v.value, toParse)));
  }

  method ParseHhMmSsFf(tstr: string) returns (r: Result<Comps>)
    ensures r == ReadTime(tstr)
  {
    var f := ParseComponents(tstr);
    if !f.Ok? {
      return ValueError;
    }
    r := ParseFraction(tstr, f.value);
  }

  // ----- time and zone

  /** One past the position of the sign or letter that starts the zone, or 0 */
  function TzPos(s: string): (k: nat)
    ensures k <= |s|
  {
    if Find(s, '-') >= 0 then Find(s, '-') + 1
    else if Find(s, '+') >= 0 then Find(s, '+') + 1
    else Find(s, 'Z') + 1
  }

  function Micros(c: Comps): int {
    (c.hour * 3600 + c.minute * 60 + c.second) * MICROS_PER_SECOND + c.micro
  }

  /** A time with the offset of its zone, in microseconds */
  datatype ZonedComps = ZonedComps(comps: Comps, offset: Option<int>)

  function ReadZone(s: string, tzPos: nat): Result<Option<int>>
    requires tzPos <= |s|
  {
    if tzPos == 0 then Ok(None)
    else if tzPos == |s| && s[|s| - 1] == 'Z' then Ok(Some(0))
    else
      var tz := s[tzPos..];
      if |tz| == 0 || |tz| == 1 || |tz| == 3 then ValueError
      else
        var c := ReadTime(tz);
        if !c.Ok? then ValueError
        else if c.value == NO_COMPS then Ok(Some(0))
        else
          var off := if s[tzPos - 1] == '-' then -Micros(c.value) else Micros(c.value);
          if -MICROS_PER_DAY < off < MICROS_PER_DAY then Ok(Some(off)) else ValueError
  }

  function ReadIsoTime(s: string): Result<ZonedComps> {
    if |s| < 2 then ValueError
    else
      var k := TzPos(s);
      var c := ReadTime(if k > 0 then s[..k - 1] else s);
      if !c.Ok? then ValueError
      else
        var z := ReadZone(s, k);
        if !z.Ok? then ValueError else Ok(ZonedComps(c.value, z.value))
  }

  method ParseIsoTime(tstr: string) returns (r: Result<ZonedComps>)
    ensures r == ReadIsoTime(tstr)
  {
    if |tstr| < 2 {
      return ValueError;
    }
    var tzPos := TzPos(tstr);
    var comps := ParseHhMmSsFf(if tzPos > 0 then tstr[..tzPos - 1] else tstr);
    if !comps.Ok? {
      return ValueError;
    }
    var tz := ParseZone(tstr, tzPos);
    if !tz.Ok? {
      return ValueError;
    }
    r := Ok(ZonedComps(comps.value, tz.value));
  }

  method ParseZone(tstr: string, tzPos: nat) returns (r: Result<Option<int>>)
    requires tzPos <= |tstr|
    ensures r == ReadZone(tstr, tzPos)
  {
    if tzPos == 0 {
      return Ok(None);
    }
    if tzPos == |tstr| && tstr[|tstr| - 1] == 'Z' {
      return Ok(Some(0));
    }
    var tzstr := tstr[tzPos..];
    if |tzstr| == 0 || |tzstr| == 1 || |tzstr| == 3 {
      return ValueError;
    }
    var tzComps := ParseHhMmSsFf(tzstr);
    if !tzComps.Ok? {
      return ValueError;
    }
    if tzComps.value == NO_COMPS {
      return Ok(Some(0));
    }
    var sign := if tstr[tzPos - 1] == '-' then -1 else 1;
    var off := sign * Micros(tzComps.value);
    r := if -MICROS_PER_DAY < off < MICROS_PER_DAY then Ok(Some(off)) else ValueError;
  }

  // ----- date and time

  /** Where the run of digits that starts at idx ends */
  function DigitRun(s: string, idx: nat): (k: nat)
    requires idx <= |s|
    ensures idx <= k <= |s|
    decreases |s| - idx
  {
    if idx < |s| && IsDigit(s[idx]) then DigitRun(s, idx + 1) else idx
  }

  /** The position of the character between date and time */
  function Separator(s: string): nat
    requires |s| >= 7
  {
    if |s| == 7 then 7
    else if s[4] == '-' then
      if s[5] == 'W' then
        if |s| > 8 && s[8] == '-' then
          if |s| == 9 then 0
          else if |s| > 10 && IsDigit(s[10]) then 8
          else 10
        else 8
      else 10
    else if s[4] == 'W' then
      var idx := DigitRun(s, 7);
      if idx < 9 then idx else if idx % 2 == 0 then 7 else 8
    else 8
  }

  /** The documented forms of a date: year, month and day, or ISO year, week and perhaps weekday */
  datatype DateForm = Calendar(dashes: bool) | Week(dashes: bool, withDay: bool) {
    function Length(): nat {
      match this
      case Calendar(dashes) => if dashes then 10 else 8
      case Week(dashes, withDay) => if dashes then if withDay then 10 else 8 else if withDay then 8 else 7
    }

    /** The text starts with a date of this form. */
    predicate Starts(s: string) {
      && |s| >= Length() && AllDigits(s[..4])
      && match this
         case Calendar(dashes) =>
           if dashes then s[4] == '-' && AllDigits(s[5..7]) && s[7] == '-' && AllDigits(s[8..10])
           else AllDigits(s[4..8])
         case Week(dashes, withDay) =>
           if dashes then s[4] == '-' && s[5] == 'W' && AllDigits(s[6..8]) && (withDay ==> s[8] == '-' && IsDigit(s[9]))
           else s[4] == 'W' && AllDigits(s[5..7]) && (withDay ==> IsDigit(s[7]))
    }

    /** What may follow a date of this form, so that it ends there and not elsewhere */
    predicate EndsBefore(tail: string) {
      match this
      case Calendar(_) => true
      case Week(dashes, withDay) =>
        if dashes then
          if withDay then tail == "" || !IsDigit(tail[0])
          else tail == "" || tail[0] != '-' || (|tail| > 2 && IsDigit(tail[2]))
        else
          var k := DigitRun(tail, 0);
          k == 0 || (k % 2 == 1 && (k == 1 ==> withDay))
    }
  }

  lemma {:induction false} RunShift(s: string, idx: nat, base: nat)
    requires base <= idx <= |s|
    ensures DigitRun(s, idx) == base + DigitRun(s[base..], idx - base)
    decreases |s| - idx
  {
    if idx < |s| && IsDigit(s[idx]) {
      RunShift(s, idx + 1, base);
    }
  }

  /** The separator is where the date ends, for every documented form and whatever may follow it. */
  lemma SeparatorEndsDate(s: string, f: DateForm)
    requires |s| >= 7 && f.Starts(s)
    ensures Separator(s) == f.Length() <==> f.EndsBefore(s[f.Length()..])
  {
    match f
    case Calendar(dashes) =>
      if dashes {
        assert IsDigit(s[5..7][0]);
      } else {
        assert IsDigit(s[4..8][0]);
      }
    case Week(dashes, withDay) =>
      if !dashes && |s| > 7 {
        RunShift(s, 7, 7);
        if withDay {
          RunShift(s, 8, 8);
        }
      }
  }

  /** The position of the separator, or 0 where the program raises ValueError */
  method FindSeparator(s: string) returns (k: nat)
    requires |s| >= 7
    ensures k == Separator(s)
    ensures forall f: DateForm :: f.Starts(s) ==> (k == f.Length() <==> f.EndsBefore(s[f.Length()..]))
    ensures k == 0 <==> |s| == 9 && s[4] == '-' && s[5] == 'W' && s[8] == '-'
  {
    forall f: DateForm | f.Starts(s) ensures Separator(s) == f.Length() <==> f.EndsBefore(s[f.Length()..]) {
      SeparatorEndsDate(s, f);
    }
    if |s| == 7 {
      return 7;
    }
    if s[4] == '-' {
      if s[5] == 'W' {
        if |s| > 8 && s[8] == '-' {
          if |s| == 9 {
            return 0;
          }
          if |s| > 10 && IsDigit(s[10]) {
            return 8;
          }
          return 10;
        }
        return 8;
      }
      return 10;
    }
    if s[4] == 'W' {
      var idx := 7;
      while idx < |s|
        invariant 7 <= idx <= |s| && DigitRun(s, 7) == DigitRun(s, idx)
      {
        if !IsDigit(s[idx]) {
          break;
        }
        idx := idx + 1;
      }
      if idx < 9 {
        return idx;
      }
      return if idx % 2 == 0 then 7 else 8;
    }
    return 8;
  }

  /** Does the text give a week and a weekday instead of a month and a day? */
  predicate WeekForm(s: string)
    requires |s| >= 7
  {
    s[if s[4] == '-' then 5 else 4] == 'W'
  }

  /** The fields of a calendar date; they are checked when the date is made. */
  function ReadDate(s: string): Result<Date> {
    if |s| !in {7, 8, 10} then AssertionError
    else
      var year, hasSep := PyInt(s[0..4]), s[4] == '-';
      var pos := if hasSep then 5 else 4;
      var month := PyInt(Slice(s, pos, pos + 2));
      if year.None? || month.None? then ValueError
      else if (Slice(s, pos + 2, pos + 3) == "-") != hasSep then ValueError
      else
        var pos' := pos + 2 + if hasSep then 1 else 0;
        var day := PyInt(Slice(s, pos', pos' + 2));
        if day.None? then ValueError else Ok(Date(year.value, month.value, day.value))
  }

  /** The ISO year, week and weekday of a text in week form; the weekday may be missing. */
  function ReadWeek(s: string): Option<IsoWeek.IsoDate>
    requires |s| in {7, 8, 10}
  {
    var year, hasSep := PyInt(s[0..4]), s[4] == '-';
    var pos := if hasSep then 8 else 7;
    var week := PyInt(Slice(s, pos - 2, pos));
    if year.None? || week.None? then None
    else if |s| <= pos then Some(IsoWeek.IsoDate(year.value, week.value, 1))
    else if (Slice(s, pos, pos + 1) == "-") != hasSep then None
    else
      var pos' := pos + if hasSep then 1 else 0;
      var day := PyInt(Slice(s, pos', pos' + 1));
      if day.None? then None else Some(IsoWeek.IsoDate(year.value, week.value, day.value))
  }

  /** What a date text stands for: the calendar fields it gives, or the day with the ISO name it gives. */
  ghost predicate ReadsAs(s: string, r: Result<Date>) {
    if |s| !in {7, 8, 10} then r == AssertionError
    else if !WeekForm(s) then r == ReadDate(s)
    else if ReadWeek(s).None? || !IsoWeek.IsName(ReadWeek(s).value) then r == ValueError
    else r.Ok? && ValidDate(r.value) && IsoWeek.Names(ReadWeek(s).value, Ymd2Ord(r.value))
  }

  /** That determines the result. */
  lemma ReadsAsOne(s: string, r: Result<Date>, r': Result<Date>)
    requires ReadsAs(s, r) && ReadsAs(s, r')
    ensures r == r'
  {
    if r.Ok? && r'.Ok? && ValidDate(r.value) && ValidDate(r'.value) && Ymd2Ord(r.value) == Ymd2Ord(r'.value) {
      OrdinalsInOrder(r.value, r'.value);
      OrdinalsInOrder(r'.value, r.value);
    }
  }

  /** The fields of a date, in either form */
  method ParseDate(s: string) returns (r: Result<Date>)
    ensures ReadsAs(s, r)
  {
    if |s| !in {7, 8, 10} {
      return AssertionError;
    }
    var year := PyInt(s[0..4]);
    if year.None? {
      return ValueError;
    }
    var hasSep := s[4] == '-';
    var pos := 4 + if hasSep then 1 else 0;
    assert s[pos..pos + 1] == [s[pos]];
    if Slice(s, pos, pos + 1) == "W" {
      pos := pos + 1;
      var week := PyInt(Slice(s, pos, pos + 2));
      if week.None? {
        return ValueError;
      }
      pos := pos + 2;
      var day := Some(1);
      if |s| > pos {
        if (Slice(s, pos, pos + 1) == "-") != hasSep {
          return ValueError;
        }
        pos := pos + if hasSep then 1 else 0;
        day := PyInt(Slice(s, pos, pos + 1));
        if day.None? {
          return ValueError;
        }
      }
      var d := IsoWeek.IsoWeekToGregorian(year.value, week.value, day.value);
      r := if d.Ok? then Ok(d.date) else ValueError;
    } else {
      var month := PyInt(Slice(s, pos, pos + 2));
      if month.None? {
        return ValueError;
      }
      pos := pos + 2;
      if (Slice(s, pos, pos + 1) == "-") != hasSep {
        return ValueError;
      }
      pos := pos + if hasSep then 1 else 0;
      var day := PyInt(Slice(s, pos, pos + 2));
      if day.None? {
        return ValueError;
      }
      r := Ok(Date(year.value, month.value, day.value));
    }
  }

  /** The checks made when a date and time object is made */
  function Checked(d: Date, z: ZonedComps): Result<DateTime> {
    var c := z.comps;
    var dt := DateTime(d, Time(c.hour, c.minute, c.second, c.micro), z.offset);
    if dt.Valid() then Ok(dt) else ValueError
  }

  /** The date and time of a text whose date, before the separator at k, reads as d */
  function ReadAfterDate(s: string, k: nat, d: Result<Date>): Result<DateTime> {
    if d.AssertionError? then AssertionError
    else if d.ValueError? then ValueError
    else
      var tstr := Slice(s, k + 1, |s|);
      var z := if tstr != "" then ReadIsoTime(tstr) else Ok(ZonedComps(NO_COMPS, None));
      if !z.Ok? then ValueError else Checked(d.value, z.value)
  }

  function ReadDateTime(s: string): Result<DateTime>
    requires |s| >= 7
  {
    var k := Separator(s);
    if k == 0 then ValueError else ReadAfterDate(s, k, ReadDate(Slice(s, 0, k)))
  }

  /** The date part has a length the date reader expects, except in nine characters with a dash and no week. */
  lemma DateLength(s: string)
    requires |s| >= 7
    ensures Separator(s) > 0 ==>
              (|Slice(s, 0, Separator(s))| !in {7, 8, 10} <==> |s| == 9 && s[4] == '-' && s[5] != 'W')
  {
  }

  lemma DatePart(s: string, k: nat, dstr: string, d: Result<Date>)
    requires |s| >= 7 && k == Separator(s) && k > 0 && dstr == Slice(s, 0, k) && ReadsAs(dstr, d)
    ensures d == AssertionError <==> |s| == 9 && s[4] == '-' && s[5] != 'W'
    ensures !WeekForm(s) ==> d == ReadDate(dstr)
  {
    DateLength(s);
  }

  /** Reads a date and time; the date part is read as ReadsAs says, and in calendar form as ReadDate does. */
  method FromIsoFormat(s: string) returns (r: Result<DateTime>)
    ensures |s| < 7 || Separator(s) == 0 ==> r == ValueError
    ensures |s| >= 7 && Separator(s) > 0 ==>
              exists d :: ReadsAs(Slice(s, 0, Separator(s)), d) && r == ReadAfterDate(s, Separator(s), d)
    ensures |s| >= 7 && !WeekForm(s) ==> r == ReadDateTime(s)
    ensures r.Ok? ==> r.value.Valid()
    ensures r == AssertionError <==> |s| == 9 && s[4] == '-' && s[5] != 'W'
  {
    if |s| < 7 {
      return ValueError;
    }
    var k := FindSeparator(s);
    if k == 0 {
      return ValueError;
    }
    var dstr := Slice(s, 0, k);
    var date := ParseDate(dstr);
    DatePart(s, k, dstr, date);
    if date.AssertionError? {
      return AssertionError;
    }
    if date.ValueError? {
      return ValueError;
    }
    var tstr := Slice(s, k + 1, |s|);
    var z := Ok(ZonedComps(NO_COMPS, None));
    if tstr != "" {
      z := ParseIsoTime(tstr);
      if !z.Ok? {
        return ValueError;
      }
    }
    r := Checked(date.value, z.value);
  }

  /** A day of one digit: nine characters reach the assertion. */
  method OneDigitDay() returns (r: Result<DateTime>)
    ensures r == AssertionError
  {
    r := FromIsoFormat("2011-11-0");
  }

  /** A date alone: here the length is checked first, and every failure is a ValueError. */
  method DateFromIsoFormat(s: string) returns (r: Result<Date>)
    ensures r != AssertionError
    ensures exists d :: ReadsAs(s, d) && r == if d.Ok? && IsDate(d.value) then d else ValueError
  {
    if |s| !in {7, 8, 10} {
      assert ReadsAs(s, AssertionError);
      return ValueError;
    }
    var d := ParseDate(s);
    assert ReadsAs(s, d);
    r := if d.Ok? && IsDate(d.value) then d else ValueError;
  }
}
