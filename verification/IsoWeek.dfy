/** The ISO week calendar of ISO 8601:2004, section 4.1.4. */
module IsoWeek {
  import opened Calendar

  const MINYEAR := 1
  const MAXYEAR := 9999

  /** 1 January */
  function FirstDay(year: int): int {
    Ymd2Ord(Date(year, 1, 1))
  }

  /** The Monday nearest to a day, given by its ordinal; a Friday counts as nearer to the next one */
  function NearestMonday(firstDay: int): int {
    var firstWeekday := (firstDay + 6) % 7;
    var week1Monday := firstDay - firstWeekday;
    if firstWeekday > 3 then week1Monday + 7 else week1Monday
  }

  /** The ordinal of the Monday that starts week 1: the week with the first Thursday of the year */
  function IsoWeek1Monday(year: int): int {
    NearestMonday(FirstDay(year))
  }

  datatype IsoDate = IsoDate(year: int, week: int, day: int)

  datatype IsoError = YearOutOfRange | InvalidWeek | InvalidWeekday

  datatype Result = Ok(date: Date) | ValueError(error: IsoError)

  /** The day with ordinal o is the given day of the given week of the ISO year. */
  predicate Names(i: IsoDate, o: int) {
    && 1 <= i.day <= 7 && 1 <= i.week
    && IsoWeek1Monday(i.year) + 7 * (i.week - 1) + (i.day - 1) == o
    && o < IsoWeek1Monday(i.year + 1)
  }

  /** The test for a year of 53 weeks */
  predicate IsLong(year: int) {
    FirstDay(year) % 7 == 4 || (FirstDay(year) % 7 == 3 && IsLeap(year))
  }

  lemma FirstDays(year: int)
    ensures FirstDay(year) == DaysBeforeYear(year) + 1
    ensures FirstDay(year + 1) == FirstDay(year) + YearLength(year)
  {
    NextYear(year);
  }

  /** Week 1 starts on a Monday, and contains the first Thursday of the year. */
  lemma Week1Monday(year: int)
    ensures IsoWeek1Monday(year) % 7 == 1
    ensures FirstDay(year) <= IsoWeek1Monday(year) + 3 < FirstDay(year) + 7
  {
    MondayNear(FirstDay(year));
  }

  lemma MondayNear(f: int)
    ensures NearestMonday(f) % 7 == 1
    ensures f - 3 <= NearestMonday(f) <= f + 3
  {
    var k, w := (f + 6) / 7, (f + 6) % 7;
    assert f - w == 7 * k - 6;
    MondayOrdinals(k - 1);
    MondayOrdinals(k);
  }

  lemma MondayOrdinals(k: int)
    ensures (7 * k + 1) % 7 == 1
  {
  }

  /** An ISO year has 53 weeks exactly when the test says so, and otherwise 52. */
  lemma YearsOf53Weeks(year: int)
    ensures IsoWeek1Monday(year + 1) - IsoWeek1Monday(year) == if IsLong(year) then 371 else 364
  {
    FirstDays(year);
    var f, g, l := FirstDay(year), FirstDay(year + 1), YearLength(year);
    WeekdayShift(f, l);
  }

  lemma WeekdayShift(f: int, l: int)
    requires l == 365 || l == 366
    ensures var k := (f + 6) % 7 + (l - 364);
            (f + l + 6) % 7 == if k < 7 then k else k - 7
    ensures f % 7 == if (f + 6) % 7 == 6 then 0 else (f + 6) % 7 + 1
  {
  }

  lemma {:induction false} MondaysInOrder(y1: int, y2: int)
    requires y1 < y2
    ensures IsoWeek1Monday(y1) + 364 <= IsoWeek1Monday(y2)
    decreases y2 - y1
  {
    YearsOf53Weeks(y1);
    if y1 + 1 < y2 {
      MondaysInOrder(y1 + 1, y2);
    }
  }

  /** A day has one name. */
  lemma NameUnique(i: IsoDate, j: IsoDate, o: int)
    requires Names(i, o) && Names(j, o)
    ensures i == j
  {
    if i.year + 1 < j.year {
      MondaysInOrder(i.year + 1, j.year);
    } else if j.year + 1 < i.year {
      MondaysInOrder(j.year + 1, i.year);
    }
  }

  /** A day of the calendar year lies in the ISO year before it, in its own, or in the next. */
  lemma AroundTheYear(d: Date)
    requires ValidDate(d)
    ensures IsoWeek1Monday(d.year - 1) + 364 <= IsoWeek1Monday(d.year) <= Ymd2Ord(d) + 3
    ensures Ymd2Ord(d) < IsoWeek1Monday(d.year + 1) + 3
    ensures IsoWeek1Monday(d.year) + 364 <= IsoWeek1Monday(d.year + 1) <= IsoWeek1Monday(d.year) + 371
    ensures IsoWeek1Monday(d.year + 1) + 364 <= IsoWeek1Monday(d.year + 2)
  {
    DayInYear(d);
    FirstDays(d.year);
    Week1Monday(d.year);
    Week1Monday(d.year + 1);
    YearsOf53Weeks(d.year - 1);
    YearsOf53Weeks(d.year);
    YearsOf53Weeks(d.year + 1);
  }

  /** Year, week and weekday of a date */
  method IsoCalendar(d: Date) returns (i: IsoDate)
    requires ValidDate(d)
    ensures Names(i, Ymd2Ord(d))
  {
    AroundTheYear(d);
    var today := Ymd2Ord(d);
    i := NameDay(d.year, today);
  }

  lemma SameWeekday(x: int, weeks: int)
    requires (weeks == 364 || weeks == 371) && 0 <= x - weeks < 7
    ensures x % 7 == x - weeks
  {
  }

  method NameDay(year0: int, today: int) returns (i: IsoDate)
    requires IsoWeek1Monday(year0 - 1) + 364 <= IsoWeek1Monday(year0) <= today + 3
    requires today < IsoWeek1Monday(year0 + 1) + 3
    requires IsoWeek1Monday(year0) + 364 <= IsoWeek1Monday(year0 + 1) <= IsoWeek1Monday(year0) + 371
    requires IsoWeek1Monday(year0 + 1) + 364 <= IsoWeek1Monday(year0 + 2)
    ensures Names(i, today)
  {
    var year := year0;
    var week1Monday := IsoWeek1Monday(year);
    var week, day := (today - week1Monday) / 7, (today - week1Monday) % 7;
    if week < 0 {
      year := year - 1;
      week1Monday := IsoWeek1Monday(year);
      week, day := (today - week1Monday) / 7, (today - week1Monday) % 7;
    } else if week >= 52 {
      if today >= IsoWeek1Monday(year + 1) {
        YearsOf53Weeks(year);
        SameWeekday(today - week1Monday, IsoWeek1Monday(year + 1) - week1Monday);
        year := year + 1;
        week := 0;
      }
    }
    i := IsoDate(year, week + 1, day + 1);
  }

  /** Is there such a day, in a year a date can have? */
  predicate IsName(i: IsoDate) {
    && MINYEAR <= i.year <= MAXYEAR && 1 <= i.day <= 7
    && 1 <= i.week && 7 * i.week <= IsoWeek1Monday(i.year + 1) - IsoWeek1Monday(i.year)
  }

  /** The date of a day of an ISO week */
  method IsoWeekToGregorian(year: int, week: int, day: int) returns (r: Result)
    ensures r == ValueError(YearOutOfRange) <==> !(MINYEAR <= year <= MAXYEAR)
    ensures r == ValueError(InvalidWeek) <==>
      MINYEAR <= year <= MAXYEAR && !(1 <= week && 7 * week <= IsoWeek1Monday(year + 1) - IsoWeek1Monday(year))
    ensures r.Ok? <==> IsName(IsoDate(year, week, day))
    ensures r.Ok? ==> ValidDate(r.date) && Names(IsoDate(year, week, day), Ymd2Ord(r.date))
  {
    if !(MINYEAR <= year <= MAXYEAR) {
      return ValueError(YearOutOfRange);
    }
    YearsOf53Weeks(year);
    if !(0 < week < 53) {
      var outOfRange := true;
      if week == 53 {
        var firstWeekday := FirstDay(year) % 7;
        if firstWeekday == 4 || (firstWeekday == 3 && IsLeap(year)) {
          outOfRange := false;
        }
      }
      if outOfRange {
        return ValueError(InvalidWeek);
      }
    }
    if !(0 < day < 8) {
      return ValueError(InvalidWeekday);
    }
    var dayOffset := (week - 1) * 7 + (day - 1);
    var day1 := IsoWeek1Monday(year);
    var date := Ord2Ymd(day1 + dayOffset);
    r := Ok(date);
  }

  /** Every date a calendar object can hold is recovered from its ISO name. */
  method DateToIsoAndBack(d: Date) returns (r: Result)
    requires ValidDate(d) && MINYEAR <= d.year <= MAXYEAR
    ensures r == Ok(d)
  {
    var i := IsoCalendar(d);
    ghost var first, last := MINYEAR, MAXYEAR + 1;
    YearEnds(first, last);
    NameBetween(d, i, first, last);
    r := IsoWeekToGregorian(i.year, i.week, i.day);
    NamesWholeWeeks(i, Ymd2Ord(d));
    OrdinalsInOrder(r.date, d);
  }

  lemma NamesWholeWeeks(i: IsoDate, o: int)
    requires Names(i, o)
    ensures 7 * i.week <= IsoWeek1Monday(i.year + 1) - IsoWeek1Monday(i.year)
  {
    YearsOf53Weeks(i.year);
  }

  /** Ranges of years that start with a Monday and end before a Saturday hold the same days in both calendars. */
  lemma NameBetween(d: Date, i: IsoDate, first: int, last: int)
    requires ValidDate(d) && first <= d.year < last && Names(i, Ymd2Ord(d))
    requires FirstDay(first) % 7 == 1 && FirstDay(last) % 7 == 6
    ensures first <= i.year < last
  {
    OrdinalBetween(d, first, last);
    MondayOf(FirstDay(first));
    MondayOf(FirstDay(last));
    if i.year + 1 < first {
      MondaysInOrder(i.year + 1, first);
    }
    if i.year > last {
      MondaysInOrder(last, i.year);
    }
  }

  lemma OrdinalBetween(d: Date, first: int, last: int)
    requires ValidDate(d) && first <= d.year < last
    ensures FirstDay(first) <= Ymd2Ord(d) < FirstDay(last)
  {
    DayInYear(d);
    FirstDays(first);
    FirstDays(last);
    if d.year > first {
      YearsInOrder(first, d.year);
      assert YearLength(first) > 0;
    }
    YearsInOrder(d.year, last);
  }

  /** 1 January of year 1 is a Monday, and 1 January of year 10000 would be a Saturday. */
  lemma YearEnds(first: int, last: int)
    requires first == MINYEAR && last == MAXYEAR + 1
    ensures FirstDay(first) % 7 == 1 && FirstDay(last) % 7 == 6
  {
    CycleYear(0, 0, 0, 0);
    StartsOn(first, 0);
    CycleYear(24, 3, 24, 3);
    StartsOn(last, 3652059);
  }

  lemma StartsOn(year: int, days: int)
    requires DaysBeforeYear(year) == days
    ensures FirstDay(year) % 7 == (days + 1) % 7
  {
    FirstDayIs(year);
  }

  lemma FirstDayIs(year: int)
    ensures FirstDay(year) == DaysBeforeYear(year) + 1
  {
  }

  lemma MondayOf(f: int)
    ensures f % 7 == 1 ==> NearestMonday(f) == f
    ensures f % 7 == 6 ==> NearestMonday(f) == f + 2
  {
  }

  /** Every accepted ISO name is the name of the date it denotes. */
  method IsoToDateAndBack(year: int, week: int, day: int) returns (r: Result, i: IsoDate)
    ensures r.Ok? ==> i == IsoDate(year, week, day)
  {
    i := IsoDate(0, 0, 0);
    r := IsoWeekToGregorian(year, week, day);
    if r.Ok? {
      i := IsoCalendar(r.date);
      NameUnique(i, IsoDate(year, week, day), Ymd2Ord(r.date));
    }
  }
}
