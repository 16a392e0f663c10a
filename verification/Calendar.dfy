/** The proleptic Gregorian calendar: dates and ordinals, for every year. */
module Calendar {

  const DAYS_IN_MONTH: seq<int> := [-1, 31, 28, 31, 30, 31, 30, 31, 31, 30, 31, 30, 31]
  const DAYS_BEFORE_MONTH: seq<int> := [-1, 0, 31, 59, 90, 120, 151, 181, 212, 243, 273, 304, 334]
  const DI400Y := 146097
  const DI100Y := 36524
  const DI4Y := 1461

  datatype Date = Date(year: int, month: int, day: int)

  predicate IsLeap(year: int) {
    year % 4 == 0 && (year % 100 != 0 || year % 400 == 0)
  }

  function DaysBeforeYear(year: int): int {
    var y := year - 1;
    y * 365 + y / 4 - y / 100 + y / 400
  }

  function DaysInMonth(year: int, month: int): int
    requires 1 <= month <= 12
  {
    if month == 2 && IsLeap(year) then 29 else DAYS_IN_MONTH[month]
  }

  function DaysBeforeMonth(year: int, month: int): int
    requires 1 <= month <= 12
  {
    DAYS_BEFORE_MONTH[month] + if month > 2 && IsLeap(year) then 1 else 0
  }

  predicate ValidDate(d: Date) {
    1 <= d.month <= 12 && 1 <= d.day <= DaysInMonth(d.year, d.month)
  }

  /** The ordinal of a date; 1 January of year 1 is day 1. */
  function Ymd2Ord(d: Date): int
    requires ValidDate(d)
  {
    DaysBeforeYear(d.year) + DaysBeforeMonth(d.year, d.month) + d.day
  }

  function YearLength(year: int): int {
    if IsLeap(year) then 366 else 365
  }

  // ----- years and months follow one another

  lemma NextYear(year: int)
    ensures DaysBeforeYear(year + 1) == DaysBeforeYear(year) + YearLength(year)
  {
    NextQuotient4(year - 1);
    NextQuotient100(year - 1);
    NextQuotient400(year - 1);
    CenturyYears(year);
  }

  lemma NextQuotient4(y: int)
    ensures (y + 1) / 4 == y / 4 + if (y + 1) % 4 == 0 then 1 else 0
  {
  }

  lemma NextQuotient100(y: int)
    ensures (y + 1) / 100 == y / 100 + if (y + 1) % 100 == 0 then 1 else 0
  {
  }

  lemma NextQuotient400(y: int)
    ensures (y + 1) / 400 == y / 400 + if (y + 1) % 400 == 0 then 1 else 0
  {
  }

  lemma CenturyYears(year: int)
    ensures year % 400 == 0 ==> year % 100 == 0
    ensures year % 100 == 0 ==> year % 4 == 0
  {
  }

  /** Each month starts where the one before it ends, and the twelfth ends with the year. */
  lemma NextMonth(year: int, month: int)
    requires 1 <= month <= 12
    ensures DaysBeforeMonth(year, month) + DaysInMonth(year, month)
      == if month == 12 then YearLength(year) else DaysBeforeMonth(year, month + 1)
  {
  }

  /** Thirty-one and thirty days take turns, and begin again in August; February is the exception. */
  lemma MonthLengths(year: int, month: int)
    requires 1 <= month <= 12
    ensures DaysInMonth(year, month)
         == if month == 2 then YearLength(year) - 337 else 30 + (month + month / 8) % 2
    ensures DaysBeforeMonth(year, 1) == 0 && Ymd2Ord(Date(1, 1, 1)) == 1
  {
  }

  lemma {:induction false} YearsInOrder(y1: int, y2: int)
    requires y1 < y2
    ensures DaysBeforeYear(y1) + YearLength(y1) <= DaysBeforeYear(y2)
    decreases y2 - y1
  {
    NextYear(y1);
    if y1 + 1 < y2 {
      YearsInOrder(y1 + 1, y2);
    }
  }

  lemma {:induction false} MonthsInOrder(year: int, m1: int, m2: int)
    requires 1 <= m1 < m2 <= 12
    ensures DaysBeforeMonth(year, m1) + DaysInMonth(year, m1) <= DaysBeforeMonth(year, m2)
    decreases m2 - m1
  {
    NextMonth(year, m1);
    if m1 + 1 < m2 {
      MonthsInOrder(year, m1 + 1, m2);
    }
  }

  predicate Before(a: Date, b: Date) {
    || a.year < b.year
    || (a.year == b.year && (a.month < b.month || (a.month == b.month && a.day < b.day)))
  }

  lemma DayInYear(d: Date)
    requires ValidDate(d)
    ensures 1 <= DaysBeforeMonth(d.year, d.month) + d.day <= YearLength(d.year)
  {
    NextMonth(d.year, d.month);
    if d.month < 12 {
      MonthsInOrder(d.year, d.month, 12);
      NextMonth(d.year, 12);
    }
  }

  /** Ordinals are ordered as the dates are. */
  lemma OrdinalsInOrder(a: Date, b: Date)
    requires ValidDate(a) && ValidDate(b)
    ensures Before(a, b) <==> Ymd2Ord(a) < Ymd2Ord(b)
    ensures a == b <==> Ymd2Ord(a) == Ymd2Ord(b)
  {
    if Before(a, b) {
      EarlierOrdinal(a, b);
    } else if Before(b, a) {
      EarlierOrdinal(b, a);
    }
  }

  lemma EarlierOrdinal(a: Date, b: Date)
    requires ValidDate(a) && ValidDate(b) && Before(a, b)
    ensures Ymd2Ord(a) < Ymd2Ord(b)
  {
    DayInYear(a);
    DayInYear(b);
    if a.year < b.year {
      YearsInOrder(a.year, b.year);
    } else if a.month < b.month {
      MonthsInOrder(a.year, a.month, b.month);
    }
  }

  // ----- from ordinals to dates

  /** A year given by its place in the cycles of 400, 100, 4 and 1 years */
  lemma CycleYear(n400: int, n100: int, n4: int, n1: int)
    requires 0 <= n100 <= 3 && 0 <= n4 <= 24 && 0 <= n1 <= 3
    ensures var year := n400 * 400 + 1 + n100 * 100 + n4 * 4 + n1;
      && DaysBeforeYear(year) == DI400Y * n400 + DI100Y * n100 + DI4Y * n4 + 365 * n1
      && (IsLeap(year) <==> n1 == 3 && (n4 != 24 || n100 == 3))
  {
    var y := n400 * 400 + n100 * 100 + n4 * 4 + n1;
    CycleLengths(n400, n100, n4, n1, y);
    CycleLeap(n100, n4, n1, y + 1, n400 * 100 + n100 * 25 + n4, n400 * 4 + n100, n400);
  }

  lemma CycleLengths(n400: int, n100: int, n4: int, n1: int, y: int)
    requires 0 <= n100 <= 3 && 0 <= n4 <= 24 && 0 <= n1 <= 3
    requires y == n400 * 400 + n100 * 100 + n4 * 4 + n1
    ensures y / 4 == n400 * 100 + n100 * 25 + n4 && y / 100 == n400 * 4 + n100 && y / 400 == n400
  {
  }

  lemma CycleLeap(n100: int, n4: int, n1: int, year: int, fours: int, hundreds: int, n400: int)
    requires 0 <= n100 <= 3 && 0 <= n4 <= 24 && 0 <= n1 <= 3
    requires year == fours * 4 + n1 + 1 && year == hundreds * 100 + n4 * 4 + n1 + 1
    requires hundreds == n400 * 4 + n100
    ensures IsLeap(year) <==> n1 == 3 && (n4 != 24 || n100 == 3)
  {
  }

  /** The places of a day in the cycles, as the repeated division finds them */
  ghost predicate InCycles(n400: int, n100: int, n4: int, n1: int, n: int) {
    && 0 <= n100 && 0 <= n4 && 0 <= n1 && 0 <= n < 365
    && 365 * n1 + n < DI4Y
    && DI4Y * n4 + 365 * n1 + n < DI100Y
    && DI100Y * n100 + DI4Y * n4 + 365 * n1 + n < DI400Y
  }

  function CycleDay(n400: int, n100: int, n4: int, n1: int, n: int): int {
    DI400Y * n400 + DI100Y * n100 + DI4Y * n4 + 365 * n1 + n
  }

  /** The last day of a cycle, which the division counts as the first of a year that is not there */
  lemma CycleEnd(n400: int, n100: int, n4: int, n1: int, n: int)
    requires InCycles(n400, n100, n4, n1, n) && (n1 == 4 || n100 == 4)
    ensures n == 0
    ensures var year := n400 * 400 + 1 + n100 * 100 + n4 * 4 + n1;
      DaysBeforeYear(year) == CycleDay(n400, n100, n4, n1, n) + 1
  {
    if n100 == 4 {
      assert n4 == 0 && n1 == 0;
      CycleYear(n400 + 1, 0, 0, 0);
    } else {
      assert n100 <= 3 && n4 <= 23;
      CycleYear(n400, n100, n4 + 1, 0);
    }
  }

  lemma CyclePlaces(m: int, n400: int, r400: int, n100: int, r100: int, n4: int, r4: int)
    requires n400 == m / DI400Y && r400 == m % DI400Y
    requires n100 == r400 / DI100Y && r100 == r400 % DI100Y
    requires n4 == r100 / DI4Y && r4 == r100 % DI4Y
    ensures InCycles(n400, n100, n4, r4 / 365, r4 % 365)
    ensures m == CycleDay(n400, n100, n4, r4 / 365, r4 % 365)
  {
  }

  /** The month estimated from the day of the year is right or one too large. */
  lemma MonthEstimate(n: int, leap: bool)
    requires 0 <= n < (if leap then 366 else 365)
    ensures var month := (n + 50) / 32;
      && 1 <= month <= 12
      && var start := DAYS_BEFORE_MONTH[month] + (if month > 2 && leap then 1 else 0);
         var length := if month == 2 && leap then 29 else DAYS_IN_MONTH[month];
         && (start <= n ==> n < start + length)
         && (start > n ==> month >= 2)
         && (start > n ==> start - (if month - 1 == 2 && leap then 29 else DAYS_IN_MONTH[month - 1]) <= n)
  {
    var month := (n + 50) / 32;
    assert 1 <= month <= 12;
    assert 32 * month - 50 <= n <= 32 * month - 19;
  }

  /** The date of an ordinal */
  method Ord2Ymd(ord: int) returns (d: Date)
    ensures ValidDate(d) && Ymd2Ord(d) == ord
  {
    var n := ord - 1;
    var n400 := n / DI400Y;
    n := n % DI400Y;
    var year := n400 * 400 + 1;
    ghost var r400 := n;
    var n100 := n / DI100Y;
    n := n % DI100Y;
    ghost var r100 := n;
    var n4 := n / DI4Y;
    n := n % DI4Y;
    CyclePlaces(ord - 1, n400, r400, n100, r100, n4, n);
    var n1 := n / 365;
    n := n % 365;
    year := year + n100 * 100 + n4 * 4 + n1;
    if n1 == 4 || n100 == 4 {
      CycleEnd(n400, n100, n4, n1, n);
      assert n == 0;
      LastOfYear(year - 1);
      return Date(year - 1, 12, 31);
    }
    ghost var leap := IsLeap(year);
    CycleYear(n400, n100, n4, n1);
    var leapyear := n1 == 3 && (n4 != 24 || n100 == 3);
    assert leapyear == leap;
    d := DayOfYear(year, n, leapyear);
  }

  lemma LastOfYear(year: int)
    ensures ValidDate(Date(year, 12, 31)) && Ymd2Ord(Date(year, 12, 31)) == DaysBeforeYear(year + 1)
  {
    NextYear(year);
    NextMonth(year, 12);
  }

  /** The date of the n-th day (from 0) of a year, by an estimate of the month that may be one too large */
  method DayOfYear(year: int, n0: int, leapyear: bool) returns (d: Date)
    requires leapyear == IsLeap(year) && 0 <= n0 < YearLength(year)
    ensures ValidDate(d) && Ymd2Ord(d) == DaysBeforeYear(year) + n0 + 1
  {
    MonthEstimate(n0, leapyear);
    var month := (n0 + 50) / 32;
    var preceding := DAYS_BEFORE_MONTH[month] + if month > 2 && leapyear then 1 else 0;
    if preceding > n0 {
      month := month - 1;
      preceding := preceding - (DAYS_IN_MONTH[month] + if month == 2 && leapyear then 1 else 0);
      NextMonth(year, month);
    }
    d := Date(year, month, n0 - preceding + 1);
  }

  /** Going to the ordinal and back gives the date again. */
  method DateOfOrdinalOfDate(d: Date) returns (d': Date)
    requires ValidDate(d)
    ensures d' == d
  {
    d' := Ord2Ymd(Ymd2Ord(d));
    OrdinalsInOrder(d, d');
  }
}
