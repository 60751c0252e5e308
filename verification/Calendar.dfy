/** The conversion of calendar dates to seconds since 1970. */
module Calendar {
  datatype Date = Date(year: int, month: int, day: int)

  /** Broken-down time, with the month from 0 and the year from 1900 on. */
  datatype Tm = Tm(year: int, mon: int, mday: int, hour: int, min: int, sec: int)

  /** Division as C does it, towards zero. */
  function Div(a: int, b: int): int
    requires b > 0
  {
    if a >= 0 then a / b else -(-a / b)
  }

  // ---------------------------------------------------------------- the calendar

  predicate Leap(year: int) { year % 4 == 0 && (year % 100 != 0 || year % 400 == 0) }

  function DaysInMonth(year: int, month: int): int
    requires 1 <= month <= 12
  {
    if month == 2 then (if Leap(year) then 29 else 28)
    else if month == 4 || month == 6 || month == 9 || month == 11 then 30
    else 31
  }

  /** A day of the Gregorian calendar, extended to the year 1. */
  predicate IsDate(d: Date) {
    d.year >= 1 && 1 <= d.month <= 12 && 1 <= d.day <= DaysInMonth(d.year, d.month)
  }

  function NextDay(d: Date): (r: Date)
    requires IsDate(d)
    ensures IsDate(r)
  {
    if d.day < DaysInMonth(d.year, d.month) then d.(day := d.day + 1)
    else if d.month < 12 then Date(d.year, d.month + 1, 1)
    else Date(d.year + 1, 1, 1)
  }

  function DaysBeforeYear(year: int): int
    requires year >= 1
  {
    if year == 1 then 0 else DaysBeforeYear(year - 1) + if Leap(year - 1) then 366 else 365
  }

  function DaysBeforeMonth(year: int, month: int): int
    requires 1 <= month <= 12
    decreases month
  {
    if month == 1 then 0 else DaysBeforeMonth(year, month - 1) + DaysInMonth(year, month - 1)
  }

  /** The days up to and with this one, counted year by year and month by month. */
  function DayNumber(d: Date): int
    requires IsDate(d)
  {
    DaysBeforeYear(d.year) + DaysBeforeMonth(d.year, d.month) + d.day
  }

  const EPOCH: Date := Date(1970, 1, 1)

  /** The number of that day. */
  const EPOCH_DAY: int := 719163

  // ---------------------------------------------------------------- the formula

  /** The number of days that mktimegm multiplies. */
  function Days(tm: Tm): int {
    var y, m := tm.year + 1900, tm.mon + 1;
    var m' := if m < 3 then m + 12 else m;
    var y' := if m < 3 then y - 1 else y;
    tm.mday + Div(153 * m' - 457, 5) + 365 * y' + Div(y', 4) - Div(y', 100) + Div(y', 400) - 719469
  }

  /** mktimegm, in mathematical integers. */
  function MkTimeGm(tm: Tm): int {
    86400 * Days(tm) + 3600 * tm.hour + 60 * tm.min + tm.sec
  }

  function Midnight(d: Date): Tm { Tm(d.year - 1900, d.month - 1, d.day, 0, 0, 0) }

  // ---------------------------------------------------------------- years and months

  function LeapYears(year: int): int
    requires year >= 0
  {
    year / 4 - year / 100 + year / 400
  }

  lemma OneMore(year: int, k: int)
    requires year >= 1 && (k == 4 || k == 100 || k == 400)
    ensures year / k == (year - 1) / k + if year % k == 0 then 1 else 0
  {
  }

  lemma LeapYearsStep(year: int)
    requires year >= 1
    ensures LeapYears(year) == LeapYears(year - 1) + if Leap(year) then 1 else 0
  {
    OneMore(year, 4);
    OneMore(year, 100);
    OneMore(year, 400);
  }

  lemma {:induction false} DaysBeforeYearClosed(year: int)
    requires year >= 1
    ensures DaysBeforeYear(year) == 365 * (year - 1) + LeapYears(year - 1)
  {
    if year > 1 {
      DaysBeforeYearClosed(year - 1);
      LeapYearsStep(year - 1);
    }
  }

  /** The months of a year that begins in March: (153 m - 457) / 5 days come before month m. */
  lemma MonthsFromMarch(year: int, month: int)
    requires 1 <= month <= 12
    ensures month >= 3 ==> DaysBeforeMonth(year, month) == (153 * month - 457) / 5 + 59 + if Leap(year) then 1 else 0
    ensures month < 3 ==> DaysBeforeMonth(year, month) + 306 == (153 * (month + 12) - 457) / 5
    decreases month
  {
    if month > 1 {
      MonthsFromMarch(year, month - 1);
    }
  }

  /** The formula counts the days of the calendar. */
  lemma DaysCountsDays(d: Date)
    requires IsDate(d)
    ensures Days(Midnight(d)) == DayNumber(d) - EPOCH_DAY
  {
    DaysBeforeYearClosed(d.year);
    MonthsFromMarch(d.year, d.month);
    LeapYearsStep(d.year);
  }

  /** At any time of day. */
  lemma SecondsSinceEpoch(d: Date, hour: int, min: int, sec: int)
    requires IsDate(d)
    ensures MkTimeGm(Tm(d.year - 1900, d.month - 1, d.day, hour, min, sec))
            == 86400 * (DayNumber(d) - EPOCH_DAY) + 3600 * hour + 60 * min + sec
  {
    DaysCountsDays(d);
    assert Days(Tm(d.year - 1900, d.month - 1, d.day, hour, min, sec)) == Days(Midnight(d));
  }

  lemma EpochNumber()
    ensures IsDate(EPOCH) && DayNumber(EPOCH) == EPOCH_DAY
  {
    DaysBeforeYearClosed(1970);
  }

  lemma {:induction false} NextDayIsNext(d: Date)
    requires IsDate(d)
    ensures DayNumber(NextDay(d)) == DayNumber(d) + 1
  {
    if d.month == 12 && d.day == 31 {
      WholeYear(d.year);
    }
  }

  lemma WholeYear(year: int)
    requires year >= 1
    ensures DaysBeforeMonth(year, 12) + 31 == DaysBeforeYear(year + 1) - DaysBeforeYear(year)
  {
    MonthsFromMarch(year, 12);
  }

  lemma EpochIsZero()
    ensures MkTimeGm(Midnight(EPOCH)) == 0
  {
    EpochNumber();
    SecondsSinceEpoch(EPOCH, 0, 0, 0);
  }

  /** Every next day, across the ends of months and leap years, is 86400 seconds more. */
  lemma DayAfterDay(d: Date)
    requires IsDate(d)
    ensures MkTimeGm(Midnight(NextDay(d))) == MkTimeGm(Midnight(d)) + 86400
  {
    NextDayIsNext(d);
    OneDayMore(d, NextDay(d));
  }

  lemma OneDayMore(d: Date, e: Date)
    requires IsDate(d) && IsDate(e) && DayNumber(e) == DayNumber(d) + 1
    ensures MkTimeGm(Midnight(e)) == MkTimeGm(Midnight(d)) + 86400
  {
    DaysCountsDays(d);
    DaysCountsDays(e);
    assert Days(Midnight(e)) == Days(Midnight(d)) + 1;
  }

  // ---------------------------------------------------------------- order and range

  predicate Before(a: Date, b: Date) {
    a.year < b.year || (a.year == b.year && (a.month < b.month || (a.month == b.month && a.day < b.day)))
  }

  lemma {:induction false} YearsAscend(a: int, b: int)
    requires 1 <= a < b
    ensures DaysBeforeYear(a + 1) <= DaysBeforeYear(b)
    decreases b
  {
    if a + 1 < b {
      YearsAscend(a, b - 1);
    }
  }

  lemma {:induction false} MonthsAscend(year: int, a: int, b: int)
    requires 1 <= a < b <= 12
    ensures DaysBeforeMonth(year, a) + DaysInMonth(year, a) <= DaysBeforeMonth(year, b)
    decreases b
  {
    if a + 1 < b {
      MonthsAscend(year, a, b - 1);
    }
  }

  lemma EarlierIsLess(a: Date, b: Date)
    requires IsDate(a) && IsDate(b) && Before(a, b)
    ensures DayNumber(a) < DayNumber(b)
  {
    if a.year < b.year {
      YearsAscend(a.year, b.year);
      WholeYear(a.year);
      if a.month < 12 {
        MonthsAscend(a.year, a.month, 12);
      }
      MonthsFromMarch(b.year, b.month);
    } else if a.month < b.month {
      MonthsAscend(a.year, a.month, b.month);
    }
  }

  /** Seconds are in the order of the calendar, so no two dates have the same. */
  lemma OrderKept(a: Date, b: Date)
    requires IsDate(a) && IsDate(b)
    ensures Before(a, b) <==> MkTimeGm(Midnight(a)) < MkTimeGm(Midnight(b))
    ensures MkTimeGm(Midnight(a)) == MkTimeGm(Midnight(b)) <==> a == b
  {
    DaysCountsDays(a);
    DaysCountsDays(b);
    if Before(a, b) {
      EarlierIsLess(a, b);
    } else if Before(b, a) {
      EarlierIsLess(b, a);
    } else {
      assert a == b;
    }
  }

  /** The code multiplies by 86400 in 32 bits: that is right for the dates from 1901-12-14 to 2038-01-19 and
      for no others. */
  lemma FitsAnInt(d: Date)
    requires IsDate(d)
    ensures -0x8000_0000 <= 86400 * Days(Midnight(d)) < 0x8000_0000
            <==> !Before(d, Date(1901, 12, 14)) && !Before(Date(2038, 1, 19), d)
  {
    var first, last := Date(1901, 12, 14), Date(2038, 1, 19);
    OrderKept(d, first);
    OrderKept(last, d);
    assert Days(Midnight(first)) == -24855 && Days(Midnight(last)) == 24855;
  }
}
