/** The calendar arithmetic behind Python's datetime, as the frame decoder uses it:
    which date-times datetime(...) accepts, and their distance from a fixed epoch
    (2000-01-01 00:00:00) in microseconds. Proleptic Gregorian, no leap seconds. */
module Calendar {

  const MicrosPerSecond: int := 1_000_000
  const SecondsPerDay: int := 86_400
  const EpochYear: int := 2000

  datatype DateTime = DateTime(year: int, month: int, day: int, hour: int, minute: int, second: int)

  predicate IsLeapYear(y: int)
  {
    y % 4 == 0 && (y % 100 != 0 || y % 400 == 0)
  }

  function DaysInMonth(y: int, m: int): (r: int)
    requires 1 <= m <= 12
    ensures 28 <= r <= 31
  {
    if m == 2 then (if IsLeapYear(y) then 29 else 28)
    else if m == 4 || m == 6 || m == 9 || m == 11 then 30
    else 31
  }

  /** The arguments datetime(year, month, day, hour, minute, second) accepts without a ValueError. */
  predicate IsValid(d: DateTime)
  {
    && 1 <= d.year <= 9999
    && 1 <= d.month <= 12
    && 1 <= d.day <= DaysInMonth(d.year, d.month)
    && 0 <= d.hour < 24
    && 0 <= d.minute < 60
    && 0 <= d.second < 60
  }

  /** Days in the months of year y before month m. */
  function DaysBeforeMonth(y: int, m: int): (r: int)
    requires 1 <= m <= 13
    decreases m
  {
    if m == 1 then 0 else DaysBeforeMonth(y, m - 1) + DaysInMonth(y, m - 1)
  }

  /** Leap years among 1 .. y-1. */
  function LeapYearsBefore(y: int): (r: int)
    requires y >= 1
  {
    (y - 1) / 4 - (y - 1) / 100 + (y - 1) / 400
  }

  function YearLength(y: int): (r: int)
  {
    if IsLeapYear(y) then 366 else 365
  }

  /** Days from the epoch to the first day of year y. */
  function DaysBeforeYear(y: int): (r: int)
    requires y >= 1
  {
    365 * (y - EpochYear) + LeapYearsBefore(y) - LeapYearsBefore(EpochYear)
  }

  function DayNumber(d: DateTime): (r: int)
    requires IsValid(d)
  {
    DaysBeforeYear(d.year) + DaysBeforeMonth(d.year, d.month) + d.day - 1
  }

  function SecondOfDay(d: DateTime): (r: int)
  {
    (d.hour * 60 + d.minute) * 60 + d.second
  }

  /** Microseconds from 2000-01-01 00:00:00 to d. */
  function ToMicros(d: DateTime): (r: int)
    requires IsValid(d)
  {
    (DayNumber(d) * SecondsPerDay + SecondOfDay(d)) * MicrosPerSecond
  }

  /** d comes strictly before e in calendar order. */
  predicate Before(d: DateTime, e: DateTime)
  {
    || d.year < e.year
    || (d.year == e.year && d.month < e.month)
    || (d.year == e.year && d.month == e.month && d.day < e.day)
    || (d.year == e.year && d.month == e.month && d.day == e.day && SecondOfDay(d) < SecondOfDay(e))
  }

  /** Going from y - 1 to y adds one multiple of 4, 100 or 400 exactly when it divides y. */
  lemma MultiplesStep(y: int)
    requires y >= 1
    ensures y / 4 - (y - 1) / 4 == (if y % 4 == 0 then 1 else 0)
    ensures y / 100 - (y - 1) / 100 == (if y % 100 == 0 then 1 else 0)
    ensures y / 400 - (y - 1) / 400 == (if y % 400 == 0 then 1 else 0)
  {
  }

  lemma LeapYearsStep(y: int)
    requires y >= 1
    ensures LeapYearsBefore(y + 1) == LeapYearsBefore(y) + (if IsLeapYear(y) then 1 else 0)
  {
    MultiplesStep(y);
    CenturyDivisibility(y);
  }

  /** Every multiple of 400 is a multiple of 100, and every multiple of 100 a multiple of 4. */
  lemma CenturyDivisibility(y: int)
    ensures y % 400 == 0 ==> y % 100 == 0
    ensures y % 100 == 0 ==> y % 4 == 0
  {
    if y % 400 == 0 {
      var q := y / 400;
      assert y == 100 * (4 * q);
    }
    if y % 100 == 0 {
      var q := y / 100;
      assert y == 4 * (25 * q);
    }
  }

  lemma YearFromMonths(y: int)
    ensures DaysBeforeMonth(y, 13) == YearLength(y)
  {
    assert DaysBeforeMonth(y, 2) == 31;
    assert DaysBeforeMonth(y, 3) == 31 + DaysInMonth(y, 2);
    assert DaysBeforeMonth(y, 7) == 31 + DaysInMonth(y, 2) + 31 + 30 + 31 + 30;
  }

  lemma {:induction false} MonthsIncrease(y: int, m: int, n: int)
    requires 1 <= m < n <= 13
    ensures DaysBeforeMonth(y, m) + DaysInMonth(y, m) <= DaysBeforeMonth(y, n)
    decreases n
  {
    if m + 1 < n {
      MonthsIncrease(y, m, n - 1);
    }
  }

  lemma YearsIncrease(y: int, z: int)
    requires 1 <= y < z
    ensures DaysBeforeYear(y) + YearLength(y) <= DaysBeforeYear(z)
    decreases z - y
  {
    LeapYearsStep(y);
    if y + 1 < z {
      YearsIncrease(y + 1, z);
    }
  }

  /** The day of the year of a valid date lies inside its year. */
  lemma DayInYear(d: DateTime)
    requires IsValid(d)
    ensures DaysBeforeYear(d.year) <= DayNumber(d) < DaysBeforeYear(d.year) + YearLength(d.year)
  {
    YearFromMonths(d.year);
    if d.month < 12 {
      MonthsIncrease(d.year, d.month, 13);
    }
  }

  lemma DayNumberMonotone(d: DateTime, e: DateTime)
    requires IsValid(d) && IsValid(e)
    requires d.year < e.year || (d.year == e.year && d.month < e.month)
      || (d.year == e.year && d.month == e.month && d.day <= e.day)
    ensures DayNumber(d) <= DayNumber(e)
    ensures DayNumber(d) == DayNumber(e) ==> d.year == e.year && d.month == e.month && d.day == e.day
  {
    if d.year < e.year {
      DayInYear(d);
      DayInYear(e);
      YearsIncrease(d.year, e.year);
    } else if d.month < e.month {
      MonthsIncrease(d.year, d.month, e.month);
    }
  }

  /** Later valid date-times are later instants: ToMicros preserves calendar order ... */
  lemma {:induction false} ToMicrosMonotone(d: DateTime, e: DateTime)
    requires IsValid(d) && IsValid(e) && Before(d, e)
    ensures ToMicros(d) < ToMicros(e)
  {
    DayNumberMonotone(d, e);
    assert 0 <= SecondOfDay(d) < SecondsPerDay && 0 <= SecondOfDay(e) < SecondsPerDay;
    if DayNumber(d) < DayNumber(e) {
      assert DayNumber(d) * SecondsPerDay + SecondOfDay(d) < DayNumber(e) * SecondsPerDay + SecondOfDay(e);
    }
  }

  lemma SecondOfDayInjective(d: DateTime, e: DateTime)
    requires IsValid(d) && IsValid(e) && SecondOfDay(d) == SecondOfDay(e)
    ensures d.hour == e.hour && d.minute == e.minute && d.second == e.second
  {
    assert d.hour * 60 + d.minute == e.hour * 60 + e.minute;
  }

  /** ... and so distinct valid date-times never share a timestamp. */
  lemma {:induction false} ToMicrosInjective(d: DateTime, e: DateTime)
    requires IsValid(d) && IsValid(e) && ToMicros(d) == ToMicros(e)
    ensures d == e
  {
    if Before(d, e) {
      ToMicrosMonotone(d, e);
    } else if Before(e, d) {
      ToMicrosMonotone(e, d);
    } else {
      SecondOfDayInjective(d, e);
    }
  }

  /** The same time of day on the next calendar day: the next day of the month, the first of the
      next month after a month's last day, and 1 January after 31 December. */
  function NextDay(d: DateTime): (e: DateTime)
    requires IsValid(d)
  {
    if d.day < DaysInMonth(d.year, d.month) then d.(day := d.day + 1)
    else if d.month < 12 then d.(month := d.month + 1, day := 1)
    else d.(year := d.year + 1, month := 1, day := 1)
  }

  /** The count has no gaps: every valid date-time but the last one datetime accepts has a next
      day, which lies exactly 86 400 000 000 microseconds later, across month and year ends alike. */
  lemma NextDayIsOneDayLater(d: DateTime)
    requires IsValid(d) && !(d.year == 9999 && d.month == 12 && d.day == 31)
    ensures IsValid(NextDay(d))
    ensures ToMicros(NextDay(d)) == ToMicros(d) + SecondsPerDay * MicrosPerSecond
  {
    var e := NextDay(d);
    if d.day == DaysInMonth(d.year, d.month) && d.month == 12 {
      LeapYearsStep(d.year);
      YearFromMonths(d.year);
      assert DaysBeforeYear(d.year + 1) == DaysBeforeYear(d.year) + YearLength(d.year);
    }
    assert DayNumber(e) == DayNumber(d) + 1;
    assert SecondOfDay(e) == SecondOfDay(d);
    calc {
      ToMicros(e);
      ((DayNumber(d) + 1) * SecondsPerDay + SecondOfDay(d)) * MicrosPerSecond;
      (DayNumber(d) * SecondsPerDay + SecondOfDay(d)) * MicrosPerSecond + SecondsPerDay * MicrosPerSecond;
    }
  }
}
