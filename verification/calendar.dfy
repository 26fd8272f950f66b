/**
 * The calendar arithmetic of Python's datetime objects, which is what the
 * record timestamps are: the (year, month, day, hour, minute) combinations
 * the datetime constructor accepts, and the minute count by which two
 * timestamps are ordered and subtracted. Every timestamp in this system is
 * built with second 0, so minutes are exact.
 */
module Calendar {

  const MinYear := 1
  const MaxYear := 9999
  const MinutesPerDay := 1440

  datatype DateTime = DateTime(year: int, month: int, day: int, hour: int, minute: int)
  {
    /** The values datetime(year, month, day, hour, minute, 0) accepts without raising ValueError. */
    predicate Valid()
    {
      && MinYear <= year <= MaxYear
      && 1 <= month <= 12
      && 1 <= day <= DaysInMonth(year, month)
      && 0 <= hour < 24
      && 0 <= minute < 60
    }
  }

  /** A datetime object that exists: Python cannot build an invalid one. */
  type ValidDateTime = d: DateTime | d.Valid() witness DateTime(1, 1, 1, 0, 0)

  predicate IsLeap(y: int)
  {
    y % 4 == 0 && (y % 100 != 0 || y % 400 == 0)
  }

  function DaysInYear(y: int): int
  {
    if IsLeap(y) then 366 else 365
  }

  function DaysInMonth(y: int, m: int): int
    requires 1 <= m <= 12
  {
    if m == 2 then (if IsLeap(y) then 29 else 28)
    else if m == 4 || m == 6 || m == 9 || m == 11 then 30
    else 31
  }

  /** Days in the months of year y that come before month m. */
  function DaysBeforeMonth(y: int, m: int): int
    requires 1 <= m <= 12
  {
    if m == 1 then 0 else DaysBeforeMonth(y, m - 1) + DaysInMonth(y, m - 1)
  }

  /** Days in the years before year y, counted from year 1 of the proleptic Gregorian calendar. */
  function DaysBeforeYear(y: int): int
  {
    var y1 := y - 1;
    y1 * 365 + y1 / 4 - y1 / 100 + y1 / 400
  }

  /** date.toordinal(): 0001-01-01 is day 1. */
  function Ordinal(d: ValidDateTime): int
  {
    DaysBeforeYear(d.year) + DaysBeforeMonth(d.year, d.month) + d.day
  }

  /** The minute a timestamp falls on, counted on one fixed scale: subtracting two gives the timedelta in minutes. */
  function Minutes(d: ValidDateTime): int
  {
    Ordinal(d) * MinutesPerDay + d.hour * 60 + d.minute
  }

  /** The same calendar day at 00:00. */
  function Midnight(d: ValidDateTime): ValidDateTime
  {
    DateTime(d.year, d.month, d.day, 0, 0)
  }

  /** Calendar order: field by field, from the year down to the minute. */
  predicate Before(a: DateTime, b: DateTime)
  {
    || a.year < b.year
    || (a.year == b.year && a.month < b.month)
    || (a.year == b.year && a.month == b.month && a.day < b.day)
    || (a.year == b.year && a.month == b.month && a.day == b.day && a.hour < b.hour)
    || (a.year == b.year && a.month == b.month && a.day == b.day && a.hour == b.hour && a.minute < b.minute)
  }

  lemma DaysBeforeYearStep(y: int)
    ensures DaysBeforeYear(y + 1) == DaysBeforeYear(y) + DaysInYear(y)
  {
    var y1 := y - 1;
    assert y / 4 - y1 / 4 == (if y % 4 == 0 then 1 else 0);
    assert y / 100 - y1 / 100 == (if y % 100 == 0 then 1 else 0);
    assert y / 400 - y1 / 400 == (if y % 400 == 0 then 1 else 0);
  }

  /** A month ends no later than the next one begins, and the year ends after December. */
  lemma {:induction false} MonthEndsBefore(y: int, m: int, n: int)
    requires 1 <= m < n <= 12
    ensures DaysBeforeMonth(y, m) + DaysInMonth(y, m) <= DaysBeforeMonth(y, n)
  {
    if n > m + 1 {
      MonthEndsBefore(y, m, n - 1);
    }
  }

  /** The cumulative month table of Python's datetime module, with the leap day counted from March on. */
  function CumulativeDays(m: int): int
    requires 1 <= m <= 12
  {
    [0, 31, 59, 90, 120, 151, 181, 212, 243, 273, 304, 334][m - 1]
  }

  lemma {:induction false} DaysBeforeMonthTable(y: int, m: int)
    requires 1 <= m <= 12
    ensures DaysBeforeMonth(y, m) == CumulativeDays(m) + (if m > 2 && IsLeap(y) then 1 else 0)
  {
    if m > 1 {
      DaysBeforeMonthTable(y, m - 1);
    }
  }

  lemma YearLength(y: int)
    ensures DaysBeforeMonth(y, 12) + DaysInMonth(y, 12) == DaysInYear(y)
  {
    DaysBeforeMonthTable(y, 12);
  }

  /** Ordinals grow with the year: a whole year lies between the start of year y and any later year. */
  lemma {:induction false} YearsBefore(y: int, z: int)
    requires y < z
    ensures DaysBeforeYear(y) + DaysInYear(y) <= DaysBeforeYear(z)
    decreases z - y
  {
    DaysBeforeYearStep(y);
    if z > y + 1 {
      YearsBefore(y + 1, z);
      assert DaysInYear(y + 1) > 0;
    }
  }

  /** A day earlier in the calendar has a smaller ordinal. */
  lemma OrdinalOrder(a: ValidDateTime, b: ValidDateTime)
    requires (a.year, a.month, a.day) != (b.year, b.month, b.day)
    requires Before(Midnight(a), Midnight(b))
    ensures Ordinal(a) < Ordinal(b)
  {
    DaysBeforeMonthTable(b.year, b.month);
    if a.year < b.year {
      if a.month < 12 { MonthEndsBefore(a.year, a.month, 12); }
      YearLength(a.year);
      YearsBefore(a.year, b.year);
    } else if a.month < b.month {
      MonthEndsBefore(a.year, a.month, b.month);
    }
  }

  /**
   * Subtracting minute counts agrees with the calendar: one timestamp has the
   * smaller count exactly when it comes first field by field, and equal counts
   * mean equal timestamps.
   */
  lemma MinutesOrderIsCalendarOrder(a: ValidDateTime, b: ValidDateTime)
    ensures Minutes(a) < Minutes(b) <==> Before(a, b)
    ensures Minutes(a) == Minutes(b) <==> a == b
  {
    if (a.year, a.month, a.day) != (b.year, b.month, b.day) {
      if Before(Midnight(a), Midnight(b)) {
        OrdinalOrder(a, b);
      } else {
        OrdinalOrder(b, a);
      }
    }
  }

  /**
   * The midnight of a timestamp's day lies on a day boundary of the minute
   * scale, at most 1439 minutes before the timestamp.
   */
  lemma MidnightStartsTheDay(d: ValidDateTime)
    ensures Minutes(Midnight(d)) % MinutesPerDay == 0
    ensures Minutes(Midnight(d)) <= Minutes(d) < Minutes(Midnight(d)) + MinutesPerDay
    ensures Before(Midnight(d), d) || Midnight(d) == d
  {
  }
}
