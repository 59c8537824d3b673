/**
 * Day arithmetic on the proleptic Gregorian calendar, counted in days from
 * 1970-01-01 (the epoch day used by both java.time and java.util.Date).
 */
module Calendar {

  /** A calendar date; `IsValid` says when its fields name a real day. */
  datatype Date = Date(year: int, month: int, day: int)

  predicate IsLeapYear(y: int) {
    y % 4 == 0 && (y % 100 != 0 || y % 400 == 0)
  }

  function DaysInYear(y: int): int {
    if IsLeapYear(y) then 366 else 365
  }

  function DaysInMonth(y: int, m: int): (n: int)
    requires 1 <= m <= 12
    ensures 28 <= n <= 31
  {
    if m == 2 then (if IsLeapYear(y) then 29 else 28)
    else if m == 4 || m == 6 || m == 9 || m == 11 then 30
    else 31
  }

  predicate IsValid(d: Date) {
    1 <= d.month <= 12 && 1 <= d.day <= DaysInMonth(d.year, d.month)
  }

  /** Days in the months of a common year that precede month m (1-based, m = 13 is the whole year). */
  const CumulativeDays: seq<int> := [0, 31, 59, 90, 120, 151, 181, 212, 243, 273, 304, 334, 365]

  /** Days of year y that lie before the first of month m. */
  function DaysBeforeMonth(y: int, m: int): int
    requires 1 <= m <= 13
  {
    CumulativeDays[m - 1] + (if m > 2 && IsLeapYear(y) then 1 else 0)
  }

  /** Leap years among 1..n when n >= 0 (a signed count otherwise; only differences matter). */
  function LeapYearsThrough(n: int): int {
    n / 4 - n / 100 + n / 400
  }

  /** Days from 1970-01-01 to the first of January of year y (negative before 1970). */
  function DaysBeforeYear(y: int): int {
    365 * (y - 1970) + LeapYearsThrough(y - 1) - LeapYearsThrough(1969)
  }

  /**
   * The epoch day of a date. The day field is not range-checked: a day of 0
   * or past the month's end counts on into the neighbouring month, as a
   * lenient calendar does.
   */
  function DaysFromCivil(d: Date): int
    requires 1 <= d.month <= 12
  {
    DaysBeforeYear(d.year) + DaysBeforeMonth(d.year, d.month) + d.day - 1
  }

  /** Epoch day 0 is 1970-01-01, the epoch of java.time and java.util.Date. */
  lemma EpochDay()
    ensures DaysFromCivil(Date(1970, 1, 1)) == 0
    ensures CivilFromDays(0) == Date(1970, 1, 1)
  {
    CivilRoundTrip(Date(1970, 1, 1));
  }

  /**
   * One more in the day field is one more epoch day, whether or not the day
   * is within its month: day 0 is the last day of the previous month (of the
   * previous year in January), and the day after a month's last is the first
   * of the next month (of the next year in December).
   */
  lemma {:induction false} DaysFromCivilDayStep(y: int, m: int, d: int)
    requires 1 <= m <= 12
    ensures DaysFromCivil(Date(y, m, d + 1)) == DaysFromCivil(Date(y, m, d)) + 1
    ensures m > 1 ==> DaysFromCivil(Date(y, m, 0)) == DaysFromCivil(Date(y, m - 1, DaysInMonth(y, m - 1)))
    ensures m == 1 ==> DaysFromCivil(Date(y, 1, 0)) == DaysFromCivil(Date(y - 1, 12, 31))
    ensures m < 12 ==> DaysFromCivil(Date(y, m, DaysInMonth(y, m) + 1)) == DaysFromCivil(Date(y, m + 1, 1))
    ensures m == 12 ==> DaysFromCivil(Date(y, 12, 32)) == DaysFromCivil(Date(y + 1, 1, 1))
  {
    MonthStep(y, m);
    if m > 1 {
      MonthStep(y, m - 1);
    } else {
      YearStep(y - 1);
      MonthsFillYear(y - 1);
    }
    if m == 12 {
      YearStep(y);
      MonthsFillYear(y);
    }
  }

  /** Lexicographic order on (year, month, day). */
  predicate Before(a: Date, b: Date) {
    a.year < b.year
    || (a.year == b.year && a.month < b.month)
    || (a.year == b.year && a.month == b.month && a.day < b.day)
  }

  predicate AtOrBefore(a: Date, b: Date) {
    a == b || Before(a, b)
  }

  // ---------------------------------------------------------------------------
  // Facts about the year and month tables
  // ---------------------------------------------------------------------------

  lemma DivisibleStep4(n: int)
    ensures n / 4 - (n - 1) / 4 == if n % 4 == 0 then 1 else 0
  {
  }

  lemma DivisibleStep100(n: int)
    ensures n / 100 - (n - 1) / 100 == if n % 100 == 0 then 1 else 0
  {
  }

  lemma DivisibleStep400(n: int)
    ensures n / 400 - (n - 1) / 400 == if n % 400 == 0 then 1 else 0
  {
  }

  /** Consecutive years are DaysInYear apart. */
  lemma YearStep(y: int)
    ensures DaysBeforeYear(y + 1) == DaysBeforeYear(y) + DaysInYear(y)
  {
    DivisibleStep4(y);
    DivisibleStep100(y);
    DivisibleStep400(y);
    assert y % 400 == 0 ==> y % 100 == 0;
    assert y % 100 == 0 ==> y % 4 == 0;
  }

  /** The Gregorian calendar repeats every 400 years, which hold 146097 days. */
  lemma YearCycle(y: int)
    ensures DaysBeforeYear(y + 400) == DaysBeforeYear(y) + 146097
  {
    assert (y + 399) / 4 == (y - 1) / 4 + 100;
    assert (y + 399) / 100 == (y - 1) / 100 + 4;
    assert (y + 399) / 400 == (y - 1) / 400 + 1;
  }

  lemma {:induction false} YearCycles(y: int, q: int)
    ensures DaysBeforeYear(y + 400 * q) == DaysBeforeYear(y) + 146097 * q
    decreases if q < 0 then -q else q
  {
    if q > 0 {
      YearCycles(y, q - 1);
      YearCycle(y + 400 * (q - 1));
    } else if q < 0 {
      YearCycles(y, q + 1);
      YearCycle(y + 400 * q);
    }
  }

  /** Every year that starts after year a ends starts no earlier than a ends. */
  lemma {:induction false} YearsAreOrdered(a: int, b: int)
    requires a < b
    ensures DaysBeforeYear(a) + DaysInYear(a) <= DaysBeforeYear(b)
    decreases b - a
  {
    YearStep(a);
    if a + 1 < b {
      YearsAreOrdered(a + 1, b);
      YearStep(a + 1);
    }
  }

  lemma MonthStep(y: int, m: int)
    requires 1 <= m <= 12
    ensures DaysBeforeMonth(y, m + 1) == DaysBeforeMonth(y, m) + DaysInMonth(y, m)
  {
  }

  lemma MonthsFillYear(y: int)
    ensures DaysBeforeMonth(y, 13) == DaysInYear(y)
  {
  }

  lemma MonthsAreOrdered(y: int, a: int, b: int)
    requires 1 <= a < b <= 13
    ensures DaysBeforeMonth(y, a + 1) <= DaysBeforeMonth(y, b)
  {
  }

  // ---------------------------------------------------------------------------
  // From an epoch day back to a date
  // ---------------------------------------------------------------------------

  /** Walks whole years forward from y until the remaining day count fits in one year. */
  function YearContaining(y: int, rem: int): (r: (int, int))
    requires 0 <= rem
    ensures y <= r.0
    ensures 0 <= r.1 < DaysInYear(r.0)
    ensures DaysBeforeYear(r.0) + r.1 == DaysBeforeYear(y) + rem
    decreases rem
  {
    if rem < DaysInYear(y) then (y, rem)
    else
      YearStep(y);
      YearContaining(y + 1, rem - DaysInYear(y))
  }

  /** Walks months forward from m until day-of-year doy falls inside one. */
  function MonthContaining(y: int, doy: int, m: int): (r: (int, int))
    requires 1 <= m <= 12
    requires DaysBeforeMonth(y, m) <= doy < DaysInYear(y)
    ensures IsValid(Date(y, r.0, r.1))
    ensures DaysBeforeMonth(y, r.0) + r.1 - 1 == doy
    decreases 12 - m
  {
    MonthStep(y, m);
    if doy < DaysBeforeMonth(y, m + 1) || m == 12 then
      MonthsFillYear(y);
      (m, doy - DaysBeforeMonth(y, m) + 1)
    else
      MonthContaining(y, doy, m + 1)
  }

  /** The date whose epoch day is `days`. */
  function CivilFromDays(days: int): (d: Date)
    ensures IsValid(d)
    ensures DaysFromCivil(d) == days
  {
    var cycles := days / 146097;
    var (y0, doy) := YearContaining(1970, days % 146097);
    var y := y0 + 400 * cycles;
    YearCycles(y0, cycles);
    YearCycles(y0 + 1, cycles);
    YearStep(y0);
    YearStep(y);
    var (m, dd) := MonthContaining(y, doy, 1);
    Date(y, m, dd)
  }

  // ---------------------------------------------------------------------------
  // Order, uniqueness and succession
  // ---------------------------------------------------------------------------

  /** A valid date's epoch day lies within its own year. */
  lemma DayWithinYear(d: Date)
    requires IsValid(d)
    ensures DaysBeforeYear(d.year) <= DaysFromCivil(d) < DaysBeforeYear(d.year) + DaysInYear(d.year)
  {
    MonthStep(d.year, d.month);
    MonthsFillYear(d.year);
    if d.month < 12 {
      MonthsAreOrdered(d.year, d.month, 13);
    }
  }

  /** An earlier valid date has a smaller epoch day. */
  lemma EarlierDateEarlierDay(a: Date, b: Date)
    requires IsValid(a) && IsValid(b)
    requires Before(a, b)
    ensures DaysFromCivil(a) < DaysFromCivil(b)
  {
    if a.year < b.year {
      DayWithinYear(a);
      DayWithinYear(b);
      YearsAreOrdered(a.year, b.year);
    } else if a.month < b.month {
      MonthStep(a.year, a.month);
      MonthsAreOrdered(a.year, a.month, b.month);
    }
  }

  /** Calendar order and epoch-day order agree on valid dates. */
  lemma BeforeMeansEarlierDay(a: Date, b: Date)
    requires IsValid(a) && IsValid(b)
    ensures Before(a, b) <==> DaysFromCivil(a) < DaysFromCivil(b)
  {
    if Before(a, b) {
      EarlierDateEarlierDay(a, b);
    } else if Before(b, a) {
      EarlierDateEarlierDay(b, a);
    }
  }

  /** Distinct valid dates have distinct epoch days. */
  lemma DaysFromCivilInjective(a: Date, b: Date)
    requires IsValid(a) && IsValid(b)
    requires DaysFromCivil(a) == DaysFromCivil(b)
    ensures a == b
  {
    BeforeMeansEarlierDay(a, b);
    BeforeMeansEarlierDay(b, a);
  }

  /** CivilFromDays and DaysFromCivil are inverse on valid dates. */
  lemma CivilRoundTrip(d: Date)
    requires IsValid(d)
    ensures CivilFromDays(DaysFromCivil(d)) == d
  {
    DaysFromCivilInjective(CivilFromDays(DaysFromCivil(d)), d);
  }

  /** Later epoch days never give earlier dates. */
  lemma CivilFromDaysMonotone(a: int, b: int)
    requires a <= b
    ensures AtOrBefore(CivilFromDays(a), CivilFromDays(b))
  {
    var da, db := CivilFromDays(a), CivilFromDays(b);
    if Before(db, da) {
      EarlierDateEarlierDay(db, da);
    } else if da != db {
      assert Before(da, db);
    }
  }

  /** The day after d, rolling over the end of the month and of the year. */
  function NextDate(d: Date): (n: Date)
    requires IsValid(d)
    ensures IsValid(n)
    ensures Before(d, n)
    ensures DaysFromCivil(n) == DaysFromCivil(d) + 1
  {
    if d.day < DaysInMonth(d.year, d.month) then
      Date(d.year, d.month, d.day + 1)
    else if d.month < 12 then
      MonthStep(d.year, d.month);
      Date(d.year, d.month + 1, 1)
    else
      YearStep(d.year);
      MonthsFillYear(d.year);
      MonthStep(d.year, 12);
      Date(d.year + 1, 1, 1)
  }

  /** One more epoch day is the next date. */
  lemma CivilFromDaysSucc(days: int)
    ensures CivilFromDays(days + 1) == NextDate(CivilFromDays(days))
  {
    DaysFromCivilInjective(CivilFromDays(days + 1), NextDate(CivilFromDays(days)));
  }
}
