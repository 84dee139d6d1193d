/** The Gregorian calendar, counted in days from 1 January 1970. */
module Calendar {

  /** Months and days count from 1, and year 0 comes before year 1. */
  datatype Date = Date(year: int, month: int, day: int)

  const EPOCH := Date(1970, 1, 1)

  predicate IsLeap(year: int) {
    year % 4 == 0 && (year % 100 != 0 || year % 400 == 0)
  }

  function MonthLength(year: int, month: int): (n: int)
    ensures 28 <= n <= 31
  {
    if month == 2 then (if IsLeap(year) then 29 else 28)
    else if month in {4, 6, 9, 11} then 30
    else 31
  }

  predicate IsDate(d: Date) {
    1 <= d.month <= 12 && 1 <= d.day <= MonthLength(d.year, d.month)
  }

  function NextDay(d: Date): Date {
    if d.day < MonthLength(d.year, d.month) then d.(day := d.day + 1)
    else if d.month < 12 then Date(d.year, d.month + 1, 1)
    else Date(d.year + 1, 1, 1)
  }

  function PreviousDay(d: Date): Date {
    if d.day > 1 then d.(day := d.day - 1)
    else if d.month > 1 then Date(d.year, d.month - 1, MonthLength(d.year, d.month - 1))
    else Date(d.year - 1, 12, 31)
  }

  /** The date so many days after the epoch, or before it. */
  function DateOf(n: int): (d: Date)
    ensures IsDate(d)
    decreases if n < 0 then -n else n
  {
    if n == 0 then EPOCH
    else if n > 0 then NextDay(DateOf(n - 1))
    else PreviousDay(DateOf(n + 1))
  }

  // The number of a date, in closed form

  /** How many years up to this one are leap years, counted from year 0. */
  function LeapsThrough(year: int): int {
    year / 4 - year / 100 + year / 400
  }

  function YearStart(year: int): int {
    365 * (year - 1970) + LeapsThrough(year - 1) - LeapsThrough(1969)
  }

  function DaysBefore(year: int, month: int): int
    requires 1 <= month <= 12
  {
    [0, 31, 59, 90, 120, 151, 181, 212, 243, 273, 304, 334][month - 1]
    + if month > 2 && IsLeap(year) then 1 else 0
  }

  function DayNumber(d: Date): int
    requires IsDate(d)
  {
    YearStart(d.year) + DaysBefore(d.year, d.month) + d.day - 1
  }

  function YearLength(year: int): int {
    if IsLeap(year) then 366 else 365
  }

  lemma QuotientSteps(n: int, k: int)
    requires k == 4 || k == 100 || k == 400
    ensures n / k == (n - 1) / k + if n % k == 0 then 1 else 0
  {
    if k == 4 {
      assert n / 4 == (n - 1) / 4 + if n % 4 == 0 then 1 else 0;
    } else if k == 100 {
      assert n / 100 == (n - 1) / 100 + if n % 100 == 0 then 1 else 0;
    } else {
      assert n / 400 == (n - 1) / 400 + if n % 400 == 0 then 1 else 0;
    }
  }

  lemma CenturiesAreFourfold(year: int)
    ensures year % 100 == 0 ==> year % 4 == 0
    ensures year % 400 == 0 ==> year % 100 == 0
  {
    if year % 100 == 0 {
      assert year == 4 * (25 * (year / 100));
    }
    if year % 400 == 0 {
      assert year == 100 * (4 * (year / 400));
    }
  }

  lemma LeapYearsAreCounted(year: int)
    ensures LeapsThrough(year) == LeapsThrough(year - 1) + if IsLeap(year) then 1 else 0
  {
    QuotientSteps(year, 4);
    QuotientSteps(year, 100);
    QuotientSteps(year, 400);
    CenturiesAreFourfold(year);
    var four, hundred, fourHundred := year % 4 == 0, year % 100 == 0, year % 400 == 0;
    assert IsLeap(year) == (four && (!hundred || fourHundred));
  }

  lemma YearsAreConsecutive(year: int)
    ensures YearStart(year + 1) == YearStart(year) + YearLength(year)
  {
    hide LeapsThrough, IsLeap;
    LeapYearsAreCounted(year);
  }

  lemma MonthsAreConsecutive(year: int, month: int)
    requires 1 <= month <= 12
    ensures DaysBefore(year, month) + MonthLength(year, month)
         == if month < 12 then DaysBefore(year, month + 1) else YearLength(year)
  {
  }

  lemma NextDayCounts(d: Date)
    requires IsDate(d)
    ensures IsDate(NextDay(d)) && DayNumber(NextDay(d)) == DayNumber(d) + 1
  {
    YearsAreConsecutive(d.year);
    MonthsAreConsecutive(d.year, d.month);
  }

  lemma PreviousDayIsBefore(d: Date)
    requires IsDate(d)
    ensures IsDate(PreviousDay(d)) && NextDay(PreviousDay(d)) == d
  {
  }

  lemma DateOfSteps(n: int)
    ensures DateOf(0) == EPOCH
    ensures n > 0 ==> DateOf(n) == NextDay(DateOf(n - 1))
    ensures n < 0 ==> DateOf(n) == PreviousDay(DateOf(n + 1))
  {
  }

  lemma EpochIsDayZero()
    ensures IsDate(EPOCH) && DayNumber(EPOCH) == 0
  {
  }

  /** The closed form counts the days of the calendar. */
  lemma {:induction false} DayNumberOfDate(n: int)
    ensures DayNumber(DateOf(n)) == n
    decreases if n < 0 then -n else n
  {
    hide DateOf, DayNumber, NextDay, PreviousDay, IsDate, EPOCH;
    DateOfSteps(n);
    if n == 0 {
      EpochIsDayZero();
    } else if n > 0 {
      DayNumberOfDate(n - 1);
      NextDayCounts(DateOf(n - 1));
    } else {
      DayNumberOfDate(n + 1);
      PreviousDayIsBefore(DateOf(n + 1));
      NextDayCounts(DateOf(n));
    }
  }

  predicate Before(a: Date, b: Date) {
    a.year < b.year || (a.year == b.year && (a.month < b.month || (a.month == b.month && a.day < b.day)))
  }

  lemma {:induction false} YearsIncrease(a: int, b: int)
    requires a < b
    ensures YearStart(a) + YearLength(a) <= YearStart(b)
    decreases b - a
  {
    hide YearStart;
    YearsAreConsecutive(a);
    if a + 1 < b {
      YearsIncrease(a + 1, b);
    }
  }

  lemma {:induction false} MonthsIncrease(year: int, a: int, b: int)
    requires 1 <= a < b <= 12
    ensures DaysBefore(year, a) + MonthLength(year, a) <= DaysBefore(year, b)
    decreases b - a
  {
    hide DaysBefore, MonthLength;
    MonthsAreConsecutive(year, a);
    if a + 1 < b {
      MonthsIncrease(year, a + 1, b);
    }
  }

  lemma DayIsInYear(d: Date)
    requires IsDate(d)
    ensures 0 <= DaysBefore(d.year, d.month) + d.day - 1 < YearLength(d.year)
  {
  }

  lemma LaterDateIsLarger(a: Date, b: Date)
    requires IsDate(a) && IsDate(b) && Before(a, b)
    ensures DayNumber(a) < DayNumber(b)
  {
    hide YearStart, DaysBefore;
    if a.year < b.year {
      YearsIncrease(a.year, b.year);
      DayIsInYear(a);
      DayIsInYear(b);
    } else if a.month < b.month {
      MonthsIncrease(a.year, a.month, b.month);
    }
  }

  /** Every date of the calendar is reached, and only by its own number. */
  lemma DateOfDayNumber(d: Date)
    requires IsDate(d)
    ensures DateOf(DayNumber(d)) == d
  {
    hide DateOf, DayNumber;
    var e := DateOf(DayNumber(d));
    DayNumberOfDate(DayNumber(d));
    if e != d {
      if Before(e, d) {
        LaterDateIsLarger(e, d);
      } else {
        LaterDateIsLarger(d, e);
      }
    }
  }

  lemma DatesIncrease(m: int, n: int)
    requires m < n
    ensures Before(DateOf(m), DateOf(n))
  {
    hide DateOf, DayNumber;
    var a, b := DateOf(m), DateOf(n);
    DayNumberOfDate(m);
    DayNumberOfDate(n);
    if !Before(a, b) && a != b {
      LaterDateIsLarger(b, a);
    }
  }
}
