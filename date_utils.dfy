/**
 * The calendar arithmetic of src/utils/dateUtils.js, together with the parts of
 * JavaScript's Date constructor it relies on: a month outside 0..11 carries
 * into the year, day 0 of a month is the last day of the month before it, and
 * a year argument from 0 to 99 is read as 1900 to 1999.
 */
module DateUtils {

  /** A date as JavaScript's Date reports it: full year, 0-based month, day of month. */
  datatype CalendarDate = CalendarDate(year: int, month: int, day: int)

  /** A year together with a 0-based month. */
  datatype YearMonth = YearMonth(year: int, month: int)

  /** The Gregorian leap-year rule, as the proleptic calendar of JavaScript's Date applies it. */
  predicate IsLeapYear(year: int) {
    year % 4 == 0 && (year % 100 != 0 || year % 400 == 0)
  }

  /** The number of days of a 0-based month. */
  function DaysInMonth(year: int, month: int): (n: int)
    requires 0 <= month < 12
    ensures 28 <= n <= 31
    ensures n == 29 <==> month == 1 && IsLeapYear(year)
    ensures n == 28 <==> month == 1 && !IsLeapYear(year)
    ensures n == 30 <==> month in {3, 5, 8, 10}
  {
    if month == 1 then (if IsLeapYear(year) then 29 else 28)
    else if month == 3 || month == 5 || month == 8 || month == 10 then 30
    else 31
  }

  /** A date that exists in the Gregorian calendar. */
  predicate IsDate(d: CalendarDate) {
    0 <= d.month < 12 && 1 <= d.day <= DaysInMonth(d.year, d.month)
  }

  /** The days of the first `months` months of a year. */
  function DaysBeforeMonth(year: int, months: nat): int
    requires months <= 12
  {
    if months == 0 then 0 else DaysBeforeMonth(year, months - 1) + DaysInMonth(year, months - 1)
  }

  /** The twelve month lengths add up to 366 days in a leap year and to 365 otherwise. */
  lemma {:induction false} DaysInYear(year: int)
    ensures DaysBeforeMonth(year, 12) == if IsLeapYear(year) then 366 else 365
  {
    assert DaysBeforeMonth(year, 2) == 31 + DaysInMonth(year, 1) by {
      assert DaysBeforeMonth(year, 1) == 31;
    }
    assert DaysBeforeMonth(year, 7) == DaysBeforeMonth(year, 2) + 153 by {
      assert DaysBeforeMonth(year, 3) == DaysBeforeMonth(year, 2) + 31;
      assert DaysBeforeMonth(year, 4) == DaysBeforeMonth(year, 2) + 61;
      assert DaysBeforeMonth(year, 5) == DaysBeforeMonth(year, 2) + 92;
      assert DaysBeforeMonth(year, 6) == DaysBeforeMonth(year, 2) + 122;
    }
    assert DaysBeforeMonth(year, 12) == DaysBeforeMonth(year, 7) + 153 by {
      assert DaysBeforeMonth(year, 8) == DaysBeforeMonth(year, 7) + 31;
      assert DaysBeforeMonth(year, 9) == DaysBeforeMonth(year, 7) + 61;
      assert DaysBeforeMonth(year, 10) == DaysBeforeMonth(year, 7) + 92;
      assert DaysBeforeMonth(year, 11) == DaysBeforeMonth(year, 7) + 122;
    }
  }

  /** ECMAScript's MakeFullYear: the Date constructor reads a year from 0 to 99 as 1900 to 1999. */
  function FullYear(year: int): int {
    if 0 <= year <= 99 then 1900 + year else year
  }

  /**
   * The year and month of `new Date(year, month, d)` for a day d inside the month:
   * a month index outside 0..11 carries whole years into the year.
   */
  function MonthOf(year: int, month: int): (r: YearMonth)
    ensures 0 <= r.month < 12
    ensures 12 * r.year + r.month == 12 * FullYear(year) + month
    ensures !(0 <= year <= 99) && 0 <= month < 12 ==> r == YearMonth(year, month)
  {
    YearMonth(FullYear(year) + month / 12, month % 12)
  }

  /** A year and a month index in 0..11 are determined by their month count. */
  lemma MonthCountUnique(y1: int, m1: int, y2: int, m2: int)
    requires 0 <= m1 < 12 && 0 <= m2 < 12
    requires 12 * y1 + m1 == 12 * y2 + m2
    ensures y1 == y2 && m1 == m2
  {
  }

  // ---- Dates as day numbers (ECMAScript's DayFromYear and MakeDay) ------------------

  /**
   * ECMAScript's DayFromYear: the number of days from 1 January 1970 to 1 January
   * of `year`. Dafny's `/` by a positive number rounds down, as the standard's
   * `floor` does.
   */
  function DayFromYear(year: int): int {
    365 * (year - 1970) + (year - 1969) / 4 - (year - 1901) / 100 + (year - 1601) / 400
  }

  /** The day number of a date (days since 1 January 1970). */
  function DayNumber(d: CalendarDate): int
    requires 0 <= d.month < 12
  {
    DayFromYear(d.year) + DaysBeforeMonth(d.year, d.month) + d.day - 1
  }

  /**
   * ECMAScript's MakeDay, after the Date constructor's MakeFullYear: the day
   * number of `new Date(year, month, date)`. The month carries into the year;
   * the date is counted from day 1 of that month whatever its value.
   */
  function MakeDay(year: int, month: int, date: int): int {
    var ym := MonthOf(year, month);
    DayNumber(CalendarDate(ym.year, ym.month, date))
  }

  /** A year after `year` starts as many days later as `year` is long. */
  lemma YearStep(year: int)
    ensures DayFromYear(year + 1) == DayFromYear(year) + DaysBeforeMonth(year, 12)
  {
    DaysInYear(year);
    FourYearStep(year);
    CenturyStep(year);
    QuadricentennialStep(year);
    assert DayFromYear(year + 1) == DayFromYear(year) + 365
      + ((year - 1968) / 4 - (year - 1969) / 4)
      - ((year - 1900) / 100 - (year - 1901) / 100)
      + ((year - 1600) / 400 - (year - 1601) / 400);
  }

  /** DayFromYear's count of years divisible by 4 rises after `year` exactly when 4 divides `year`. */
  lemma FourYearStep(year: int)
    ensures (year - 1968) / 4 - (year - 1969) / 4 == if year % 4 == 0 then 1 else 0
  {
  }

  /** The count of years divisible by 100 rises after `year` exactly when 100 divides it, and then so does 4. */
  lemma CenturyStep(year: int)
    ensures (year - 1900) / 100 - (year - 1901) / 100 == if year % 100 == 0 then 1 else 0
    ensures year % 100 == 0 ==> year % 4 == 0
  {
  }

  /** The count of years divisible by 400 rises after `year` exactly when 400 divides it, and then so does 100. */
  lemma QuadricentennialStep(year: int)
    ensures (year - 1600) / 400 - (year - 1601) / 400 == if year % 400 == 0 then 1 else 0
    ensures year % 400 == 0 ==> year % 100 == 0
  {
  }

  /** The months before `n` take at least as many days as the months before `m`, for m <= n. */
  lemma {:induction false} DaysBeforeMonotone(year: int, m: nat, n: nat)
    requires m <= n <= 12
    ensures DaysBeforeMonth(year, m) <= DaysBeforeMonth(year, n)
    decreases n - m
  {
    if m < n {
      DaysBeforeMonotone(year, m, n - 1);
    }
  }

  /** A later year starts no earlier than the year after an earlier one. */
  lemma {:induction false} YearsAscend(y1: int, y2: int)
    requires y1 < y2
    ensures DayFromYear(y1 + 1) <= DayFromYear(y2)
    decreases y2 - y1
  {
    if y1 + 1 < y2 {
      YearsAscend(y1, y2 - 1);
      YearStep(y2 - 1);
      DaysInYear(y2 - 1);
    }
  }

  /** A real date's day number lies inside its year and inside its month. */
  lemma DayNumberBounds(d: CalendarDate)
    requires IsDate(d)
    ensures DayFromYear(d.year) <= DayFromYear(d.year) + DaysBeforeMonth(d.year, d.month) <= DayNumber(d)
    ensures DayNumber(d) < DayFromYear(d.year) + DaysBeforeMonth(d.year, d.month + 1)
    ensures DayNumber(d) < DayFromYear(d.year + 1)
  {
    DaysBeforeMonotone(d.year, 0, d.month);
    DaysBeforeMonotone(d.year, d.month + 1, 12);
    YearStep(d.year);
  }

  /** A real date in an earlier year has a smaller day number. */
  lemma EarlierYearEarlierDay(a: CalendarDate, b: CalendarDate)
    requires IsDate(a) && IsDate(b) && a.year < b.year
    ensures DayNumber(a) < DayNumber(b)
  {
    DayNumberBounds(a);
    DayNumberBounds(b);
    YearsAscend(a.year, b.year);
  }

  /** A real date in an earlier month of the same year has a smaller day number. */
  lemma EarlierMonthEarlierDay(a: CalendarDate, b: CalendarDate)
    requires IsDate(a) && IsDate(b) && a.year == b.year && a.month < b.month
    ensures DayNumber(a) < DayNumber(b)
  {
    DayNumberBounds(a);
    DayNumberBounds(b);
    DaysBeforeMonotone(a.year, a.month + 1, b.month);
  }

  /**
   * Two real dates with the same day number are the same date, so a day number
   * determines the `getFullYear()`, `getMonth()` and `getDate()` that a Date reports.
   */
  lemma DayNumberInjective(a: CalendarDate, b: CalendarDate)
    requires IsDate(a) && IsDate(b) && DayNumber(a) == DayNumber(b)
    ensures a == b
  {
    if a.year < b.year {
      EarlierYearEarlierDay(a, b);
      assert false;
    } else if b.year < a.year {
      EarlierYearEarlierDay(b, a);
      assert false;
    } else if a.month < b.month {
      EarlierMonthEarlierDay(a, b);
      assert false;
    } else if b.month < a.month {
      EarlierMonthEarlierDay(b, a);
      assert false;
    }
  }

  /**
   * `new Date(year, month, 0).getDate()`: day 0 of a month is the same day as
   * the returned day of the month before, and that is a real date.
   */
  function DayZero(year: int, month: int): (d: int)
    ensures var p := MonthOf(year, month - 1);
      && IsDate(CalendarDate(p.year, p.month, d))
      && MakeDay(year, month, 0) == DayNumber(CalendarDate(p.year, p.month, d))
  {
    var p := MonthOf(year, month - 1);
    DayZeroIsLastDay(year, month);
    DaysInMonth(p.year, p.month)
  }

  /** Day 0 of a month is the last day of the month before it, as day numbers. */
  lemma DayZeroIsLastDay(year: int, month: int)
    ensures var p := MonthOf(year, month - 1);
      MakeDay(year, month, 0) == DayNumber(CalendarDate(p.year, p.month, DaysInMonth(p.year, p.month)))
  {
    var q, p := MonthOf(year, month), MonthOf(year, month - 1);
    if q.month > 0 {
      MonthCountUnique(p.year, p.month, q.year, q.month - 1);
    } else {
      MonthCountUnique(p.year, p.month, q.year - 1, 11);
      YearStep(q.year - 1);
    }
  }

  /**
   * `getDaysInMonth(year, month)`: the dates of day 1 up to the last day of the
   * month, in order, and nothing from the months around it.
   */
  method GetDaysInMonth(year: int, month: int) returns (days: seq<CalendarDate>)
    ensures var ym := MonthOf(year, month);
      && |days| == DaysInMonth(ym.year, ym.month)
      && (forall k :: 0 <= k < |days| ==> days[k] == CalendarDate(ym.year, ym.month, k + 1))
    ensures forall k :: 0 <= k < |days| ==> IsDate(days[k]) && DayNumber(days[k]) == MakeDay(year, month, k + 1)
    ensures forall d :: d in days <==>
      IsDate(d) && YearMonth(d.year, d.month) == MonthOf(year, month)
    ensures !(0 <= year <= 99) && 0 <= month < 12 ==>
      |days| == DaysInMonth(year, month) &&
      forall k :: 0 <= k < |days| ==> days[k].year == year && days[k].month == month
    ensures days[0].day == 1 && days[|days| - 1].day == |days|
  {
    var ym := MonthOf(year, month);
    days := [];
    var lastDay := DayZero(year, month + 1);
    assert MonthOf(year, month + 1 - 1) == ym;
    var i := 1;
    while i <= lastDay
      invariant 1 <= i <= lastDay + 1
      invariant |days| == i - 1
      invariant forall k :: 0 <= k < |days| ==> days[k] == CalendarDate(ym.year, ym.month, k + 1)
    {
      // `new Date(year, month, i)` for 1 <= i <= lastDay stays inside the month ym.
      days := days + [CalendarDate(ym.year, ym.month, i)];
      i := i + 1;
    }
    forall d | IsDate(d) && YearMonth(d.year, d.month) == ym
      ensures d in days
    {
      assert days[d.day - 1] == d;
    }
  }
}
