/** Calendar dates as the dashboard reads them from JavaScript `Date`
    objects (`getFullYear`, `getMonth() + 1`, `getDate`), and the time line
    (`getTime`) counted in whole days. */
module Dates {
  import opened Options

  /** A date; `month` is 1..12 (JavaScript's `getMonth()` plus one). */
  datatype Date = Date(year: int, month: int, day: int)

  predicate IsLeapYear(y: int) {
    y % 4 == 0 && (y % 100 != 0 || y % 400 == 0)
  }

  function YearLength(y: int): int {
    if IsLeapYear(y) then 366 else 365
  }

  function DaysInMonth(y: int, m: int): int {
    if m == 2 then (if IsLeapYear(y) then 29 else 28)
    else if m == 4 || m == 6 || m == 9 || m == 11 then 30
    else 31
  }

  predicate ValidDate(d: Date) {
    1 <= d.month <= 12 && 1 <= d.day <= DaysInMonth(d.year, d.month)
  }

  /** What the getters of a valid JavaScript `Date` return. */
  type CalendarDate = d: Date | ValidDate(d) witness Date(1970, 1, 1)

  /** `new Date(text)`, as far as the dashboard needs it: the calendar date a
      text denotes, or `None` for an invalid date. The parser itself is a
      parameter of the model. */
  type DateParser = string -> Option<CalendarDate>

  /** `new Date(s)`: the empty string is an invalid date; any other text is read by `parse`. */
  function NewDate(parse: DateParser, s: string): (r: Option<CalendarDate>)
    ensures s == "" ==> r == None
    ensures s != "" ==> r == parse(s)
  {
    if s == "" then None else parse(s)
  }

  // ----- order of dates -----

  /** `a` is an earlier date than `b`: by year, then month, then day. */
  predicate DateBefore(a: Date, b: Date) {
    a.year < b.year
    || (a.year == b.year && (a.month < b.month || (a.month == b.month && a.day < b.day)))
  }

  predicate DateAtOrBefore(a: Date, b: Date) {
    DateBefore(a, b) || a == b
  }

  // ----- counting days -----

  /** Leap years among the years 1..n (a proleptic count for n < 1). */
  function LeapsUpTo(n: int): int {
    n / 4 - n / 100 + n / 400
  }

  /** Days from 1970-01-01 to January 1 of year `y` (negative before 1970). */
  function DaysBeforeYear(y: int): int {
    365 * (y - 1970) + LeapsUpTo(y - 1) - LeapsUpTo(1969)
  }

  /** Days of year `y` before the first of month `m` (1..12). */
  function DaysBeforeMonth(y: int, m: int): int {
    var leap := if IsLeapYear(y) && m > 2 then 1 else 0;
    leap + (
      if m <= 1 then 0 else if m == 2 then 31 else if m == 3 then 59
      else if m == 4 then 90 else if m == 5 then 120 else if m == 6 then 151
      else if m == 7 then 181 else if m == 8 then 212 else if m == 9 then 243
      else if m == 10 then 273 else if m == 11 then 304 else 334)
  }

  /** `getTime()` in days: the number of days since 1970-01-01. */
  function DayNumber(d: Date): int {
    DaysBeforeYear(d.year) + DaysBeforeMonth(d.year, d.month) + d.day - 1
  }

  lemma DivStep(y: int)
    ensures y / 4 - (y - 1) / 4 == (if y % 4 == 0 then 1 else 0)
    ensures y / 100 - (y - 1) / 100 == (if y % 100 == 0 then 1 else 0)
    ensures y / 400 - (y - 1) / 400 == (if y % 400 == 0 then 1 else 0)
  {
  }

  lemma MultipleOf400(y: int)
    requires y % 400 == 0
    ensures y % 100 == 0
  {
    assert y == 100 * (4 * (y / 400));
  }

  lemma MultipleOf100(y: int)
    requires y % 100 == 0
    ensures y % 4 == 0
  {
    assert y == 4 * (25 * (y / 100));
  }

  /** The leap-year count grows by one exactly at a leap year. */
  lemma LeapStep(y: int)
    ensures LeapsUpTo(y) - LeapsUpTo(y - 1) == (if IsLeapYear(y) then 1 else 0)
  {
    DivStep(y);
    var by4, by100, by400 := y % 4 == 0, y % 100 == 0, y % 400 == 0;
    if by400 {
      MultipleOf400(y);
      MultipleOf100(y);
    } else if by100 {
      MultipleOf100(y);
    }
    assert LeapsUpTo(y) - LeapsUpTo(y - 1) == (if by4 then 1 else 0) - (if by100 then 1 else 0) + (if by400 then 1 else 0);
  }

  /** A year has `YearLength` days. */
  lemma YearStep(y: int)
    ensures DaysBeforeYear(y + 1) == DaysBeforeYear(y) + YearLength(y)
  {
    LeapStep(y);
    assert DaysBeforeYear(y + 1) - DaysBeforeYear(y) == 365 + LeapsUpTo(y) - LeapsUpTo(y - 1);
  }

  lemma {:induction false} YearsMonotone(y1: int, y2: int)
    requires y1 < y2
    ensures DaysBeforeYear(y2) >= DaysBeforeYear(y1) + YearLength(y1)
    decreases y2 - y1
  {
    YearStep(y1);
    if y2 > y1 + 1 {
      YearsMonotone(y1 + 1, y2);
    }
  }

  lemma MonthsMonotone(y: int, m1: int, m2: int)
    requires 1 <= m1 < m2 <= 12
    ensures DaysBeforeMonth(y, m2) >= DaysBeforeMonth(y, m1) + DaysInMonth(y, m1)
  {
  }

  lemma DayOfYearBounds(d: CalendarDate)
    ensures 0 <= DaysBeforeMonth(d.year, d.month) + d.day - 1 < YearLength(d.year)
  {
  }

  /** On valid dates the day numbering follows the calendar order, both ways. */
  lemma DayNumberOrder(a: CalendarDate, b: CalendarDate)
    ensures DateBefore(a, b) <==> DayNumber(a) < DayNumber(b)
  {
    if DateBefore(a, b) {
      DayNumberIncreases(a, b);
    } else if a != b {
      assert DateBefore(b, a);
      DayNumberIncreases(b, a);
    }
  }

  lemma DayNumberIncreases(a: CalendarDate, b: CalendarDate)
    requires DateBefore(a, b)
    ensures DayNumber(a) < DayNumber(b)
  {
    if a.year < b.year {
      YearsMonotone(a.year, b.year);
      DayOfYearBounds(a);
      DayOfYearBounds(b);
    } else if a.month < b.month {
      MonthsMonotone(a.year, a.month, b.month);
    }
  }
}
