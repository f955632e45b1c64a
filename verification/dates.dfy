/**
  Calendar dates as (year, month, day) triples of the proleptic Gregorian
  calendar, the ordering `LocalDate` uses, and the whole-years count of
  `Period.between(start, end).getYears()`.
*/
module Dates {

  datatype Ymd = Ymd(year: int, month: int, day: int)

  predicate IsLeapYear(y: int)
  {
    y % 4 == 0 && (y % 100 != 0 || y % 400 == 0)
  }

  function DaysInMonth(y: int, m: int): (n: int)
    requires 1 <= m <= 12
    ensures 28 <= n <= 31
    ensures m == 2 ==> (n == 29 <==> IsLeapYear(y))
  {
    if m == 2 then (if IsLeapYear(y) then 29 else 28)
    else if m == 4 || m == 6 || m == 9 || m == 11 then 30
    else 31
  }

  /** A triple that names a day of the calendar. */
  predicate IsCalendarDate(d: Ymd)
  {
    1 <= d.month <= 12 && 1 <= d.day <= DaysInMonth(d.year, d.month)
  }

  /** A `LocalDate`: only valid triples. */
  type Date = d: Ymd | IsCalendarDate(d) witness Ymd(1970, 1, 1)

  /** `(m1, d1)` comes strictly earlier in a year than `(m2, d2)`. */
  predicate MonthDayBefore(m1: int, d1: int, m2: int, d2: int)
  {
    m1 < m2 || (m1 == m2 && d1 < d2)
  }

  /** `a.isBefore(b)`: chronological order, lexicographic on the triple. */
  predicate Before(a: Ymd, b: Ymd)
  {
    a.year < b.year || (a.year == b.year && MonthDayBefore(a.month, a.day, b.month, b.day))
  }

  /** `a.isAfter(b)`. */
  predicate After(a: Ymd, b: Ymd)
  {
    Before(b, a)
  }

  /** The day after `d`. */
  function NextDay(d: Date): (n: Date)
    ensures Before(d, n)
    ensures forall x: Ymd :: Before(d, x) && IsCalendarDate(x) ==> !Before(x, n)
  {
    if d.day < DaysInMonth(d.year, d.month) then Ymd(d.year, d.month, d.day + 1)
    else if d.month < 12 then Ymd(d.year, d.month + 1, 1)
    else Ymd(d.year + 1, 1, 1)
  }

  /**
    Reference definition of age: the number of whole calendar years from
    `b` to `t`, where the year in which the anniversary of `b` has not yet
    come round does not count. Meaningful for `b` not after `t`.
  */
  function ElapsedYears(b: Ymd, t: Ymd): int
  {
    t.year - b.year - (if MonthDayBefore(t.month, t.day, b.month, b.day) then 1 else 0)
  }

  /** The month count `LocalDate.getProlepticMonth` gives. */
  function ProlepticMonth(d: Ymd): int
  {
    d.year * 12 + d.month - 1
  }

  /** Java's integer `/`, which truncates toward zero. */
  function TruncDiv(a: int, n: int): (q: int)
    requires n > 0
    ensures a >= 0 ==> 0 <= q && q * n <= a < q * n + n
    ensures a <= 0 ==> q <= 0 && q * n - n < a <= q * n
  {
    if a >= 0 then a / n else -((-a) / n)
  }

  /**
    `Period.between(start, end).getYears()`, computed the way
    `LocalDate.until` does: the difference in proleptic months, less one
    when a positive span ends on an earlier day of the month than it began
    (plus one for the mirror case of a negative span), divided by twelve
    with truncation.
  */
  function PeriodYears(start: Date, end: Date): (years: int)
    ensures !After(start, end) ==> years >= 0
    ensures After(start, end) ==> years <= 0
  {
    var totalMonths := ProlepticMonth(end) - ProlepticMonth(start);
    var days := end.day - start.day;
    var months :=
      if totalMonths > 0 && days < 0 then totalMonths - 1
      else if totalMonths < 0 && days > 0 then totalMonths + 1
      else totalMonths;
    TruncDiv(months, 12)
  }

  /** For a start that is not after the end, the library's year count is the calendar age. */
  lemma PeriodYearsIsElapsedYears(start: Date, end: Date)
    requires !After(start, end)
    ensures PeriodYears(start, end) == ElapsedYears(start, end)
  {
  }

  /** A start after the end gives a year count of at most zero (the second `ensures` of `PeriodYears`, named as a lemma). */
  lemma PeriodYearsOfLaterStart(start: Date, end: Date)
    requires After(start, end)
    ensures PeriodYears(start, end) <= 0
  {
  }
}
