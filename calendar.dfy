/**
 * Proleptic Gregorian calendar arithmetic on (year, month, day) triples:
 * what the client obtains from `new Date(year, month, day)`, `getDay()` and
 * `new Date(year, month + 1, 0).getDate()`.
 */
module Calendar {

  /** A calendar date; `month` runs 1..12 and `day` 1..31. */
  datatype Date = Date(year: int, month: int, day: int)

  predicate IsLeapYear(y: int) {
    (y % 4 == 0 && y % 100 != 0) || y % 400 == 0
  }

  /** Number of days of month `m` (1-based) of year `y`. */
  function DaysInMonth(y: int, m: int): (n: int)
    requires 1 <= m <= 12
    ensures 28 <= n <= 31
    ensures m == 2 ==> (n == 29 <==> IsLeapYear(y))
  {
    if m == 2 then (if IsLeapYear(y) then 29 else 28)
    else if m == 4 || m == 6 || m == 9 || m == 11 then 30
    else 31
  }

  function DaysInYear(y: int): int {
    if IsLeapYear(y) then 366 else 365
  }

  /** A date that exists in the calendar. */
  predicate ValidDate(d: Date) {
    1 <= d.month <= 12 && 1 <= d.day <= DaysInMonth(d.year, d.month)
  }

  /** Days of year `y` that lie before the first day of month `m`; `m == 13` gives the whole year. */
  function DaysBeforeMonth(y: int, m: int): (n: int)
    requires 1 <= m <= 13
    ensures 28 * (m - 1) <= n <= 31 * (m - 1)
  {
    if m == 1 then 0 else DaysBeforeMonth(y, m - 1) + DaysInMonth(y, m - 1)
  }

  /** Days from 0001-01-01 to January 1st of year `y` (negative before year 1). */
  function DaysBeforeYear(y: int): int {
    var p := y - 1;
    365 * p + p / 4 - p / 100 + p / 400
  }

  /** Days elapsed since 0001-01-01, which was a Monday. */
  function DayNumber(d: Date): int
    requires 1 <= d.month <= 12
  {
    DaysBeforeYear(d.year) + DaysBeforeMonth(d.year, d.month) + d.day - 1
  }

  /** The JavaScript `getDay()` of a date: 0 is Sunday, 6 is Saturday. */
  function JsGetDay(d: Date): (w: int)
    requires 1 <= d.month <= 12
    ensures 0 <= w < 7
  {
    (DayNumber(d) + 1) % 7
  }

  /** The column of a Monday-first week, `(getDay() + 6) % 7`: 0 is Monday, 6 is Sunday. */
  function MondayIndex(d: Date): (c: int)
    requires 1 <= d.month <= 12
    ensures 0 <= c < 7
  {
    (JsGetDay(d) + 6) % 7
  }

  /** Chronological order of dates. */
  predicate DateLess(a: Date, b: Date) {
    a.year < b.year
    || (a.year == b.year && a.month < b.month)
    || (a.year == b.year && a.month == b.month && a.day < b.day)
  }

  /** Two reference points: 1970-01-01 was a Thursday and 2024-01-01 a Monday. */
  lemma KnownWeekdays()
    ensures JsGetDay(Date(1970, 1, 1)) == 4
    ensures JsGetDay(Date(2024, 1, 1)) == 1
    ensures MondayIndex(Date(2024, 1, 1)) == 0
  {
  }

  /** The Monday-first column is the day number modulo 7. */
  lemma MondayIndexIsDayNumberMod(d: Date)
    requires 1 <= d.month <= 12
    ensures MondayIndex(d) == DayNumber(d) % 7
  {
    var n := DayNumber(d);
    ModShift(n, 1);
    ModShift((n + 1) % 7, 6);
    ModShift(n, 7);
    ModShift(n + 1, 6);
  }

  /** Adding `k` commutes with reduction modulo 7. */
  lemma ModShift(a: int, k: int)
    ensures (a + k) % 7 == (a % 7 + k) % 7
  {
    var q, r := a / 7, a % 7;
    assert a == 7 * q + r;
    var q2, r2 := (r + k) / 7, (r + k) % 7;
    assert r + k == 7 * q2 + r2;
    assert a + k == 7 * (q + q2) + r2;
  }

  /**
   * Inside one month the weekday advances by one per day: day `d` of the month
   * sits `d - 1` columns after day 1, modulo 7.
   */
  lemma ColumnOfDay(y: int, m: int, d: int)
    requires 1 <= m <= 12
    ensures MondayIndex(Date(y, m, d)) == (MondayIndex(Date(y, m, 1)) + d - 1) % 7
  {
    var n1 := DayNumber(Date(y, m, 1));
    assert DayNumber(Date(y, m, d)) == n1 + d - 1;
    MondayIndexIsDayNumberMod(Date(y, m, d));
    MondayIndexIsDayNumberMod(Date(y, m, 1));
    ModShift(n1, d - 1);
  }

  /** The whole year is covered by its twelve months. */
  lemma MonthsFillYear(y: int)
    ensures DaysBeforeMonth(y, 13) == DaysInYear(y)
  {
    assert DaysBeforeMonth(y, 2) == 31;
    assert DaysBeforeMonth(y, 3) == 31 + DaysInMonth(y, 2);
    assert DaysBeforeMonth(y, 4) == 62 + DaysInMonth(y, 2);
    assert DaysBeforeMonth(y, 5) == 92 + DaysInMonth(y, 2);
    assert DaysBeforeMonth(y, 6) == 123 + DaysInMonth(y, 2);
    assert DaysBeforeMonth(y, 7) == 153 + DaysInMonth(y, 2);
    assert DaysBeforeMonth(y, 8) == 184 + DaysInMonth(y, 2);
    assert DaysBeforeMonth(y, 9) == 215 + DaysInMonth(y, 2);
    assert DaysBeforeMonth(y, 10) == 245 + DaysInMonth(y, 2);
    assert DaysBeforeMonth(y, 11) == 276 + DaysInMonth(y, 2);
    assert DaysBeforeMonth(y, 12) == 306 + DaysInMonth(y, 2);
  }

  /** The day after the last day of a month is the first day of the next one. */
  lemma NextMonthFollows(y: int, m: int)
    requires 1 <= m < 12
    ensures DayNumber(Date(y, m + 1, 1)) == DayNumber(Date(y, m, DaysInMonth(y, m))) + 1
  {
  }
}
