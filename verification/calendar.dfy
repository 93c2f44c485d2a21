/**
 * An explicit proleptic Gregorian calendar: leap years, month lengths,
 * a day count and the weekday derived from it. It replaces the host's
 * `Date` object for the calendar helpers of the scheduler.
 */
module Calendar {

  /** A calendar date; `month` is 1-based (January is 1). */
  datatype Date = Date(year: int, month: int, day: int)

  /** Weekday numbers as `Date.prototype.getDay` returns them: 0 is Sunday. */
  const Friday: int := 5

  predicate IsLeapYear(y: int) {
    y % 4 == 0 && (y % 100 != 0 || y % 400 == 0)
  }

  function DaysInMonth(y: int, m: int): (n: int)
    requires 1 <= m <= 12
    ensures 28 <= n <= 31
    ensures n == 29 <==> m == 2 && IsLeapYear(y)
    ensures n == 30 <==> m == 4 || m == 6 || m == 9 || m == 11
  {
    if m == 2 then (if IsLeapYear(y) then 29 else 28)
    else if m == 4 || m == 6 || m == 9 || m == 11 then 30
    else 31
  }

  function YearLength(y: int): int {
    if IsLeapYear(y) then 366 else 365
  }

  predicate ValidDate(d: Date) {
    1 <= d.month <= 12 && 1 <= d.day <= DaysInMonth(d.year, d.month)
  }

  /** Days of year `y` that precede the first day of month `m`; month 13 stands for the whole year. */
  function DaysBeforeMonth(y: int, m: int): int
    requires 1 <= m <= 13
  {
    var leap := if IsLeapYear(y) then 1 else 0;
    if m == 1 then 0
    else if m == 2 then 31
    else if m == 3 then 59 + leap
    else if m == 4 then 90 + leap
    else if m == 5 then 120 + leap
    else if m == 6 then 151 + leap
    else if m == 7 then 181 + leap
    else if m == 8 then 212 + leap
    else if m == 9 then 243 + leap
    else if m == 10 then 273 + leap
    else if m == 11 then 304 + leap
    else if m == 12 then 334 + leap
    else 365 + leap
  }

  /** Days from 0001-01-01 to January 1st of year `y` (negative before year 1). */
  function DaysBeforeYear(y: int): int {
    365 * (y - 1) + (y - 1) / 4 - (y - 1) / 100 + (y - 1) / 400
  }

  /** The day count of a date: 0001-01-01 is day 0. */
  function DayNumber(d: Date): int
    requires 1 <= d.month <= 12
  {
    DaysBeforeYear(d.year) + DaysBeforeMonth(d.year, d.month) + d.day - 1
  }

  /** `getDay()`: 0001-01-01 was a Monday, so day 0 has weekday 1. */
  function Weekday(d: Date): (w: int)
    requires 1 <= d.month <= 12
    ensures 0 <= w < 7
  {
    (DayNumber(d) + 1) % 7
  }

  /** The first day of the month after the one `d` lies in. */
  function NextMonthStart(d: Date): (r: Date)
    requires 1 <= d.month <= 12
    ensures ValidDate(r) && r.day == 1
    ensures d.month < 12 ==> r.year == d.year && r.month == d.month + 1
    ensures d.month == 12 ==> r.year == d.year + 1 && r.month == 1
  {
    if d.month == 12 then Date(d.year + 1, 1, 1) else Date(d.year, d.month + 1, 1)
  }

  /**
   * `d.setDate(d.getDate() + k)`: the day number is added to and the date
   * rolls over into the next month (and year) when it passes the month's end.
   */
  function Advance(d: Date, k: int): (r: Date)
    requires ValidDate(d) && 0 <= k <= 28
    ensures ValidDate(r)
    ensures DayNumber(r) == DayNumber(d) + k
    ensures r.year == d.year && r.month == d.month <==> d.day + k <= DaysInMonth(d.year, d.month)
  {
    var dim := DaysInMonth(d.year, d.month);
    if d.day + k <= dim then Date(d.year, d.month, d.day + k)
    else
      var n := NextMonthStart(d);
      NextMonthStartNumber(d);
      Date(n.year, n.month, d.day + k - dim)
  }

  /** Adding one to `n` raises `n / k` exactly when `n + 1` is a multiple of `k`. */
  lemma DivStep(n: int, k: int)
    requires k == 4 || k == 100 || k == 400
    ensures (n + 1) / k == n / k + (if (n + 1) % k == 0 then 1 else 0)
  {
    var q := n / k;
    assert n == k * q + n % k;
    if n % k == k - 1 {
      assert n + 1 == k * (q + 1);
    } else {
      assert n + 1 == k * q + (n % k + 1);
    }
  }

  lemma MultipleMod(x: int, k: int)
    requires k == 4 || k == 100
    ensures (k * x) % k == 0
  {
  }

  /** Multiples of 400 are multiples of 100, which are multiples of 4. */
  lemma Multiples(y: int)
    ensures y % 100 == 0 ==> y % 4 == 0
    ensures y % 400 == 0 ==> y % 100 == 0
  {
    if y % 100 == 0 {
      assert y == 4 * (25 * (y / 100));
      MultipleMod(25 * (y / 100), 4);
    }
    if y % 400 == 0 {
      assert y == 100 * (4 * (y / 400));
      MultipleMod(4 * (y / 400), 100);
    }
  }

  /** Consecutive years differ by that year's length. */
  lemma YearStep(y: int)
    ensures DaysBeforeYear(y + 1) == DaysBeforeYear(y) + YearLength(y)
  {
    var n := y - 1;
    DivStep(n, 4);
    DivStep(n, 100);
    DivStep(n, 400);
    Multiples(y);
    assert DaysBeforeYear(y + 1) == 365 * y + y / 4 - y / 100 + y / 400;
    assert DaysBeforeYear(y) == 365 * n + n / 4 - n / 100 + n / 400;
  }

  /** The first day of the next month comes exactly one month length after the first of this one. */
  lemma NextMonthStartNumber(d: Date)
    requires 1 <= d.month <= 12
    ensures DayNumber(NextMonthStart(d)) == DayNumber(Date(d.year, d.month, 1)) + DaysInMonth(d.year, d.month)
  {
    if d.month == 12 {
      YearStep(d.year);
    }
  }

  /** Months counted from year 0: consecutive months have consecutive indices. */
  function MonthIndex(d: Date): int {
    12 * d.year + d.month - 1
  }

  /** A date in an earlier month comes before the first day of any later month. */
  lemma {:induction false} EarlierMonthBefore(a: Date, b: Date)
    requires ValidDate(a) && 1 <= b.month <= 12
    requires MonthIndex(a) < MonthIndex(b)
    ensures DayNumber(a) < DayNumber(Date(b.year, b.month, 1))
    decreases MonthIndex(b) - MonthIndex(a)
  {
    var next := NextMonthStart(a);
    NextMonthStartNumber(a);
    assert DayNumber(a) < DayNumber(next);
    if MonthIndex(next) == MonthIndex(b) {
      assert next == Date(b.year, b.month, 1);
    } else {
      EarlierMonthBefore(next, b);
    }
  }

  /** 5 September 2025 fell on a Friday. */
  lemma KnownFriday()
    ensures Weekday(Date(2025, 9, 5)) == Friday
  {
  }
}
