/** The proleptic Gregorian calendar the JavaScript `Date` object and
    Python's `datetime` both use: leap years, month lengths, the day number
    of a date counted from 1 January 1970, and the weekday. */
module Gregorian {

  predicate IsLeap(y: int)
  {
    y % 4 == 0 && (y % 100 != 0 || y % 400 == 0)
  }

  /** Days in month `m` (1 = January) of year `y`. */
  function DaysInMonth(y: int, m: int): (n: int)
    requires 1 <= m <= 12
    ensures 28 <= n <= 31
  {
    if m == 2 then (if IsLeap(y) then 29 else 28)
    else if m == 4 || m == 6 || m == 9 || m == 11 then 30
    else 31
  }

  predicate ValidDate(y: int, m: int, d: int)
  {
    1 <= m <= 12 && 1 <= d <= DaysInMonth(y, m)
  }

  /** Days of the year that precede the first of month `m`. */
  function DaysBeforeMonth(y: int, m: int): (n: int)
    requires 1 <= m <= 12
    ensures 0 <= n <= 335
  {
    [0, 31, 59, 90, 120, 151, 181, 212, 243, 273, 304, 334][m - 1]
      + (if m > 2 && IsLeap(y) then 1 else 0)
  }

  /** The cumulative table agrees with the month lengths. */
  lemma {:induction false} MonthStep(y: int, m: int)
    requires 1 <= m < 12
    ensures DaysBeforeMonth(y, m + 1) == DaysBeforeMonth(y, m) + DaysInMonth(y, m)
  {
  }

  /** The number of leap years among 1..n, shifted so that consecutive
      values differ by one exactly at leap years. */
  function LeapsThrough(n: int): int
  {
    n / 4 - n / 100 + n / 400
  }

  function DaysBeforeYear(y: int): int
  {
    365 * (y - 1970) + LeapsThrough(y - 1) - LeapsThrough(1969)
  }

  /** Days from 1 January 1970 to the given date. */
  function DaysFromCivil(y: int, m: int, d: int): int
    requires ValidDate(y, m, d)
  {
    DaysBeforeYear(y) + DaysBeforeMonth(y, m) + d - 1
  }

  /** `Date.prototype.getDay()`: 0 is Sunday, 6 is Saturday (1 January 1970
      was a Thursday). */
  function Weekday(y: int, m: int, d: int): (w: int)
    requires ValidDate(y, m, d)
    ensures 0 <= w < 7
  {
    (DaysFromCivil(y, m, d) + 4) % 7
  }

  /** The day after a date. */
  function NextDay(y: int, m: int, d: int): (int, int, int)
    requires ValidDate(y, m, d)
  {
    if d < DaysInMonth(y, m) then (y, m, d + 1)
    else if m < 12 then (y, m + 1, 1)
    else (y + 1, 1, 1)
  }

  /** One more multiple of `k` is reached exactly when `n` is one. */
  lemma {:induction false} DivStep(n: int, k: int)
    requires k == 4 || k == 100 || k == 400
    ensures n / k - (n - 1) / k == if n % k == 0 then 1 else 0
  {
    var q, r := n / k, n % k;
    assert n == k * q + r;
    if r == 0 {
      assert n - 1 == k * (q - 1) + (k - 1);
    } else {
      assert n - 1 == k * q + (r - 1);
    }
  }

  /** A year has 366 days exactly when it is a leap year. */
  lemma {:induction false} YearLength(y: int)
    ensures DaysBeforeYear(y + 1) - DaysBeforeYear(y) == if IsLeap(y) then 366 else 365
    ensures DaysBeforeMonth(y, 12) + DaysInMonth(y, 12) == if IsLeap(y) then 366 else 365
  {
    DivStep(y, 4);
    DivStep(y, 100);
    DivStep(y, 400);
  }

  /** The day numbers of consecutive dates differ by one, across month and
      year ends, so the day number orders dates and the weekday advances
      by one each day. */
  lemma {:induction false} NextDayIsNext(y: int, m: int, d: int)
    requires ValidDate(y, m, d)
    ensures var (y', m', d') := NextDay(y, m, d);
      && ValidDate(y', m', d')
      && DaysFromCivil(y', m', d') == DaysFromCivil(y, m, d) + 1
      && Weekday(y', m', d') == (Weekday(y, m, d) + 1) % 7
  {
    var (y', m', d') := NextDay(y, m, d);
    if d < DaysInMonth(y, m) {
    } else if m < 12 {
      MonthStep(y, m);
    } else {
      YearLength(y);
    }
    SevenStep(DaysFromCivil(y, m, d) + 4);
  }

  lemma {:induction false} SevenStep(a: int)
    ensures (a + 1) % 7 == (a % 7 + 1) % 7
  {
  }

  lemma {:induction false} EpochIsThursday()
    ensures DaysFromCivil(1970, 1, 1) == 0 && Weekday(1970, 1, 1) == 4
  {
  }
}
