/**
 * Calendar basics shared by the trainer: JavaScript's truncating remainder,
 * the Gregorian leap-year rule, the days-in-month table and the per-month
 * doomsday dates.
 */
module Calendar {

  /** A calendar date as the trainer passes it around: month 1..12, day, year. */
  datatype Date = Date(month: int, day: int, year: int)

  /**
   * JavaScript's `a % n` for a positive divisor: the result takes the sign of
   * the dividend (truncation toward zero), unlike Dafny's Euclidean `%`.
   */
  function JsRem(a: int, n: int): (r: int)
    requires n > 0
    ensures -n < r < n
    ensures a >= 0 ==> 0 <= r && r == a % n
    ensures a < 0 ==> r <= 0
  {
    if a >= 0 then a % n else -((-a) % n)
  }

  /** Both remainders agree modulo the divisor. */
  lemma JsRemCongruent(a: int, n: int)
    requires n > 0
    ensures JsRem(a, n) % n == a % n
  {
    if a < 0 {
      var q, s := (-a) / n, (-a) % n;
      assert a == (-q) * n + (-s);
      ModOfMultipleShift(-q, -s, n);
    }
  }

  /** Adding a multiple of `n` does not change a remainder modulo `n`. */
  lemma ModOfMultipleShift(k: int, x: int, n: int)
    requires n > 0
    ensures (k * n + x) % n == x % n
  {
    var q, s := x / n, x % n;
    assert x == q * n + s;
    assert k * n + x == (k + q) * n + s;
    ModUnique(k * n + x, k + q, s, n);
  }

  /** The remainder is the unique `s` in `0..n-1` with `m == q * n + s`. */
  lemma ModUnique(m: int, q: int, s: int, n: int)
    requires n > 0 && 0 <= s < n && m == q * n + s
    ensures m % n == s
  {
    var d := q - m / n;
    assert d * n == m % n - s;
  }

  /** JavaScript's remainder is zero exactly when Dafny's is. */
  lemma JsRemZero(a: int, n: int)
    requires n > 0
    ensures JsRem(a, n) == 0 <==> a % n == 0
  {
    JsRemCongruent(a, n);
    if a < 0 && JsRem(a, n) == 0 {
      assert 0 % n == 0;
    }
  }

  /** The leap-year rule as the source writes it, with JavaScript's `%`. */
  predicate IsLeapYear(year: int)
    ensures IsLeapYear(year) ==> year % 4 == 0
    ensures year % 400 == 0 ==> IsLeapYear(year)
  {
    JsRemZero(year, 4);
    JsRemZero(year, 400);
    ModOfMultipleShift(100 * (year / 400), 0, 4);
    (JsRem(year, 4) == 0 && JsRem(year, 100) != 0) || JsRem(year, 400) == 0
  }

  /** The Gregorian rule: every fourth year, except centuries not divisible by 400. */
  lemma LeapYearIsGregorian(year: int)
    ensures IsLeapYear(year) <==> year % 4 == 0 && (year % 100 != 0 || year % 400 == 0)
  {
    JsRemZero(year, 4);
    JsRemZero(year, 100);
    JsRemZero(year, 400);
    if year % 400 == 0 {
      var q := year / 400;
      assert year == 100 * (4 * q);
      assert year == 4 * (100 * q);
    }
  }

  /** The leap-year rule repeats every 400 years, for negative years too. */
  lemma LeapYearPeriodic(year: int)
    ensures IsLeapYear(year + 400) == IsLeapYear(year)
  {
    LeapYearIsGregorian(year);
    LeapYearIsGregorian(year + 400);
    assert (year + 400) % 4 == year % 4;
    assert (year + 400) % 100 == year % 100;
    assert (year + 400) % 400 == year % 400;
  }

  lemma LeapYearExamples()
    ensures !IsLeapYear(1900) && IsLeapYear(2000) && !IsLeapYear(2023)
    ensures IsLeapYear(2024) && !IsLeapYear(2100)
  {
  }

  /** The days-in-month table the date generator uses. */
  function DaysInMonth(month: int, year: int): (n: int)
    requires 1 <= month <= 12
    ensures 28 <= n <= 31
    ensures n == 29 <==> month == 2 && IsLeapYear(year)
    ensures n == 28 <==> month == 2 && !IsLeapYear(year)
    ensures n == 30 <==> month in {4, 6, 9, 11}
  {
    [31, if IsLeapYear(year) then 29 else 28, 31, 30, 31, 30, 31, 31, 30, 31, 30, 31][month - 1]
  }

  predicate ValidDate(d: Date)
  {
    1 <= d.month <= 12 && 1 <= d.day <= DaysInMonth(d.month, d.year)
  }

  /** Doomsday dates of a common year, January to December. */
  const CommonDoomsdays: seq<int> := [3, 28, 14, 4, 9, 6, 11, 8, 5, 10, 7, 12]

  /** The day of `month` that falls on the year's doomsday. */
  function MonthDoomsday(month: int, year: int): (day: int)
    requires 1 <= month <= 12
    ensures 1 <= day <= DaysInMonth(month, year)
    ensures ValidDate(Date(month, day, year))
  {
    if month == 1 then (if IsLeapYear(year) then 4 else 3)
    else if month == 2 then (if IsLeapYear(year) then 29 else 28)
    else CommonDoomsdays[month - 1]
  }

  /**
   * Only January and February depend on the year: each moves one day later
   * in a leap year; every other month keeps its common-year date.
   */
  lemma MonthDoomsdayLeapShift(month: int, year: int)
    requires 1 <= month <= 12
    ensures month <= 2 ==> MonthDoomsday(month, year) == CommonDoomsdays[month - 1] + (if IsLeapYear(year) then 1 else 0)
    ensures month > 2 ==> forall other :: MonthDoomsday(month, year) == MonthDoomsday(month, other)
  {
  }

  lemma MonthDoomsdayExamples()
    ensures MonthDoomsday(2, 2024) == 29 && MonthDoomsday(2, 2023) == 28
    ensures MonthDoomsday(1, 2024) == 4 && MonthDoomsday(7, 1969) == 11
  {
  }
}
