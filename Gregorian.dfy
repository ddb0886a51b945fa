/**
 * An independent reference for the weekday of a proleptic Gregorian date,
 * by counting days (0001-01-01 is day 1, a Monday), and the proof that the
 * doomsday method computes it wherever the century anchor is right.
 */
module Gregorian {
  import opened Calendar
  import opened Doomsday

  function DaysInYear(year: int): (n: int)
    ensures n == 365 || n == 366
    ensures n == 366 <==> IsLeapYear(year)
  {
    if IsLeapYear(year) then 366 else 365
  }

  /** Number of leap years among years 1..n, by the closed Gregorian count. */
  function LeapYearsThrough(n: int): int
  {
    n / 4 - n / 100 + n / 400
  }

  /** `n / k` goes up by one exactly at the multiples of `k`. */
  lemma DivStep(n: int, k: int)
    requires k > 0
    ensures n / k - (n - 1) / k == if n % k == 0 then 1 else 0
  {
    var q, s := n / k, n % k;
    assert n == q * k + s;
    if s == 0 {
      assert n - 1 == (q - 1) * k + (k - 1);
      DivUnique(n - 1, q - 1, k - 1, k);
    } else {
      assert n - 1 == q * k + (s - 1);
      DivUnique(n - 1, q, s - 1, k);
    }
  }

  /** The quotient is the unique `q` with `m == q * n + s` and `0 <= s < n`. */
  lemma DivUnique(m: int, q: int, s: int, n: int)
    requires n > 0 && 0 <= s < n && m == q * n + s
    ensures m / n == q
  {
    ModUnique(m, q, s, n);
    assert (q - m / n) * n == 0;
  }

  /** The closed count goes up by one exactly at leap years. */
  lemma {:induction false} LeapYearsStep(year: int)
    ensures LeapYearsThrough(year) == LeapYearsThrough(year - 1) + (if IsLeapYear(year) then 1 else 0)
  {
    DivStep(year, 4);
    DivStep(year, 100);
    DivStep(year, 400);
    LeapYearIsGregorian(year);
    if year % 400 == 0 {
      assert year == 100 * (4 * (year / 400));
      assert year == 4 * (100 * (year / 400));
    } else if year % 100 == 0 {
      assert year == 4 * (25 * (year / 100));
    }
  }

  /** Days from 0001-01-01 up to the first day of `year`, exclusive. */
  function DaysBeforeYear(year: int): int
  {
    365 * (year - 1) + LeapYearsThrough(year - 1)
  }

  /** Consecutive years are one year length apart, so the count really counts days. */
  lemma DaysBeforeNextYear(year: int)
    ensures DaysBeforeYear(year + 1) == DaysBeforeYear(year) + DaysInYear(year)
  {
    LeapYearsStep(year);
  }

  /** Days of `year` before the first of `month`, by adding up the month lengths. */
  function {:induction false} DaysBeforeMonth(month: int, year: int): (n: int)
    requires 1 <= month <= 12
    ensures n == [0, 31, 59, 90, 120, 151, 181, 212, 243, 273, 304, 334][month - 1]
                 + (if month > 2 && IsLeapYear(year) then 1 else 0)
    decreases month
  {
    if month == 1 then 0 else DaysBeforeMonth(month - 1, year) + DaysInMonth(month - 1, year)
  }

  /** The day number of a date: 0001-01-01 is day 1. */
  function DayNumber(d: Date): int
    requires 1 <= d.month <= 12
  {
    DaysBeforeYear(d.year) + DaysBeforeMonth(d.month, d.year) + d.day
  }

  /** The weekday of a date by day count (0 is Sunday; day 1 is a Monday). */
  function GregorianWeekday(d: Date): (w: int)
    requires 1 <= d.month <= 12
    ensures IsWeekday(w)
  {
    DayNumber(d) % 7
  }

  /** The calendar day after a valid date. */
  function NextDay(d: Date): (n: Date)
    requires ValidDate(d)
    ensures ValidDate(n)
    ensures n.year == d.year || (n.year == d.year + 1 && n.month == 1 && n.day == 1 && d.month == 12 && d.day == 31)
  {
    if d.day < DaysInMonth(d.month, d.year) then Date(d.month, d.day + 1, d.year)
    else if d.month < 12 then Date(d.month + 1, 1, d.year)
    else Date(1, 1, d.year + 1)
  }

  /** The day count goes up by exactly one from each date to the next. */
  lemma DayNumberNextDay(d: Date)
    requires ValidDate(d)
    ensures DayNumber(NextDay(d)) == DayNumber(d) + 1
  {
    if d.day == DaysInMonth(d.month, d.year) && d.month == 12 {
      DaysBeforeNextYear(d.year);
    }
  }

  /** The count starts at January 1 of year 1, a Monday, as day 1. */
  lemma CountStartsAtYearOne()
    ensures DayNumber(Date(1, 1, 1)) == 1
  {
  }

  /** By the count, July 20, 1969 was a Sunday. */
  lemma MoonLandingByCount()
    ensures GregorianWeekday(Date(7, 20, 1969)) == 0
  {
    assert DaysBeforeYear(1969) == 718797 by {
      assert LeapYearsThrough(1968) == 477;
    }
    assert DaysBeforeMonth(7, 1969) == 181 by {
      assert !IsLeapYear(1969);
    }
  }

  /** True anchor of century `c`: the weekday of April 4 in year 100 * c. */
  function TrueAnchor(c: int): (w: int)
    ensures IsWeekday(w)
  {
    (5 * (c % 4) + 2) % 7
  }

  /**
   * The anchor table is right exactly for the centuries it lists and, through
   * the Tuesday fallback, for every century divisible by 4.
   */
  lemma AnchorTableExact(c: int)
    ensures AnchorFor(100 * c) == TrueAnchor(c) <==> (17 <= c <= 23 || c % 4 == 0)
  {
    if 17 <= c <= 23 {
      assert 100 * c in CenturyAnchors;
    } else {
      assert 100 * c !in CenturyAnchors;
    }
  }

  /** Leap years through year 100 * c + yy, split into century and last two digits. */
  lemma LeapYearsCentury(c: int, yy: int)
    requires 0 <= yy < 100
    ensures LeapYearsThrough(100 * c + yy) == 24 * c + c / 4 + yy / 4
  {
    var y := 100 * c + yy;
    DivUnique(y, 25 * c + yy / 4, yy % 4, 4);
    DivUnique(y, c, yy, 100);
    DivUnique(y, c / 4, 100 * (c % 4) + yy, 400);
  }

  /** The day number of April 4: the days of all earlier years plus 94 or 95. */
  lemma AprilFourthDayNumber(year: int)
    ensures DayNumber(Date(4, 4, year)) == 365 * (year - 1) + LeapYearsThrough(year) + 94
  {
    LeapYearsStep(year);
  }

  /** The weekday of April 4 by day count, for year 100 * c + yy. */
  lemma AprilFourth(c: int, yy: int)
    requires 0 <= yy < 100
    ensures (GregorianWeekday(Date(4, 4, 100 * c + yy)) - (TrueAnchor(c) + yy + yy / 4)) % 7 == 0
  {
    var y := 100 * c + yy;
    AprilFourthDayNumber(y);
    LeapYearsCentury(c, yy);
    CenturyCongruence(c, yy, DayNumber(Date(4, 4, y)));
  }

  /** Modular core of the April 4 computation. */
  lemma CenturyCongruence(c: int, yy: int, n: int)
    requires n == 365 * (100 * c + yy - 1) + (24 * c + c / 4 + yy / 4) + 94
    ensures (n % 7 - (TrueAnchor(c) + yy + yy / 4)) % 7 == 0
  {
    var k, j := c / 4, c % 4;
    var m := (5 * j + 2) + yy + yy / 4;
    var q := 5217 * c + 52 * yy + 3 * k - 39;
    assert n == q * 7 + m;
    ModOfMultipleShift(q, m, 7);
    assert m == ((5 * j + 2) / 7) * 7 + (TrueAnchor(c) + yy + yy / 4);
    ModOfMultipleShift((5 * j + 2) / 7, TrueAnchor(c) + yy + yy / 4, 7);
    SameRemainder(n % 7, TrueAnchor(c) + yy + yy / 4);
  }

  /** Numbers with the same remainder modulo 7 differ by a multiple of 7. */
  lemma SameRemainder(a: int, b: int)
    requires a % 7 == b % 7
    ensures (a - b) % 7 == 0
  {
    assert a - b == 7 * (a / 7 - b / 7);
  }

  /** The true anchor is the weekday the day count gives April 4 of the century year. */
  lemma TrueAnchorIsAprilFourth(c: int)
    ensures TrueAnchor(c) == GregorianWeekday(Date(4, 4, 100 * c))
  {
    AprilFourth(c, 0);
    SameWeekday(GregorianWeekday(Date(4, 4, 100 * c)), TrueAnchor(c));
  }

  /**
   * All doomsday dates of a year fall on one weekday: the doomsday, which is
   * the weekday of April 4.
   */
  lemma DoomsdayDatesShareWeekday(month: int, year: int)
    requires 1 <= month <= 12
    ensures GregorianWeekday(Date(month, MonthDoomsday(month, year), year)) == GregorianWeekday(Date(4, 4, year))
  {
    var a := DaysBeforeMonth(month, year) + MonthDoomsday(month, year);
    var b := DaysBeforeMonth(4, year) + 4;
    var k := (a - b) / 7;
    assert a == b + 7 * k;
    ModOfMultipleShift(k, DaysBeforeYear(year) + b, 7);
    assert DayNumber(Date(month, MonthDoomsday(month, year), year)) == k * 7 + (DaysBeforeYear(year) + b);
  }

  /**
   * The Odd+11 doomsday is the weekday of April 4 whenever the anchor used for
   * the year's century is the true one.
   */
  lemma YearDoomsdayIsGregorian(year: int)
    requires year >= 0
    requires AnchorFor(CenturyOf(year)) == TrueAnchor(year / 100)
    ensures YearDoomsdayValue(year) == GregorianWeekday(Date(4, 4, year))
  {
    var c, yy := year / 100, year % 100;
    assert year == 100 * c + yy;
    AprilFourth(c, yy);
    OddPlusElevenCongruence(yy);
    YearDoomsdayFormula(year);
    AnchorMinusOddEleven(YearDoomsdayValue(year), GregorianWeekday(Date(4, 4, year)),
                         TrueAnchor(c), OddPlusEleven(yy), yy + yy / 4);
  }

  /**
   * Modular core of the doomsday proof: anchor minus the Odd+11 value `t`
   * equals anchor plus `s` modulo 7 when `t + s` is a multiple of 7.
   */
  lemma AnchorMinusOddEleven(d: int, g: int, a: int, t: int, s: int)
    requires IsWeekday(d) && IsWeekday(g) && t >= 0
    requires d == (a - t % 7 + 7) % 7
    requires (g - (a + s)) % 7 == 0 && (t + s) % 7 == 0
    ensures d == g
  {
    var e1, e2, e3 := (a - t % 7 + 7) / 7, (g - (a + s)) / 7, (t + s) / 7;
    assert d == a - t % 7 + 7 - 7 * e1;
    assert t == 7 * (t / 7) + t % 7;
    assert g - (a + s) == 7 * e2;
    assert t + s == 7 * e3;
    assert d - g == 7 * (t / 7 + 1 - e1 - e2 - e3);
  }

  /**
   * The weekday the trainer computes is the Gregorian weekday by day count,
   * whenever the anchor used for the year's century is the true one; this
   * holds for every day number, not only the days of the month.
   */
  lemma DayOfWeekIsGregorian(month: int, day: int, year: int)
    requires 1 <= month <= 12 && year >= 0
    requires AnchorFor(CenturyOf(year)) == TrueAnchor(year / 100)
    ensures DayOfWeek(month, day, year) == GregorianWeekday(Date(month, day, year))
  {
    var n := DaysBeforeYear(year) + DaysBeforeMonth(month, year);
    DoomsdayByCount(month, year, n);
    WeekdayInMonth(month, day, year, n);
    ShiftFromDoomsday(DayOfWeek(month, day, year), YearDoomsdayValue(year),
                      GregorianWeekday(Date(month, day, year)), n, MonthDoomsday(month, year), day);
  }

  /** With the true anchor, the year doomsday is the weekday of the month's doomsday date by count. */
  lemma DoomsdayByCount(month: int, year: int, n: int)
    requires 1 <= month <= 12 && year >= 0
    requires AnchorFor(CenturyOf(year)) == TrueAnchor(year / 100)
    requires n == DaysBeforeYear(year) + DaysBeforeMonth(month, year)
    ensures YearDoomsdayValue(year) == (n + MonthDoomsday(month, year)) % 7
  {
    YearDoomsdayIsGregorian(year);
    DoomsdayDatesShareWeekday(month, year);
    WeekdayInMonth(month, MonthDoomsday(month, year), year, n);
  }

  /** The weekday of a day of a month, from the days before that month. */
  lemma WeekdayInMonth(month: int, day: int, year: int, n: int)
    requires 1 <= month <= 12 && n == DaysBeforeYear(year) + DaysBeforeMonth(month, year)
    ensures GregorianWeekday(Date(month, day, year)) == (n + day) % 7
  {
  }

  /**
   * Modular core of the weekday proof: moving `day - md` days from the
   * weekday of day number `n + md` lands on the weekday of day number `n + day`.
   */
  lemma ShiftFromDoomsday(w: int, d: int, g: int, n: int, md: int, day: int)
    requires IsWeekday(w) && (w - (d + (day - md))) % 7 == 0
    requires d == (n + md) % 7 && g == (n + day) % 7
    ensures w == g
  {
    var e := (w - (d + (day - md))) / 7;
    assert w - (d + (day - md)) == 7 * e;
    assert n + md == 7 * ((n + md) / 7) + d;
    assert n + day == 7 * ((n + day) / 7) + g;
    assert w - g == 7 * (e + (n + day) / 7 - (n + md) / 7);
  }

  /** The anchor table, with its fallback, is right for every year from 1600 to 2499. */
  lemma AnchorRightFrom1600To2499(year: int)
    requires 1600 <= year <= 2499
    ensures AnchorFor(CenturyOf(year)) == TrueAnchor(year / 100)
  {
    AnchorTableExact(year / 100);
  }

  /** For every valid date from 1600 to 2499 the trainer's answer is the true weekday. */
  lemma DayOfWeekCorrect(d: Date)
    requires ValidDate(d) && 1600 <= d.year <= 2499
    ensures DayOfWeek(d.month, d.day, d.year) == GregorianWeekday(d)
  {
    AnchorRightFrom1600To2499(d.year);
    DayOfWeekIsGregorian(d.month, d.day, d.year);
  }

  /** Outside that range the fallback anchor gives wrong answers: 2500 is an example. */
  lemma FallbackWrongFor2500()
    ensures AnchorFor(CenturyOf(2500)) != TrueAnchor(25)
    ensures YearDoomsdayValue(2500) != GregorianWeekday(Date(4, 4, 2500))
  {
    TrueAnchorIsAprilFourth(25);
  }
}
