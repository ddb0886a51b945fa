/**
 * The question generator: a valid date with its year in a given range. The
 * three random draws are parameters, each a choice in the range that
 * `Math.floor(Math.random() * n)` yields, 0..n-1.
 */
module DateGen {
  import opened Calendar

  const DefaultStartYear: int := 1900
  const DefaultEndYear: int := 2100

  /** A draw of `Math.floor(Math.random() * n)`: an integer in 0..n-1. */
  predicate IsDraw(choice: int, n: int) { 0 <= choice < n }

  /** The draws are in range for generating a date between the two years. */
  predicate ValidDraws(startYear: int, endYear: int, yearDraw: int, monthDraw: int, dayDraw: int)
  {
    && IsDraw(yearDraw, endYear - startYear + 1)
    && IsDraw(monthDraw, 12)
    && IsDraw(dayDraw, DaysInMonth(monthDraw + 1, yearDraw + startYear))
  }

  /** A random date: year, then month, then a day of that month in that year. */
  function GenerateDate(startYear: int, endYear: int, yearDraw: int, monthDraw: int, dayDraw: int): (d: Date)
    requires ValidDraws(startYear, endYear, yearDraw, monthDraw, dayDraw)
    ensures ValidDate(d) && startYear <= d.year <= endYear
  {
    var year := yearDraw + startYear;
    var month := monthDraw + 1;
    var day := dayDraw + 1;
    Date(month, day, year)
  }

  /** Every valid date in the range is generated, by exactly the draws below. */
  lemma GenerateReachesEveryDate(startYear: int, endYear: int, d: Date)
    requires ValidDate(d) && startYear <= d.year <= endYear
    ensures ValidDraws(startYear, endYear, d.year - startYear, d.month - 1, d.day - 1)
    ensures GenerateDate(startYear, endYear, d.year - startYear, d.month - 1, d.day - 1) == d
  {
  }

  /** Different draws give different dates. */
  lemma GenerateInjective(startYear: int, endYear: int, y1: int, m1: int, d1: int, y2: int, m2: int, d2: int)
    requires ValidDraws(startYear, endYear, y1, m1, d1) && ValidDraws(startYear, endYear, y2, m2, d2)
    requires GenerateDate(startYear, endYear, y1, m1, d1) == GenerateDate(startYear, endYear, y2, m2, d2)
    ensures y1 == y2 && m1 == m2 && d1 == d2
  {
  }

  /** A one-year range of 2000 always yields a 2000 date; February goes up to 29. */
  lemma GenerateYear2000(yearDraw: int, monthDraw: int, dayDraw: int)
    requires ValidDraws(2000, 2000, yearDraw, monthDraw, dayDraw)
    ensures GenerateDate(2000, 2000, yearDraw, monthDraw, dayDraw).year == 2000
    ensures monthDraw == 1 ==> GenerateDate(2000, 2000, yearDraw, monthDraw, dayDraw).day <= 29
    ensures monthDraw == 1 && dayDraw == 28 ==> GenerateDate(2000, 2000, yearDraw, monthDraw, dayDraw) == Date(2, 29, 2000)
  {
  }
}
