# Doomsday trainer: a verified model of its date engine and quiz state

The trainer is a single-page React component (`src/App.tsx`). It teaches Conway's
Doomsday algorithm for the Gregorian calendar, using the "Odd+11" method. It asks the
user for the weekday of a random date, grades the answer and shows the derivation.
This project models the component's date library and its quiz bookkeeping in Dafny,
and proves properties of them:

- `Calendar` holds the leap-year rule, the days-in-month table and the month doomsday
  dates. It also models JavaScript's truncating `%` (`JsRem`), so remainders of
  negative numbers behave as in the source.
- `Doomsday` holds the century anchor table with its Tuesday fallback, and the year
  doomsday by Odd+11. The year doomsday exists both as a pure function and as a
  step-by-step method that appends to its derivation trace. The eight trace entries
  are a `Step` datatype (anchor, last two digits, odd/even, halve, odd/even, mod 7,
  subtract, final). The module also holds the weekday of a date and the offset shown
  in the explanation panel.
- `Gregorian` is an independent reference. It counts days from January 1 of year 1
  (day 1, a Monday). Its successor lemmas show that the count advances by one per
  calendar day. The module proves that the trainer's weekday equals the weekday by
  this count whenever the century anchor is right. That holds for every year from
  1600 to 2499, and for every century divisible by 4.
- `DateGen` holds the question generator. Its three random draws are parameters.
- `Quiz` is a `Trainer` class. Its fields are the component's state. Its methods are
  the answer handler, the next-question handler, the hint toggle, the lesson
  navigation, the mode tabs and the keyboard handler. The class invariant ties the
  counters to a ghost history of answers. `ReplayRuns` proves what that history
  means: the streak is the trailing run of correct answers and the best streak is the
  longest run.

The year doomsday is `(anchor - remainder + 7) % 7`, as at `src/App.tsx:92`; anchor and
remainder are both in 0..6 there, so this is the anchor minus the remainder modulo 7.
The halving at `src/App.tsx:78` is a real division in JavaScript. It is modelled as an
exact halving (`ExactHalf`), whose precondition (the value is even) is proved at both
uses. The keyboard listener of `src/App.tsx:156-173` is registered again only when the
mode or `showAnswer` changes; the field `listenerDate` records the question it grades
against (see "## Findings").

## Model

| member | source | states |
|---|---|---|
| `Calendar.JsRem` | src/App.tsx:103 | JavaScript's `%` for a positive divisor: magnitude below the divisor, sign of the dividend, equal to Dafny's `%` on non-negative numbers |
| `Calendar.JsRemCongruent` | src/App.tsx:138 | the truncating remainder agrees with the Euclidean one modulo the divisor |
| `Calendar.IsLeapYear` | src/App.tsx:49-51 | a leap year is divisible by 4, and every year divisible by 400 is a leap year, with JavaScript's `%` for negative years too |
| `Calendar.LeapYearIsGregorian` | src/App.tsx:49-51 | `isLeapYear` holds exactly for years divisible by 4 and not by 100, or divisible by 400, for every integer year |
| `Calendar.LeapYearPeriodic` | src/App.tsx:49-51 | the leap-year rule repeats every 400 years |
| `Calendar.LeapYearExamples` | src/App.tsx:49-51 | 1900 and 2100 are not leap years, 2000 and 2024 are, 2023 is not |
| `Calendar.DaysInMonth` | src/App.tsx:109 | a month has 28..31 days; 29 exactly for February of a leap year, 28 exactly for February otherwise, 30 exactly for April, June, September and November |
| `Calendar.MonthDoomsday` | src/App.tsx:53-57 | for months 1..12 the doomsday date is a valid day of that month in that year |
| `Calendar.MonthDoomsdayLeapShift` | src/App.tsx:18-32 | only January and February depend on the year, each one day later in leap years; other months keep their common-year date |
| `Calendar.MonthDoomsdayExamples` | src/App.tsx:53-57 | February's doomsday is the 29th in 2024 and the 28th in 2023 |
| `Doomsday.AnchorFor` | src/App.tsx:8-16 | the anchor is a weekday; it is the table entry for a listed century and Tuesday (2) otherwise |
| `Doomsday.CenturyOf` | src/App.tsx:62 | `Math.floor(year / 100) * 100` is the multiple of 100 with the year in its century |
| `Doomsday.CenturyAnchor` | src/App.tsx:62-63 | the anchor looked up for a year is a weekday in 0..6 |
| `Doomsday.CenturyAnchorPerCentury` | src/App.tsx:62-63 | years with the same `year / 100` get the same anchor |
| `Doomsday.CenturyAnchorFallback` | src/App.tsx:63 | every year before 1700 or from 2400 on gets the fallback anchor 2 |
| `Doomsday.CenturyAnchorExamples` | src/App.tsx:8-16 | 2050 gets Tuesday (2) and 1776 Sunday (0) |
| `Doomsday.JsOdd` | src/App.tsx:71 | `yy % 2 === 1` holds exactly for positive odd numbers; a negative odd number fails it |
| `Doomsday.OddAdd11` | src/App.tsx:71-76 | "if odd, add 11" leaves an even number on non-negative input, so the halving after it is exact |
| `Doomsday.ExactHalf` | src/App.tsx:78 | the halving is exact: twice the result is the input |
| `Doomsday.OddPlusEleven` | src/App.tsx:64-89 | the Odd+11 value of a non-negative `yy` is even and lies between `yy / 2` and `yy / 2 + 17` |
| `Doomsday.OddPlusElevenCongruence` | src/App.tsx:64-89 | for any non-negative two-digit value `yy`, the Odd+11 value is congruent to -(yy + yy / 4) modulo 7 |
| `Doomsday.YearDoomsdayValue` | src/App.tsx:89-92 | the doomsday value alone is a weekday in 0..6 |
| `Doomsday.YearDoomsday` | src/App.tsx:60-97 | the year's doomsday is a weekday, the value above, and the trace has exactly 8 entries, the last naming the year and the returned doomsday |
| `Doomsday.TraceValueBounds` | src/App.tsx:64-90 | the recorded values stay in range: last two digits 0..99, at most 110 before halving, 0..66 after the second odd step, remainder 0..6 |
| `Doomsday.YearDoomsdayFormula` | src/App.tsx:89-92 | the doomsday is the century anchor minus the Odd+11 value, brought into 0..6 |
| `Doomsday.YearDoomsdayIsDerivation` | src/App.tsx:61-96 | the recorded trace is a correct Odd+11 derivation: entries in the fixed order, each odd/even entry matching the parity of the value at that point, exact halving, right remainder, and a final entry naming the returned doomsday |
| `Doomsday.DerivationsAgree` | src/App.tsx:61-96 | two correct Odd+11 derivations of the same year are identical, entry by entry, with the same doomsday |
| `Doomsday.DerivationIsUnique` | src/App.tsx:61-96 | any correct Odd+11 derivation of a year is the recorded one, with the same doomsday |
| `Doomsday.ComputeYearDoomsday` | src/App.tsx:60-97 | the step-by-step computation, reassigning `yy` and appending trace entries, returns the doomsday and trace of `YearDoomsday` |
| `Doomsday.YearDoomsday2024` | src/App.tsx:286-293 | the worked example: 2024's trace is 24 even, 12, even, 12 mod 7 = 5, (2 - 5 + 7) mod 7 = 4, a Thursday |
| `Doomsday.Normalize` | src/App.tsx:103 | `((x % 7) + 7) % 7` with JavaScript's `%` is in 0..6 and congruent to `x` modulo 7, for negative `x` too |
| `Doomsday.DayOfWeek` | src/App.tsx:99-104 | the result is in 0..6 for any day number, even for a negative offset, and is congruent modulo 7 to the doomsday plus (day - month doomsday date) |
| `Doomsday.OffsetMod` | src/App.tsx:137-138 | the explanation's offset is in 0..6 and congruent modulo 7 to day minus the month's doomsday date |
| `Doomsday.ExplanationAgrees` | src/App.tsx:415-425 | starting at the year doomsday and moving the explained offset forward gives the graded answer |
| `Doomsday.DayOfWeekOnDoomsdayDate` | src/App.tsx:99-104 | on the month's doomsday date the weekday is the year's doomsday |
| `Doomsday.DayOfWeekNextDay` | src/App.tsx:321-323 | counting one day forward in a month moves one weekday forward |
| `Doomsday.MoonLandingSunday` | src/App.tsx:326-331 | the worked example: 1969's doomsday is a Friday (5) and July 20, 1969 a Sunday (0) |
| `Gregorian.LeapYearsStep` | src/App.tsx:49-51 | the closed leap-year count goes up by one exactly at the years `isLeapYear` accepts |
| `Gregorian.DaysBeforeNextYear` | src/App.tsx:49-51 | consecutive years of the reference count are 365 or 366 days apart, as `isLeapYear` says |
| `Gregorian.DaysBeforeMonth` | src/App.tsx:109 | the days before each month, summed from the month lengths, are the standard totals 0, 31, 59, ... plus one after February in leap years |
| `Gregorian.DayNumberNextDay` | src/App.tsx:109 | the reference day count goes up by exactly one from each valid date to the next, across month and year ends |
| `Gregorian.MoonLandingByCount` | src/App.tsx:326-331 | the reference count independently puts July 20, 1969 on a Sunday |
| `Gregorian.TrueAnchorIsAprilFourth` | src/App.tsx:8-16 | the true anchor of a century, (5 * (c mod 4) + 2) mod 7, is the weekday of April 4 of its first year |
| `Gregorian.AnchorTableExact` | src/App.tsx:8-16 | the table plus fallback gives the true anchor exactly for centuries 17..23 and for centuries divisible by 4 |
| `Gregorian.AprilFourth` | src/App.tsx:7-16 | by day count, April 4 of year 100c + yy falls on the true anchor plus yy + yy / 4, modulo 7 |
| `Gregorian.DoomsdayDatesShareWeekday` | src/App.tsx:300-301 | every month's doomsday date falls on the same weekday as April 4 of that year |
| `Gregorian.YearDoomsdayIsGregorian` | src/App.tsx:60-97 | when the century anchor is right, the Odd+11 doomsday is the weekday of April 4 by day count |
| `Gregorian.DayOfWeekIsGregorian` | src/App.tsx:99-104 | when the century anchor is right, `getDayOfWeek` equals the weekday by day count |
| `Gregorian.AnchorRightFrom1600To2499` | src/App.tsx:62-63 | for every year from 1600 to 2499 the looked-up anchor is the true one |
| `Gregorian.DayOfWeekCorrect` | src/App.tsx:99-104 | for every valid date from 1600 to 2499, `getDayOfWeek` is the true Gregorian weekday |
| `Gregorian.FallbackWrongFor2500` | src/App.tsx:63 | the fallback anchor is wrong for 2500, and so is that year's doomsday |
| `DateGen.GenerateDate` | src/App.tsx:106-112 | the generated date is valid, with Feb 29 only in leap years, and its year is within the range |
| `DateGen.GenerateReachesEveryDate` | src/App.tsx:106-112 | every valid date in the range is produced by some in-range draws |
| `DateGen.GenerateInjective` | src/App.tsx:106-112 | different draws produce different dates |
| `DateGen.GenerateYear2000` | src/App.tsx:106-112 | a 2000..2000 range always yields year 2000, with February capped at 29 |
| `Quiz.KeyToDayIndex` | src/App.tsx:161-162 | exactly the keys '1'..'7' select an answer, and key k selects weekday index k - 1 |
| `Quiz.Score` | src/App.tsx:177-197 | an accepted answer adds one attempt, never lowers the best streak, and leaves the streak at most the best streak |
| `Quiz.ScoreKeepsOrder` | src/App.tsx:180-197 | an accepted answer adds one attempt, adds one correct answer exactly when right, leaves a positive streak exactly when right, and keeps streak <= best <= correct <= attempts |
| `Quiz.Replay` | src/App.tsx:175-198 | the counters after a history of answers count one attempt per answer |
| `Quiz.ReplayAppend` | src/App.tsx:175-198 | the counters after one more answer are that answer scored on the earlier counters |
| `Quiz.ReplayTotals` | src/App.tsx:180-185 | after any history of answers: correct = number of right answers, and streak <= best <= correct <= attempts |
| `Quiz.ReplayRuns` | src/App.tsx:186-196 | after any history of answers: streak = the run of right answers ending the history, best streak = the longest run of right answers in it |
| `Quiz.CorrectAnswer` | src/App.tsx:134 | the graded answer, `getDayOfWeek` of the question's date, is a weekday index 0..6 |
| `Quiz.CorrectAnswerIsTrueWeekday` | src/App.tsx:134 | for every date the generator can produce, the graded answer is the true Gregorian weekday of that date |
| `Quiz.Trainer.ScoresOrdered` | src/App.tsx:126-129 | in every reachable state, streak <= best streak <= correct <= attempts |
| `Quiz.Trainer.constructor` | src/App.tsx:121-132 | learn mode, first lesson, a generated question that the keyboard listener also holds, no selection, no answer or hint shown, zero counters |
| `Quiz.Trainer.ApplySelection` | src/App.tsx:175-198 | the body of `handleDaySelect`, graded against the answer its render captured: nothing changes while the answer is shown; otherwise the selection is recorded and shown, the listener is registered again, and the counters are scored |
| `Quiz.Trainer.HandleDaySelect` | src/App.tsx:390 | a click on a weekday button is graded against the question on screen: nothing changes while the answer is shown, otherwise the selection is recorded and shown and the counters are scored against `CorrectAnswer` of the current date, every other field stated |
| `Quiz.Trainer.RecordAnswer` | src/App.tsx:180-197 | the counters become the answer scored on the previous counters, the history grows by that answer, and the counters still replay the history; nothing else changes |
| `Quiz.Trainer.NextQuestion` | src/App.tsx:140-148 | a new generated question, with selection, answer and hint cleared and the counters, mode and lesson untouched; the listener is registered again exactly when a shown answer is hidden |
| `Quiz.Trainer.ToggleHint` | src/App.tsx:365-369 | the hint flips only in practice mode before answering |
| `Quiz.Trainer.PreviousLesson` | src/App.tsx:237-245 | one lesson back, disabled on the first, so the lesson stays in 0..3 |
| `Quiz.Trainer.NextLesson` | src/App.tsx:237-252 | one lesson forward, disabled on the fourth, so the lesson stays in 0..3 |
| `Quiz.Trainer.SelectMode` | src/App.tsx:215-233 | switching tabs sets the mode and keeps the lesson and counters; Learn keeps the question, selection, answer and hint; Practice and Speed Drill start a new question; the listener is registered again exactly when the mode or `showAnswer` changes |
| `Quiz.Trainer.HandleKey` | src/App.tsx:156-169 | the intended key handling: outside the lessons, keys '1'..'7' answer the question on screen while no answer is shown and Space moves on while one is, with the whole new state stated in each case; otherwise nothing changes |
| `Quiz.Trainer.HandleKeyAsWritten` | src/App.tsx:156-173 | the key handling as written: as above, except that an answer key is graded against the question the listener was registered with |
| `Quiz.KeyOf` | src/App.tsx:161-162 | the key for weekday index w is the one `KeyToDayIndex` maps to w |
| `Quiz.NewYear2024Answers` | src/App.tsx:106-112 | the draws (124, 0, 0) and (124, 0, 1) give January 1 and 2, 2024, graded Monday and Tuesday |
| `Quiz.PracticeAgain` | src/App.tsx:224 | Practice clicked twice on an unanswered question shows the second question while the listener still holds the first |
| `Quiz.StaleKeyScenario` | src/App.tsx:156-173 | then the key of the right weekday for the question on screen is counted wrong whenever the two questions' answers differ |
| `Quiz.FreshKeyScenario` | src/App.tsx:156-169 | with the intended handling the same key press is counted right |

## Left out

- Doomsday.YearDoomsday: requires a non-negative year. For a negative year the source's `yy` is negative, so `yy % 2 === 1` is false for odd values and `yy / 2` yields a fraction. Modelling that needs floating point.
- Doomsday.ComputeYearDoomsday: requires a non-negative year, for the same reason.
- Doomsday.DayOfWeek: requires a non-negative year, because it uses the year doomsday. It also requires a month in 1..12, because the source throws on other months.
- DateGen.GenerateDate: requires `startYear <= endYear`. A reversed range gives draws of zero or negative size in the source, and the trainer only uses the default range 1900..2100.
- The anchor fallback is modelled as written. Outside 1600..2499 it is wrong for centuries not divisible by 4 (`FallbackWrongFor2500`). The trainer only asks about 1900..2100.
- Trace entries are structured `Step` values, not the strings the source builds. The decimal rendering of numbers and weekday names (`DAYS`, `DAY_ABBREV`, `MONTH_NAMES`) is not modelled, and neither is `formatDate`.
- Quiz.Trainer.HandleDaySelect: an answer is applied at once. React's batched state updates are not modelled, so two selections within one render are out of scope. The only stale closure modelled is the keyboard listener's question (`listenerDate`).
- Quiz.Trainer.HandleKey: `e.key` is modelled as one character and `e.code === 'Space'` as a flag. Multi-character key names, which the source compares as strings, are not modelled.
- The speed drill's timing is not modelled: `Date.now()`, `startTime`, `times`, the average and best times with `toFixed`, and the clearing of `times` when the Speed Drill tab is selected. They are clock input and floating point.
- The accuracy percentage `Math.round(totalCorrect / totalAttempts * 100)` is not modelled, because it is floating-point arithmetic.
- `Math.random()` and its float-to-integer scaling are not modelled. Each draw is an integer parameter in the range the scaling yields.
- Rendering, CSS classes and the lesson texts are not modelled. Of the `keydown` listener's registration only the question it captures is modelled.

## Findings

| source | as written | input that shows it | evidently intended | confidence | as-written member | corrected member |
|---|---|---|---|---|---|---|
| src/App.tsx:156-173 | the keydown listener is registered again only when `mode`, `showAnswer` or `nextQuestion` changes, and its `handleDaySelect` grades against the `correctAnswer` of that render | from the lessons, click Practice (question January 1, 2024), click Practice again before answering (question January 2, 2024), then press '3' (Tuesday, right for the question on screen): it is counted wrong | an answer key is graded against the question on screen, as a click on a weekday button is | not executed | `Quiz.Trainer.HandleKeyAsWritten`, `Quiz.StaleKeyScenario` | `Quiz.Trainer.HandleKey`, `Quiz.FreshKeyScenario` |
