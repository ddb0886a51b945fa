/**
 * The doomsday engine: century anchors, the Odd+11 year doomsday with its
 * derivation trace, and the weekday of a date.
 */
module Doomsday {
  import opened Calendar

  /** Weekday indexes: 0 is Sunday, 6 is Saturday. */
  predicate IsWeekday(w: int) { 0 <= w < 7 }

  /** Anchor weekday of each century the trainer lists, keyed by the century's first year. */
  const CenturyAnchors: map<int, int> :=
    map[1700 := 0, 1800 := 5, 1900 := 3, 2000 := 2, 2100 := 0, 2200 := 5, 2300 := 3]

  /** The anchor used for a century start year; centuries outside the table get Tuesday. */
  function AnchorFor(century: int): (anchor: int)
    ensures IsWeekday(anchor)
    ensures century !in CenturyAnchors ==> anchor == 2
    ensures century in CenturyAnchors ==> anchor == CenturyAnchors[century]
  {
    if century in CenturyAnchors then CenturyAnchors[century] else 2
  }

  /** First year of the century holding `year` (floor division, as `Math.floor`). */
  function CenturyOf(year: int): (century: int)
    ensures century % 100 == 0 && century <= year < century + 100
  {
    (year / 100) * 100
  }

  function CenturyAnchor(year: int): (anchor: int)
    ensures IsWeekday(anchor)
  {
    AnchorFor(CenturyOf(year))
  }

  /** The anchor depends on the century only: all years of one century share it. */
  lemma CenturyAnchorPerCentury(y1: int, y2: int)
    requires y1 / 100 == y2 / 100
    ensures CenturyAnchor(y1) == CenturyAnchor(y2)
  {
  }

  /** Outside 1700..2399 the lookup always falls back to Tuesday. */
  lemma CenturyAnchorFallback(year: int)
    requires year < 1700 || year >= 2400
    ensures CenturyAnchor(year) == 2
  {
    var c := CenturyOf(year);
    assert c < 1700 || c >= 2400;
  }

  lemma CenturyAnchorExamples()
    ensures CenturyAnchor(2050) == 2 && CenturyAnchor(1776) == 0
    ensures CenturyAnchor(1969) == 3 && CenturyAnchor(2024) == 2
  {
  }

  /** One entry of the derivation trace, in the order the source records them. */
  datatype Step =
    | AnchorStep(century: int, anchor: int)
    | LastTwo(digits: int)
    | OddAdd(before: int, after: int)
    | EvenKeep(value: int)
    | Divide(half: int)
    | Mod7(value: int, remainder: int)
    | Subtract(anchor: int, remainder: int, result: int)
    | Final(year: int, doomsday: int)

  datatype DoomsdayResult = DoomsdayResult(doomsday: int, steps: seq<Step>)

  /** JavaScript's `x % 2 === 1`: true only for positive odd numbers. */
  predicate JsOdd(x: int)
    ensures JsOdd(x) <==> x > 0 && x % 2 == 1
  {
    JsRem(x, 2) == 1
  }

  /**
   * The "if odd, add 11" step: the trace entry it records and the value it
   * leaves. On a non-negative number it always leaves an even number.
   */
  function OddAdd11(x: int): (r: (Step, int))
    ensures x >= 0 ==> r.1 % 2 == 0 && (r.1 == x || r.1 == x + 11)
  {
    if JsOdd(x) then (OddAdd(x, x + 11), x + 11) else (EvenKeep(x), x)
  }

  /** The halving `yy / 2`: exact, since it is only applied to even numbers. */
  function ExactHalf(x: int): (h: int)
    requires x % 2 == 0
    ensures 2 * h == x
  {
    x / 2
  }

  /** The Odd+11 value of the last two digits. */
  function OddPlusEleven(yy: int): (r: int)
    requires yy >= 0
    ensures r % 2 == 0 && yy / 2 <= r <= yy / 2 + 17
  {
    OddAdd11(ExactHalf(OddAdd11(yy).1)).1
  }

  /**
   * The Odd+11 value is minus (yy + yy / 4) modulo 7, the number of weekdays
   * the doomsday moves over `yy` years of which `yy / 4` are leap years.
   */
  lemma OddPlusElevenCongruence(yy: int)
    requires yy >= 0
    ensures (OddPlusEleven(yy) + yy + yy / 4) % 7 == 0
  {
    var q := yy / 4;
    var a := OddAdd11(yy).1;
    var t := OddPlusEleven(yy);
    if yy % 4 == 0 {
      OddAdd11Of(yy, 2 * q);
      OddAdd11Of(ExactHalf(a), q);
      assert t == 2 * q;
    } else if yy % 4 == 1 {
      OddAdd11Of(yy, 2 * q);
      OddAdd11Of(ExactHalf(a), q + 3);
      assert t == 2 * q + 6;
    } else if yy % 4 == 2 {
      OddAdd11Of(yy, 2 * q + 1);
      OddAdd11Of(ExactHalf(a), q);
      assert t == 2 * q + 12;
    } else {
      OddAdd11Of(yy, 2 * q + 1);
      OddAdd11Of(ExactHalf(a), q + 3);
      assert t == 2 * q + 18;
    }
    assert t + yy + yy / 4 == 7 * (q + yy % 4);
  }

  /** "If odd, add 11" on `2k` keeps it and on `2k + 1` adds 11. */
  lemma OddAdd11Of(x: int, k: int)
    requires x >= 0 && (x == 2 * k || x == 2 * k + 1)
    ensures OddAdd11(x).1 == if x == 2 * k then x else x + 11
  {
    ModUnique(x, k, x - 2 * k, 2);
  }

  /** The doomsday weekday alone: the anchor minus the Odd+11 remainder, as at lines 89-92. */
  function YearDoomsdayValue(year: int): (d: int)
    requires year >= 0
    ensures IsWeekday(d)
  {
    var remainder := JsRem(OddPlusEleven(JsRem(year, 100)), 7);
    JsRem(CenturyAnchor(year) - remainder + 7, 7)
  }

  /**
   * The year's doomsday and its eight-step derivation, as the source computes
   * them for a non-negative year.
   */
  function YearDoomsday(year: int): (r: DoomsdayResult)
    requires year >= 0
    ensures IsWeekday(r.doomsday) && r.doomsday == YearDoomsdayValue(year)
    ensures |r.steps| == 8 && r.steps[7] == Final(year, r.doomsday)
  {
    var century := CenturyOf(year);
    var anchor := AnchorFor(century);
    var yy := JsRem(year, 100);
    var (first, odd1) := OddAdd11(yy);
    var half := ExactHalf(odd1);
    var (second, odd2) := OddAdd11(half);
    var remainder := JsRem(odd2, 7);
    var doomsday := JsRem(anchor - remainder + 7, 7);
    DoomsdayResult(doomsday, [AnchorStep(century, anchor), LastTwo(yy), first, Divide(half),
                              second, Mod7(odd2, remainder), Subtract(anchor, remainder, doomsday),
                              Final(year, doomsday)])
  }

  /**
   * Bounds of the values the trace records: two digits in 0..99, at most 110
   * before halving, at most 66 after the second "if odd, add 11", and a
   * remainder in 0..6.
   */
  lemma TraceValueBounds(year: int)
    requires year >= 0
    ensures var steps := YearDoomsday(year).steps;
      && 0 <= steps[1].digits <= 99
      && 0 <= StepValue(steps[2]) <= 110
      && 0 <= steps[3].half <= 55
      && 0 <= StepValue(steps[4]) <= 66
      && 0 <= steps[5].remainder <= 6
  {
  }

  /** The doomsday is the century anchor minus the Odd+11 value, modulo 7. */
  lemma YearDoomsdayFormula(year: int)
    requires year >= 0
    ensures YearDoomsdayValue(year) == (CenturyAnchor(year) - OddPlusEleven(year % 100) % 7 + 7) % 7
  {
  }

  /** The value a trace entry leaves for the next step. */
  function StepValue(s: Step): int
  {
    match s
    case AnchorStep(_, anchor) => anchor
    case LastTwo(digits) => digits
    case OddAdd(_, after) => after
    case EvenKeep(value) => value
    case Divide(half) => half
    case Mod7(_, remainder) => remainder
    case Subtract(_, _, result) => result
    case Final(_, doomsday) => doomsday
  }

  /** An "if odd, add 11" entry records the branch that the parity of `x` selects. */
  predicate ParityStep(s: Step, x: int)
  {
    if x % 2 == 1 then s == OddAdd(x, x + 11) else s == EvenKeep(x)
  }

  /**
   * A derivation by the Odd+11 method, checked entry by entry: the anchor of
   * the year's century, its last two digits, "if odd add 11", an exact halving,
   * "if odd add 11", the remainder modulo 7, the anchor minus that remainder
   * brought into 0..6, and the final doomsday.
   */
  ghost predicate IsOddElevenDerivation(year: int, steps: seq<Step>, doomsday: int)
  {
    && |steps| == 8
    && steps[0] == AnchorStep(CenturyOf(year), AnchorFor(CenturyOf(year)))
    && steps[1] == LastTwo(year % 100)
    && ParityStep(steps[2], year % 100)
    && steps[3].Divide? && 2 * steps[3].half == StepValue(steps[2])
    && ParityStep(steps[4], steps[3].half)
    && steps[5] == Mod7(StepValue(steps[4]), StepValue(steps[4]) % 7)
    && steps[6].Subtract? && steps[6].anchor == steps[0].anchor
    && steps[6].remainder == steps[5].remainder
    && IsWeekday(steps[6].result) && (steps[6].result - (steps[6].anchor - steps[6].remainder)) % 7 == 0
    && steps[7] == Final(year, steps[6].result)
    && doomsday == steps[6].result
  }

  /** The trace the source records is a correct Odd+11 derivation of the doomsday it returns. */
  lemma YearDoomsdayIsDerivation(year: int)
    requires year >= 0
    ensures IsOddElevenDerivation(year, YearDoomsday(year).steps, YearDoomsday(year).doomsday)
  {
    var r := YearDoomsday(year);
    var yy := year % 100;
    assert r.steps[1] == LastTwo(yy);
    var first := OddAdd11(yy);
    OddAdd11Records(yy);
    assert r.steps[2] == first.0;
    var half := ExactHalf(first.1);
    assert r.steps[3] == Divide(half);
    var second := OddAdd11(half);
    OddAdd11Records(half);
    assert r.steps[4] == second.0;
    assert r.steps[5] == Mod7(second.1, second.1 % 7);
    var last := r.steps[6];
    assert 0 <= last.anchor <= 6 && 0 <= last.remainder <= 6;
    assert last.result == (last.anchor - last.remainder + 7) % 7;
    LessSevenIsCongruent(last.anchor - last.remainder + 7);
  }

  /** Taking `x % 7` moves `x - 7` by a multiple of 7. */
  lemma LessSevenIsCongruent(x: int)
    ensures (x % 7 - (x - 7)) % 7 == 0
  {
    assert x % 7 - (x - 7) == 7 * (1 - x / 7);
  }

  /** On a non-negative number, "if odd, add 11" records the entry its parity selects. */
  lemma OddAdd11Records(x: int)
    requires x >= 0
    ensures ParityStep(OddAdd11(x).0, x) && StepValue(OddAdd11(x).0) == OddAdd11(x).1
  {
  }

  /** The derivation of a year is unique: any correct one is the one the source records. */
  lemma DerivationIsUnique(year: int, steps: seq<Step>, doomsday: int)
    requires year >= 0
    requires IsOddElevenDerivation(year, steps, doomsday)
    ensures steps == YearDoomsday(year).steps && doomsday == YearDoomsday(year).doomsday
  {
    YearDoomsdayIsDerivation(year);
    DerivationsAgree(year, steps, doomsday, YearDoomsday(year).steps, YearDoomsday(year).doomsday);
  }

  /** Two Odd+11 derivations of the same year agree entry by entry. */
  lemma DerivationsAgree(year: int, steps: seq<Step>, doomsday: int, other: seq<Step>, otherDoomsday: int)
    requires IsOddElevenDerivation(year, steps, doomsday)
    requires IsOddElevenDerivation(year, other, otherDoomsday)
    ensures steps == other && doomsday == otherDoomsday
  {
    assert steps[3] == other[3];
    assert steps[5] == other[5];
    SameWeekday(steps[6].result, other[6].result);
    assert steps[6] == other[6];
    assert forall i :: 0 <= i < 8 ==> steps[i] == other[i];
  }

  /** Two weekdays that agree modulo 7 are equal. */
  lemma SameWeekday(a: int, b: int)
    requires IsWeekday(a) && IsWeekday(b) && (a - b) % 7 == 0
    ensures a == b
  {
  }

  /** A weekday congruent to `x` modulo 7 is `x % 7`. */
  lemma WeekdayOf(w: int, x: int)
    requires IsWeekday(w) && (w - x) % 7 == 0
    ensures w == x % 7
  {
    var k := (w - x) / 7;
    assert w - x == 7 * k;
    assert x == 7 * (x / 7) + x % 7;
    assert w - x % 7 == 7 * (k + x / 7);
  }

  /** The difference of two multiples of 7 is one. */
  lemma MultipleSub(a: int, b: int)
    requires a % 7 == 0 && b % 7 == 0
    ensures (a - b) % 7 == 0
  {
    assert a == 7 * (a / 7) && b == 7 * (b / 7);
    assert a - b == 7 * (a / 7 - b / 7);
  }

  /**
   * The source's computation, step by step: `yy` is reassigned as the method
   * goes and each step is appended to the trace.
   */
  method ComputeYearDoomsday(year: int) returns (result: DoomsdayResult)
    requires year >= 0
    ensures result == YearDoomsday(year)
  {
    var steps: seq<Step> := [];
    var century := (year / 100) * 100;
    var anchor := AnchorFor(century);
    var yy := JsRem(year, 100);
    steps := steps + [AnchorStep(century, anchor)];
    steps := steps + [LastTwo(yy)];
    var originalYY := yy;
    if JsRem(yy, 2) == 1 {
      yy := yy + 11;
      steps := steps + [OddAdd(originalYY, yy)];
    } else {
      steps := steps + [EvenKeep(originalYY)];
    }
    ghost var first := OddAdd11(originalYY);
    assert steps == [AnchorStep(century, anchor), LastTwo(originalYY), first.0] && yy == first.1;
    yy := ExactHalf(yy);
    var half := yy;
    steps := steps + [Divide(yy)];
    if JsRem(yy, 2) == 1 {
      var prevYY := yy;
      yy := yy + 11;
      steps := steps + [OddAdd(prevYY, yy)];
    } else {
      steps := steps + [EvenKeep(yy)];
    }
    ghost var second := OddAdd11(half);
    assert steps == [AnchorStep(century, anchor), LastTwo(originalYY), first.0, Divide(half), second.0];
    var remainder := JsRem(yy, 7);
    steps := steps + [Mod7(yy, remainder)];
    var doomsday := JsRem(anchor - remainder + 7, 7);
    steps := steps + [Subtract(anchor, remainder, doomsday)];
    steps := steps + [Final(year, doomsday)];
    result := DoomsdayResult(doomsday, steps);
  }

  /** The worked example: 2024 has its doomsday on a Thursday. */
  lemma YearDoomsday2024()
    ensures YearDoomsday(2024) == DoomsdayResult(4, [AnchorStep(2000, 2), LastTwo(24), EvenKeep(24), Divide(12),
                                                    EvenKeep(12), Mod7(12, 5), Subtract(2, 5, 4), Final(2024, 4)])
  {
  }

  /**
   * The idiom `((x % 7) + 7) % 7` with JavaScript's `%`: the weekday `x` days
   * after Sunday, for any sign of `x`.
   */
  function Normalize(x: int): (w: int)
    ensures IsWeekday(w) && (w - x) % 7 == 0
  {
    JsRemCongruent(x, 7);
    JsRemCongruent(JsRem(x, 7) + 7, 7);
    JsRem(JsRem(x, 7) + 7, 7)
  }

  /**
   * The weekday of a date: the year's doomsday moved by the signed distance
   * from the month's doomsday date, brought into 0..6 with JavaScript's `%`.
   */
  function DayOfWeek(month: int, day: int, year: int): (w: int)
    requires 1 <= month <= 12 && year >= 0
    ensures IsWeekday(w)
    ensures (w - (YearDoomsdayValue(year) + (day - MonthDoomsday(month, year)))) % 7 == 0
  {
    var doomsday := YearDoomsdayValue(year);
    var diff := day - MonthDoomsday(month, year);
    Normalize(doomsday + diff)
  }

  /** The offset shown in the explanation panel: day minus the month's doomsday date, in 0..6. */
  function OffsetMod(month: int, day: int, year: int): (offset: int)
    requires 1 <= month <= 12
    ensures IsWeekday(offset)
    ensures (offset - (day - MonthDoomsday(month, year))) % 7 == 0
  {
    var rawOffsetDays := day - MonthDoomsday(month, year);
    Normalize(rawOffsetDays)
  }

  /** "Start from the doomsday and move the offset forward" lands on the answer. */
  lemma ExplanationAgrees(month: int, day: int, year: int)
    requires 1 <= month <= 12 && year >= 0
    ensures DayOfWeek(month, day, year) == (YearDoomsdayValue(year) + OffsetMod(month, day, year)) % 7
  {
    var w := DayOfWeek(month, day, year);
    var d := YearDoomsdayValue(year);
    var o := OffsetMod(month, day, year);
    var raw := day - MonthDoomsday(month, year);
    MultipleSub(w - (d + raw), o - raw);
    assert w - (d + o) == (w - (d + raw)) - (o - raw);
    WeekdayOf(w, d + o);
  }

  /** Every doomsday date of the month falls on the year's doomsday. */
  lemma DayOfWeekOnDoomsdayDate(month: int, year: int)
    requires 1 <= month <= 12 && year >= 0
    ensures DayOfWeek(month, MonthDoomsday(month, year), year) == YearDoomsdayValue(year)
  {
    SameWeekday(DayOfWeek(month, MonthDoomsday(month, year), year), YearDoomsdayValue(year));
  }

  /** The next day of the month is the next weekday. */
  lemma DayOfWeekNextDay(month: int, day: int, year: int)
    requires 1 <= month <= 12 && year >= 0
    ensures DayOfWeek(month, day + 1, year) == (DayOfWeek(month, day, year) + 1) % 7
  {
    var w := DayOfWeek(month, day, year);
    var w' := DayOfWeek(month, day + 1, year);
    var base := YearDoomsdayValue(year) + (day - MonthDoomsday(month, year));
    MultipleSub(w' - (base + 1), w - base);
    assert w' - (w + 1) == (w' - (base + 1)) - (w - base);
    WeekdayOf(w', w + 1);
  }

  /** The worked example: the Moon landing, July 20, 1969, was a Sunday. */
  lemma MoonLandingSunday()
    ensures YearDoomsday(1969).doomsday == 5
    ensures DayOfWeek(7, 20, 1969) == 0
  {
  }
}
