/**
 * The trainer's quiz state: the current question, the selected answer and
 * the streak and attempt counters, updated as the user answers and moves on.
 */
module Quiz {
  import opened Calendar
  import opened Doomsday
  import opened DateGen
  import Gregorian

  datatype Option<T> = None | Some(value: T)

  datatype Mode = Learn | Practice | Speed

  /** Number keys '1'..'7' pick the weekday indexes 0..6; other keys pick nothing. */
  function KeyToDayIndex(key: char): (r: Option<int>)
    ensures r.Some? <==> '1' <= key <= '7'
    ensures r.Some? ==> IsWeekday(r.value) && key as int == '1' as int + r.value
  {
    if '1' <= key <= '7' then Some(key as int - '1' as int) else None
  }

  /** The score counters shown under the question. */
  datatype Scores = Scores(streak: int, bestStreak: int, totalCorrect: int, totalAttempts: int)

  const NoScores := Scores(0, 0, 0, 0)

  function Max(a: int, b: int): int { if a >= b then a else b }

  /** The counters after one accepted answer. */
  function Score(s: Scores, correct: bool): (r: Scores)
    ensures r.totalAttempts == s.totalAttempts + 1
    ensures s.bestStreak <= r.bestStreak
    ensures s.bestStreak >= 0 ==> r.streak <= r.bestStreak
  {
    if correct then
      Scores(s.streak + 1, Max(s.bestStreak, s.streak + 1), s.totalCorrect + 1, s.totalAttempts + 1)
    else
      Scores(0, s.bestStreak, s.totalCorrect, s.totalAttempts + 1)
  }

  /** Order the counters always keep. */
  predicate Ordered(s: Scores)
  {
    0 <= s.streak <= s.bestStreak <= s.totalCorrect <= s.totalAttempts
  }

  /** Scoring an answer keeps the counters in order and counts one more attempt. */
  lemma ScoreKeepsOrder(s: Scores, correct: bool)
    requires Ordered(s)
    ensures Ordered(Score(s, correct))
    ensures Score(s, correct).totalAttempts == s.totalAttempts + 1
    ensures Score(s, correct).totalCorrect == s.totalCorrect + (if correct then 1 else 0)
    ensures correct <==> Score(s, correct).streak > 0
  {
  }

  /** The counters after a history of answers, oldest first, starting from zero. */
  function Replay(answers: seq<bool>): (r: Scores)
    ensures r.totalAttempts == |answers|
  {
    if |answers| == 0 then NoScores else Score(Replay(answers[..|answers| - 1]), answers[|answers| - 1])
  }

  /** `answers[i..j]` are all correct. */
  ghost predicate IsRun(answers: seq<bool>, i: int, j: int)
  {
    0 <= i <= j <= |answers| && forall k :: i <= k < j ==> answers[k]
  }

  /** Replaying one more answer scores it on top of the earlier ones. */
  lemma ReplayAppend(answers: seq<bool>, x: bool)
    ensures Replay(answers + [x]) == Score(Replay(answers), x)
  {
    assert (answers + [x])[..|answers|] == answers;
  }

  /** The totals of a history: all answers, and the right ones; the counters stay in order. */
  lemma {:induction false} ReplayTotals(answers: seq<bool>)
    ensures Ordered(Replay(answers))
    ensures Replay(answers).totalCorrect == multiset(answers)[true]
  {
    if |answers| > 0 {
      var n := |answers| - 1;
      var prefix, x := answers[..n], answers[n];
      assert answers == prefix + [x];
      ReplayTotals(prefix);
      ScoreKeepsOrder(Replay(prefix), x);
      assert multiset(answers) == multiset(prefix) + multiset{x};
    }
  }

  /**
   * What the streaks mean: the streak is the run of right answers that ends
   * the history, and the best streak the longest run anywhere in it.
   */
  lemma {:induction false} ReplayRuns(answers: seq<bool>)
    ensures 0 <= Replay(answers).streak <= |answers|
    ensures IsRun(answers, |answers| - Replay(answers).streak, |answers|)
    ensures Replay(answers).streak < |answers| ==> !answers[|answers| - Replay(answers).streak - 1]
    ensures exists i, j :: IsRun(answers, i, j) && j - i == Replay(answers).bestStreak
    ensures forall i, j :: IsRun(answers, i, j) ==> j - i <= Replay(answers).bestStreak
  {
    if |answers| == 0 {
      assert IsRun(answers, 0, 0);
    } else {
      var n := |answers| - 1;
      var prefix, x := answers[..n], answers[n];
      assert answers == prefix + [x];
      ReplayRuns(prefix);
      var s, r := Replay(prefix), Replay(answers);
      var i0, j0 :| IsRun(prefix, i0, j0) && j0 - i0 == s.bestStreak;
      assert IsRun(answers, i0, j0);
      forall i, j | IsRun(answers, i, j)
        ensures j - i <= r.bestStreak
      {
        if j <= n {
          assert IsRun(prefix, i, j);
        } else if !x {
          assert i == j;
        }
      }
      if x {
        assert IsRun(answers, n - s.streak, n + 1);
      }
    }
  }

  /** A date the generator can produce with its default range of years. */
  predicate QuestionDate(d: Date)
  {
    ValidDate(d) && DefaultStartYear <= d.year <= DefaultEndYear
  }

  /** The answer the trainer grades against: the doomsday weekday of the date. */
  function CorrectAnswer(d: Date): (w: int)
    requires QuestionDate(d)
    ensures IsWeekday(w)
  {
    DayOfWeek(d.month, d.day, d.year)
  }

  /** The graded answer is the true weekday of the question's date. */
  lemma CorrectAnswerIsTrueWeekday(d: Date)
    requires QuestionDate(d)
    ensures CorrectAnswer(d) == Gregorian.GregorianWeekday(d)
  {
    Gregorian.DayOfWeekCorrect(d);
  }

  /** The trainer's state; the UI writes these fields through its setters. */
  class Trainer {
    var mode: Mode
    var learnStep: int
    var currentDate: Date
    var selectedDay: Option<int>
    var showAnswer: bool
    var showHint: bool
    var streak: int
    var bestStreak: int
    var totalCorrect: int
    var totalAttempts: int
    /**
     * The question date seen by the registered keydown listener. The listener
     * is registered again only after a render in which the mode or
     * `showAnswer` changed, and it keeps the date of that render.
     */
    var listenerDate: Date
    /** Whether each accepted answer was right, oldest first. */
    ghost var history: seq<bool>

    function CurrentScores(): Scores
      reads this
    {
      Scores(streak, bestStreak, totalCorrect, totalAttempts)
    }

    ghost predicate Valid()
      reads this
    {
      && 0 <= learnStep <= 3
      && QuestionDate(currentDate) && QuestionDate(listenerDate)
      && (showAnswer <==> selectedDay.Some?)
      && (showAnswer ==> listenerDate == currentDate)
      && CurrentScores() == Replay(history)
    }

    /** The counters are always in order: streak <= best <= correct <= attempts. */
    lemma ScoresOrdered()
      requires Valid()
      ensures 0 <= streak <= bestStreak <= totalCorrect <= totalAttempts
    {
      ReplayTotals(history);
    }

    /** Initial state: learn mode, first lesson, a fresh question, zero counters. */
    constructor (yearDraw: int, monthDraw: int, dayDraw: int)
      requires ValidDraws(DefaultStartYear, DefaultEndYear, yearDraw, monthDraw, dayDraw)
      ensures Valid() && history == []
      ensures mode == Learn && learnStep == 0
      ensures currentDate == GenerateDate(DefaultStartYear, DefaultEndYear, yearDraw, monthDraw, dayDraw)
      ensures listenerDate == currentDate
      ensures selectedDay == None && !showAnswer && !showHint
      ensures CurrentScores() == NoScores
    {
      mode := Learn;
      learnStep := 0;
      currentDate := GenerateDate(DefaultStartYear, DefaultEndYear, yearDraw, monthDraw, dayDraw);
      listenerDate := currentDate;
      selectedDay := None;
      showAnswer := false;
      showHint := false;
      streak, bestStreak, totalCorrect, totalAttempts := 0, 0, 0, 0;
      history := [];
    }

    /**
     * The body of the answer handler, graded against the answer of the render
     * it was created in. Ignored while the answer is shown; otherwise the
     * answer is recorded, shown and scored, and showing it registers the
     * keydown listener again.
     */
    method ApplySelection(dayIndex: int, answer: int)
      requires Valid()
      modifies this
      ensures Valid()
      ensures old(showAnswer) ==> unchanged(this)
      ensures !old(showAnswer) ==> selectedDay == Some(dayIndex) && showAnswer && listenerDate == currentDate
      ensures !old(showAnswer) ==> history == old(history) + [dayIndex == answer]
      ensures !old(showAnswer) ==> CurrentScores() == Score(old(CurrentScores()), dayIndex == answer)
      ensures mode == old(mode) && learnStep == old(learnStep) && currentDate == old(currentDate)
      ensures showHint == old(showHint)
    {
      if showAnswer {
        return;
      }
      var isCorrect := dayIndex == answer;
      selectedDay := Some(dayIndex);
      showAnswer := true;
      listenerDate := currentDate;
      RecordAnswer(isCorrect);
    }

    /** A click on a weekday button, graded against the question on screen. */
    method HandleDaySelect(dayIndex: int)
      requires Valid()
      modifies this
      ensures Valid()
      ensures old(showAnswer) ==> unchanged(this)
      ensures !old(showAnswer) ==> selectedDay == Some(dayIndex) && showAnswer && listenerDate == currentDate
      ensures !old(showAnswer) ==> history == old(history) + [dayIndex == CorrectAnswer(currentDate)]
      ensures !old(showAnswer) ==> CurrentScores() == Score(old(CurrentScores()), dayIndex == CorrectAnswer(currentDate))
      ensures mode == old(mode) && learnStep == old(learnStep) && currentDate == old(currentDate)
      ensures showHint == old(showHint)
    {
      ApplySelection(dayIndex, CorrectAnswer(currentDate));
    }

    /** The counter updates of an accepted answer: one more attempt, and the streaks. */
    method RecordAnswer(isCorrect: bool)
      requires CurrentScores() == Replay(history)
      modifies this
      ensures CurrentScores() == Replay(history) == Score(old(CurrentScores()), isCorrect)
      ensures history == old(history) + [isCorrect]
      ensures mode == old(mode) && learnStep == old(learnStep) && currentDate == old(currentDate)
      ensures selectedDay == old(selectedDay) && showAnswer == old(showAnswer) && showHint == old(showHint)
      ensures listenerDate == old(listenerDate)
    {
      totalAttempts := totalAttempts + 1;
      if isCorrect {
        totalCorrect := totalCorrect + 1;
        var newStreak := streak + 1;
        bestStreak := Max(bestStreak, newStreak);
        streak := newStreak;
      } else {
        streak := 0;
      }
      assert CurrentScores() == Score(old(CurrentScores()), isCorrect);
      ReplayAppend(old(history), isCorrect);
      history := history + [isCorrect];
    }

    /**
     * Moves on to a new question and clears the answer and the hint. Hiding a
     * shown answer registers the keydown listener again.
     */
    method NextQuestion(yearDraw: int, monthDraw: int, dayDraw: int)
      requires Valid()
      requires ValidDraws(DefaultStartYear, DefaultEndYear, yearDraw, monthDraw, dayDraw)
      modifies this
      ensures Valid()
      ensures currentDate == GenerateDate(DefaultStartYear, DefaultEndYear, yearDraw, monthDraw, dayDraw)
      ensures selectedDay == None && !showAnswer && !showHint
      ensures listenerDate == if old(showAnswer) then currentDate else old(listenerDate)
      ensures CurrentScores() == old(CurrentScores()) && history == old(history)
      ensures mode == old(mode) && learnStep == old(learnStep)
    {
      var wasShown := showAnswer;
      currentDate := GenerateDate(DefaultStartYear, DefaultEndYear, yearDraw, monthDraw, dayDraw);
      selectedDay := None;
      showAnswer := false;
      showHint := false;
      if showAnswer != wasShown {
        listenerDate := currentDate;
      }
    }

    /** The "Show Hint" button: present only in practice mode before answering. */
    method ToggleHint()
      requires Valid()
      modifies this`showHint
      ensures Valid()
      ensures showHint == (if old(mode) == Practice && !old(showAnswer) then !old(showHint) else old(showHint))
    {
      if mode == Practice && !showAnswer {
        showHint := !showHint;
      }
    }

    /** "Previous" in the lessons, which are shown only in learn mode; disabled on the first one. */
    method PreviousLesson()
      requires Valid() && mode == Learn
      modifies this`learnStep
      ensures Valid()
      ensures learnStep == if old(learnStep) == 0 then 0 else old(learnStep) - 1
    {
      if learnStep != 0 {
        learnStep := learnStep - 1;
      }
    }

    /** "Next" in the lessons, which are shown only in learn mode; disabled on the fourth one. */
    method NextLesson()
      requires Valid() && mode == Learn
      modifies this`learnStep
      ensures Valid()
      ensures learnStep == if old(learnStep) == 3 then 3 else old(learnStep) + 1
    {
      if learnStep != 3 {
        learnStep := learnStep + 1;
      }
    }

    /**
     * The mode tabs: Practice and Speed Drill also start a new question. A
     * change of mode or of `showAnswer` registers the keydown listener again.
     */
    method SelectMode(newMode: Mode, yearDraw: int, monthDraw: int, dayDraw: int)
      requires Valid()
      requires ValidDraws(DefaultStartYear, DefaultEndYear, yearDraw, monthDraw, dayDraw)
      modifies this
      ensures Valid() && mode == newMode && learnStep == old(learnStep)
      ensures CurrentScores() == old(CurrentScores()) && history == old(history)
      ensures newMode == Learn ==> currentDate == old(currentDate) && showAnswer == old(showAnswer)
      ensures newMode == Learn ==> selectedDay == old(selectedDay) && showHint == old(showHint)
      ensures newMode != Learn ==> currentDate == GenerateDate(DefaultStartYear, DefaultEndYear, yearDraw, monthDraw, dayDraw)
      ensures newMode != Learn ==> selectedDay == None && !showAnswer && !showHint
      ensures listenerDate == if newMode != old(mode) || (newMode != Learn && old(showAnswer)) then currentDate
                              else old(listenerDate)
    {
      var wasMode, wasShown := mode, showAnswer;
      mode := newMode;
      if newMode != Learn {
        NextQuestion(yearDraw, monthDraw, dayDraw);
      }
      if mode != wasMode || showAnswer != wasShown {
        listenerDate := currentDate;
      }
    }

    /**
     * A key press outside the lessons, as the listener is meant to behave:
     * '1'..'7' answer the question on screen while no answer is shown, Space
     * moves on while one is. Both tests read the state from before the press.
     */
    method HandleKey(key: char, isSpace: bool, yearDraw: int, monthDraw: int, dayDraw: int)
      requires Valid()
      requires ValidDraws(DefaultStartYear, DefaultEndYear, yearDraw, monthDraw, dayDraw)
      modifies this
      ensures Valid() && mode == old(mode) && learnStep == old(learnStep)
      ensures old(mode) == Learn ==> unchanged(this)
      ensures !('1' <= key <= '7' && !old(showAnswer)) && !(isSpace && old(showAnswer)) ==> unchanged(this)
      ensures old(mode) != Learn && '1' <= key <= '7' && !old(showAnswer) ==>
                && currentDate == old(currentDate) && showHint == old(showHint)
                && selectedDay == Some(key as int - '1' as int) && showAnswer && listenerDate == currentDate
                && history == old(history) + [key as int - '1' as int == CorrectAnswer(currentDate)]
                && CurrentScores() == Score(old(CurrentScores()), key as int - '1' as int == CorrectAnswer(currentDate))
      ensures old(mode) != Learn && isSpace && old(showAnswer) ==>
                && currentDate == GenerateDate(DefaultStartYear, DefaultEndYear, yearDraw, monthDraw, dayDraw)
                && selectedDay == None && !showAnswer && !showHint && listenerDate == currentDate
                && CurrentScores() == old(CurrentScores()) && history == old(history)
    {
      if mode == Learn {
        return;
      }
      var shown := showAnswer;
      var index := KeyToDayIndex(key);
      if index.Some? && !shown {
        HandleDaySelect(index.value);
      }
      if isSpace && shown {
        NextQuestion(yearDraw, monthDraw, dayDraw);
      }
    }

    /**
     * A key press as the listener behaves: an answer key is graded against
     * the question of the render in which the listener was registered, which
     * can be an earlier question than the one on screen.
     */
    method HandleKeyAsWritten(key: char, isSpace: bool, yearDraw: int, monthDraw: int, dayDraw: int)
      requires Valid()
      requires ValidDraws(DefaultStartYear, DefaultEndYear, yearDraw, monthDraw, dayDraw)
      modifies this
      ensures Valid() && mode == old(mode) && learnStep == old(learnStep)
      ensures old(mode) == Learn ==> unchanged(this)
      ensures !('1' <= key <= '7' && !old(showAnswer)) && !(isSpace && old(showAnswer)) ==> unchanged(this)
      ensures old(mode) != Learn && '1' <= key <= '7' && !old(showAnswer) ==>
                && currentDate == old(currentDate) && showHint == old(showHint)
                && selectedDay == Some(key as int - '1' as int) && showAnswer && listenerDate == currentDate
                && history == old(history) + [key as int - '1' as int == CorrectAnswer(old(listenerDate))]
                && CurrentScores() == Score(old(CurrentScores()), key as int - '1' as int == CorrectAnswer(old(listenerDate)))
      ensures old(mode) != Learn && isSpace && old(showAnswer) ==>
                && currentDate == GenerateDate(DefaultStartYear, DefaultEndYear, yearDraw, monthDraw, dayDraw)
                && selectedDay == None && !showAnswer && !showHint && listenerDate == currentDate
                && CurrentScores() == old(CurrentScores()) && history == old(history)
    {
      if mode == Learn {
        return;
      }
      var shown := showAnswer;
      var index := KeyToDayIndex(key);
      if index.Some? && !shown {
        ApplySelection(index.value, CorrectAnswer(listenerDate));
      }
      if isSpace && shown {
        NextQuestion(yearDraw, monthDraw, dayDraw);
      }
    }
  }

  /** The key that answers weekday index `w`. */
  function KeyOf(w: int): (key: char)
    requires IsWeekday(w)
    ensures KeyToDayIndex(key) == Some(w)
  {
    ('1' as int + w) as char
  }

  /**
   * Draws for two questions with different answers exist: January 1, 2024 is
   * a Monday (1) and January 2, 2024 a Tuesday (2).
   */
  lemma NewYear2024Answers()
    ensures ValidDraws(DefaultStartYear, DefaultEndYear, 124, 0, 0)
    ensures ValidDraws(DefaultStartYear, DefaultEndYear, 124, 0, 1)
    ensures GenerateDate(DefaultStartYear, DefaultEndYear, 124, 0, 0) == Date(1, 1, 2024)
    ensures GenerateDate(DefaultStartYear, DefaultEndYear, 124, 0, 1) == Date(1, 2, 2024)
    ensures CorrectAnswer(Date(1, 1, 2024)) == 1 && CorrectAnswer(Date(1, 2, 2024)) == 2
  {
    YearDoomsday2024();
    assert MonthDoomsday(1, 2024) == 4;
    SameWeekday(DayOfWeek(1, 1, 2024), 1);
    SameWeekday(DayOfWeek(1, 2, 2024), 2);
  }

  /**
   * A new trainer, then the Practice tab (first question), then the Practice
   * tab again while that question is unanswered (second question). The mode
   * and `showAnswer` did not change on the second click, so the listener
   * still holds the first question.
   */
  method PracticeAgain(y1: int, m1: int, d1: int, y2: int, m2: int, d2: int) returns (t: Trainer)
    requires ValidDraws(DefaultStartYear, DefaultEndYear, y1, m1, d1)
    requires ValidDraws(DefaultStartYear, DefaultEndYear, y2, m2, d2)
    ensures fresh(t) && t.Valid() && t.mode == Practice && !t.showAnswer && t.CurrentScores() == NoScores
    ensures t.currentDate == GenerateDate(DefaultStartYear, DefaultEndYear, y2, m2, d2)
    ensures t.listenerDate == GenerateDate(DefaultStartYear, DefaultEndYear, y1, m1, d1)
  {
    t := new Trainer(y1, m1, d1);
    t.SelectMode(Practice, y1, m1, d1);
    t.SelectMode(Practice, y2, m2, d2);
  }

  /**
   * After `PracticeAgain`, pressing the key of the weekday of the question on
   * screen: when the two questions have different answers, the listener as
   * written counts the right key wrong. `NewYear2024Answers` gives draws for
   * which this happens.
   */
  method StaleKeyScenario(y1: int, m1: int, d1: int, y2: int, m2: int, d2: int) returns (t: Trainer, key: char)
    requires ValidDraws(DefaultStartYear, DefaultEndYear, y1, m1, d1)
    requires ValidDraws(DefaultStartYear, DefaultEndYear, y2, m2, d2)
    requires CorrectAnswer(GenerateDate(DefaultStartYear, DefaultEndYear, y1, m1, d1))
          != CorrectAnswer(GenerateDate(DefaultStartYear, DefaultEndYear, y2, m2, d2))
    ensures t.currentDate == GenerateDate(DefaultStartYear, DefaultEndYear, y2, m2, d2)
    ensures KeyToDayIndex(key) == Some(CorrectAnswer(t.currentDate))
    ensures t.totalAttempts == 1 && t.totalCorrect == 0 && t.streak == 0
  {
    t := PracticeAgain(y1, m1, d1, y2, m2, d2);
    key := KeyOf(CorrectAnswer(t.currentDate));
    t.HandleKeyAsWritten(key, false, y1, m1, d1);
  }

  /** The same presses, handled as intended: the right key is counted right. */
  method FreshKeyScenario(y1: int, m1: int, d1: int, y2: int, m2: int, d2: int) returns (t: Trainer, key: char)
    requires ValidDraws(DefaultStartYear, DefaultEndYear, y1, m1, d1)
    requires ValidDraws(DefaultStartYear, DefaultEndYear, y2, m2, d2)
    ensures t.currentDate == GenerateDate(DefaultStartYear, DefaultEndYear, y2, m2, d2)
    ensures KeyToDayIndex(key) == Some(CorrectAnswer(t.currentDate))
    ensures t.totalAttempts == 1 && t.totalCorrect == 1 && t.streak == 1
  {
    t := PracticeAgain(y1, m1, d1, y2, m2, d2);
    key := KeyOf(CorrectAnswer(t.currentDate));
    t.HandleKey(key, false, y1, m1, d1);
  }
}
