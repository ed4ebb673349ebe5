/** js/spaced-repetition.js: the SM-2 style review scheduler and the
    helpers that present a question's schedule and status. Intervals are in
    hours; timestamps are milliseconds. */
module SpacedRepetition {
  import opened Builtins
  import opened Data

  /** The result object of calculateNextReview. */
  datatype Review = Review(nextInterval: real, newEaseFactor: real)

  function MaxReal(a: real, b: real): (m: real)
    ensures m >= a && m >= b && (m == a || m == b)
  {
    if a >= b then a else b
  }

  function MinReal(a: real, b: real): (m: real)
    ensures m <= a && m <= b && (m == a || m == b)
  {
    if a <= b then a else b
  }

  /** The SM-2 ease change 0.1 - (5 - q) (0.08 + (5 - q) 0.02) for the
      quality q = difficulty - 1 of a correct answer. */
  function EaseChange(difficulty: int): real {
    var q := difficulty - 1;
    0.1 - (5 - q) as real * (0.08 + (5 - q) as real * 0.02)
  }

  /** calculateNextReview(currentInterval, easeFactor, wasCorrect, difficulty):
      the interval never leaves 1..720 hours, the ease factor never falls
      below 1.3, and a correct answer always waits at least 6 hours. */
  function CalculateNextReview(currentInterval: real, easeFactor: real, wasCorrect: bool, difficulty: int): (r: Review)
    ensures r.newEaseFactor >= 1.3
    ensures 1.0 <= r.nextInterval <= 720.0
    ensures wasCorrect ==> r.nextInterval >= 6.0
    ensures !wasCorrect ==> (r.nextInterval == MinReal(MaxReal(1.0, (3 - difficulty) as real), 720.0)
                             && r.newEaseFactor == MaxReal(1.3, easeFactor - 0.2))
    ensures wasCorrect ==> r.newEaseFactor == MaxReal(1.3, easeFactor + EaseChange(difficulty))
  {
    if !wasCorrect then
      Review(MinReal(MaxReal(1.0, (3 - difficulty) as real), 720.0), MaxReal(1.3, easeFactor - 0.2))
    else
      var newEase := MaxReal(1.3, easeFactor + EaseChange(difficulty));
      GrowthPastSix(currentInterval, newEase, difficulty);
      Review(MinReal(Graduated(currentInterval, newEase, difficulty), 720.0), newEase)
  }

  /** The uncapped interval after a correct answer: 6 hours after the first
      interval of 1 hour, a day after any other interval up to 6 hours, and
      the interval grown by the ease and adjusted for the rating after that. */
  function Graduated(currentInterval: real, newEase: real, difficulty: int): real {
    if currentInterval == 1.0 then 6.0
    else if currentInterval <= 6.0 then 24.0
    else Adjusted(Round(currentInterval * newEase) as real, difficulty)
  }

  /** The difficulty adjustment of a subsequent review: hard ratings halve
      the grown interval but keep a day, easy ratings add a fifth. */
  function Adjusted(grown: real, difficulty: int): real {
    if difficulty <= 2 then MaxReal(grown / 2.0, 24.0)
    else if difficulty >= 4 then grown * 1.2
    else grown
  }

  /** An interval past 6 hours grown by an ease of at least 1.3 is at least
      8 hours, and the adjustment keeps it there. */
  lemma GrowthPastSix(currentInterval: real, ease: real, difficulty: int)
    requires ease >= 1.3
    ensures currentInterval > 6.0 ==> Adjusted(Round(currentInterval * ease) as real, difficulty) >= 8.0
  {
    if currentInterval > 6.0 {
      MulAtMost(6.0, currentInterval, ease);
      MulAtMost(1.3, ease, 6.0);
    }
  }

  /** A wrong answer resets the interval by difficulty alone, whatever the
      current interval: 2 hours for "very hard", 1 hour otherwise. */
  lemma IncorrectResets(currentInterval: real, easeFactor: real, difficulty: int)
    requires 1 <= difficulty <= 5
    ensures var r := CalculateNextReview(currentInterval, easeFactor, false, difficulty);
      && r.nextInterval == (if difficulty == 1 then 2.0 else 1.0)
      && r.newEaseFactor == MaxReal(1.3, easeFactor - 0.2)
  {
  }

  /** The first two successful reviews graduate the interval to 6 hours and
      then to a day. */
  lemma CorrectGraduates(currentInterval: real, easeFactor: real, difficulty: int)
    ensures currentInterval == 1.0 ==>
              CalculateNextReview(currentInterval, easeFactor, true, difficulty).nextInterval == 6.0
    ensures currentInterval != 1.0 && currentInterval <= 6.0 ==>
              CalculateNextReview(currentInterval, easeFactor, true, difficulty).nextInterval == 24.0
  {
  }

  /** A correct answer with a rating in 1..5 never lifts the ease factor
      above the larger of its old value and the floor 1.3: an ease already
      at the floor or above never rises, one below it rises only to 1.3.
      "Very easy" (5) keeps an ease of 1.3 or more as it is. */
  lemma CorrectNeverRaisesEase(currentInterval: real, easeFactor: real, difficulty: int)
    requires 1 <= difficulty <= 5
    ensures CalculateNextReview(currentInterval, easeFactor, true, difficulty).newEaseFactor
         <= (if easeFactor >= 1.3 then easeFactor else 1.3)
    ensures easeFactor < 1.3 ==> CalculateNextReview(currentInterval, easeFactor, true, difficulty).newEaseFactor == 1.3
    ensures difficulty == 5 && easeFactor >= 1.3 ==>
              CalculateNextReview(currentInterval, easeFactor, true, difficulty).newEaseFactor == easeFactor
  {
    EaseChangeValues(difficulty);
  }

  lemma EaseChangeValues(difficulty: int)
    requires 1 <= difficulty <= 5
    ensures EaseChange(difficulty) == [-0.8, -0.54, -0.32, -0.14, 0.0][difficulty - 1]
  {
  }

  /** The ease update of calculateNextInterval in js/data.js feeds the rating
      in where this one feeds the rating minus one: the store rates every
      answer one step easier than this scheduler would. */
  lemma StoreEaseIsOneStepEasier(easeFactor: real, difficulty: int)
    ensures AdjustedEase(easeFactor, difficulty) == MaxReal(1.3, easeFactor + EaseChange(difficulty + 1))
  {
  }

  /** For "medium" or easier ratings, a subsequent successful review never
      shortens the interval below the current one unless the 720-hour cap
      applies. */
  lemma CorrectGrowsInterval(currentInterval: real, easeFactor: real, difficulty: int)
    requires currentInterval > 6.0 && difficulty >= 3
    ensures var r := CalculateNextReview(currentInterval, easeFactor, true, difficulty);
      r.nextInterval == 720.0 || r.nextInterval > currentInterval
  {
    CorrectIsGraduated(currentInterval, easeFactor, difficulty);
    var r := CalculateNextReview(currentInterval, easeFactor, true, difficulty);
    GraduatedGrows(currentInterval, r.newEaseFactor, difficulty);
  }

  lemma GraduatedGrows(currentInterval: real, newEase: real, difficulty: int)
    requires currentInterval > 6.0 && newEase >= 1.3 && difficulty >= 3
    ensures var next := MinReal(Graduated(currentInterval, newEase, difficulty), 720.0);
      next == 720.0 || next > currentInterval
  {
    GraduatedBands(currentInterval, newEase, difficulty);
    GrowthExceeds(currentInterval, newEase);
    var grown := Round(currentInterval * newEase) as real;
    if difficulty >= 4 {
      MulStrict(1.0, 1.2, grown);
    }
  }

  /** An interval past 6 hours grown by an ease of 1.3 or more and rounded
      is longer than it was. */
  lemma GrowthExceeds(currentInterval: real, ease: real)
    requires currentInterval > 6.0 && ease >= 1.3
    ensures Round(currentInterval * ease) as real > currentInterval
  {
    MulAtMost(1.3, ease, currentInterval);
    var x := currentInterval * ease;
    assert x >= 1.3 * currentInterval;
    assert Round(x) as real > x - 0.5;
    assert 1.3 * currentInterval - 0.5 > currentInterval;
  }

  /** The correct branch of calculateNextReview, for the lemmas below. */
  lemma CorrectIsGraduated(currentInterval: real, easeFactor: real, difficulty: int)
    ensures var r := CalculateNextReview(currentInterval, easeFactor, true, difficulty);
      r.nextInterval == MinReal(Graduated(currentInterval, r.newEaseFactor, difficulty), 720.0)
  {
  }

  /** A subsequent successful review (past 6 hours) grows the interval by
      the new ease factor and rounds it; a "hard" rating halves that but
      keeps at least a day, "medium" keeps it, an "easy" rating adds a
      fifth, all under the 720-hour cap. r is the review after the correct
      answer. */
  lemma GraduatedPastSix(currentInterval: real, easeFactor: real, difficulty: int, r: Review)
    requires currentInterval > 6.0 && r == CalculateNextReview(currentInterval, easeFactor, true, difficulty)
    ensures difficulty <= 2 ==>
              24.0 <= r.nextInterval == MinReal(MaxReal(Round(currentInterval * r.newEaseFactor) as real / 2.0, 24.0), 720.0)
    ensures difficulty == 3 ==> r.nextInterval == MinReal(Round(currentInterval * r.newEaseFactor) as real, 720.0)
    ensures difficulty >= 4 ==> r.nextInterval == MinReal(Round(currentInterval * r.newEaseFactor) as real * 1.2, 720.0)
  {
    CorrectIsGraduated(currentInterval, easeFactor, difficulty);
    GraduatedBands(currentInterval, r.newEaseFactor, difficulty);
  }

  /** The bands of Graduated past 6 hours, for any new ease. */
  lemma GraduatedBands(currentInterval: real, newEase: real, difficulty: int)
    requires currentInterval > 6.0
    ensures var grown := Round(currentInterval * newEase) as real;
            var next := MinReal(Graduated(currentInterval, newEase, difficulty), 720.0);
      && (difficulty <= 2 ==> 24.0 <= next == MinReal(MaxReal(grown / 2.0, 24.0), 720.0))
      && (difficulty == 3 ==> next == MinReal(grown, 720.0))
      && (difficulty >= 4 ==> next == MinReal(grown * 1.2, 720.0))
  {
  }

  /** A "hard" rating can shorten a long interval: 100 hours with ease 2.5
      rated 2 comes back as 98 hours. */
  lemma HardRatingCanShorten()
    ensures CalculateNextReview(100.0, 2.5, true, 2).nextInterval == 98.0
  {
    assert EaseChange(2) == -0.54;
    assert Round(100.0 * 1.96) == 196;
  }

  // ---------------------------------------------------------------------
  // Presentation

  /** `${x}` for a number: the integer digits for a whole number, and
      showFraction(x) for any other, whose shortest round-trip decimal
      rendering is not part of this model. */
  function ShowNumber(x: real, showFraction: real -> string): string {
    if x.Floor as real == x then IntToString(x.Floor) else showFraction(x)
  }

  /** formatInterval(hours): the unit follows the range, minutes under an
      hour, hours under a day and days from a day on. */
  function FormatInterval(hours: real, showFraction: real -> string): (r: string)
    ensures hours < 1.0 ==> EndsWith(r, " minutos")
    ensures 1.0 <= hours < 24.0 ==> EndsWith(r, " hora") || EndsWith(r, " horas")
    ensures hours >= 24.0 ==> EndsWith(r, " dia") || EndsWith(r, " dias")
  {
    if hours < 1.0 then IntToString(Round(hours * 60.0)) + " minutos"
    else if hours < 24.0 then (if hours == 1.0 then "1 hora" else ShowNumber(hours, showFraction) + " horas")
    else
      var days := (hours / 24.0).Floor;
      if days == 1 then "1 dia" else IntToString(days) + " dias"
  }

  function EndsWith(s: string, suffix: string): bool {
    |suffix| <= |s| && s[|s| - |suffix|..] == suffix
  }

  /** Under an hour is told in minutes, 0 to 60 of them for a non-negative
      interval, and the number reads back as the rounded minutes. */
  lemma FormatIntervalMinutes(hours: real, showFraction: real -> string)
    requires 0.0 <= hours < 1.0
    ensures var s := FormatInterval(hours, showFraction);
      && 0 <= Round(hours * 60.0) <= 60
      && s == NatToString(Round(hours * 60.0)) + " minutos"
      && ParseInt(s) == Some(Round(hours * 60.0))
  {
    ParseIntOfDigitsThen(Round(hours * 60.0), " minutos");
  }

  /** A day or more is told in whole days, "1 dia" exactly from 24 up to 48
      hours, and the number reads back as the whole days. */
  lemma FormatIntervalDays(hours: real, showFraction: real -> string)
    requires hours >= 24.0
    ensures var s := FormatInterval(hours, showFraction);
            var days := (hours / 24.0).Floor;
      && days >= 1
      && (s == "1 dia" <==> hours < 48.0)
      && (hours >= 48.0 ==> s == NatToString(days) + " dias")
      && ParseInt(s) == Some(days)
  {
    var days := (hours / 24.0).Floor;
    DivAtLeast(hours, 24.0, 24.0);
    if hours < 48.0 {
      DivBelow(hours, 48.0, 24.0);
      ParseIntOfDigitsThen(1, " dia");
    } else {
      DivAtLeast(hours, 48.0, 24.0);
      ParseIntOfDigitsThen(days, " dias");
    }
  }

  /** Between one hour and a day, whole hours are told as "1 hora" or
      "<h> horas". */
  lemma FormatIntervalHours(h: nat, showFraction: real -> string)
    requires 1 <= h < 24
    ensures FormatInterval(h as real, showFraction) == (if h == 1 then "1 hora" else NatToString(h) + " horas")
  {
  }

  lemma DivAtLeast(a: real, b: real, c: real)
    requires a >= b && c > 0.0
    ensures a / c >= b / c
  {
    DivMonotone(b, a, c);
  }

  lemma DivBelow(a: real, b: real, c: real)
    requires a < b && c > 0.0
    ensures a / c < b / c
  {
    var x := a / c;
    var y := b / c;
    DivBounds(a, c);
    DivBounds(b, c);
    assert x * c == a && y * c == b;
    if x >= y {
      MulAtMost(y, x, c);
    }
  }

  const AvailableNow: string := "Disponível agora"

  /** getTimeUntilNextReview(nextReviewDate) at time now: None is a missing
      date. */
  function GetTimeUntilNextReview(nextReview: Option<int>, now: int, showFraction: real -> string): (r: string)
    ensures r == AvailableNow || (|r| > 3 && r[..3] == "Em ")
  {
    if nextReview.None? || nextReview.value <= now then AvailableNow
    else
      var diffHours := (nextReview.value - now) as real / 3600000.0;
      "Em " + FormatInterval(diffHours, showFraction)
  }

  /** The question is available now exactly when it has no next review or
      that review is not in the future; otherwise the text is "Em " and the
      remaining time. */
  lemma AvailableExactlyWhenDue(nextReview: Option<int>, now: int, showFraction: real -> string)
    ensures GetTimeUntilNextReview(nextReview, now, showFraction) == AvailableNow
        <==> nextReview.None? || nextReview.value <= now
    ensures nextReview.Some? && nextReview.value > now ==>
              GetTimeUntilNextReview(nextReview, now, showFraction)[..3] == "Em "
  {
    if nextReview.Some? && nextReview.value > now {
      var s := GetTimeUntilNextReview(nextReview, now, showFraction);
      assert s[0] == 'E';
      assert AvailableNow[0] == 'D';
    }
  }

  /** Right after the store schedules a review interval hours ahead, the
      remaining time shown is that interval. */
  lemma ScheduledReadsBack(now: int, interval: int, showFraction: real -> string)
    requires interval >= 1
    ensures GetTimeUntilNextReview(Some(now + interval * 3600000), now, showFraction)
         == "Em " + FormatInterval(interval as real, showFraction)
  {
    var next := now + interval * 3600000;
    assert (next - now) as real == interval as real * 3600000.0;
    assert (next - now) as real / 3600000.0 == interval as real;
    TimeUntilFuture(next, now, interval as real, showFraction);
  }

  lemma TimeUntilFuture(next: int, now: int, hours: real, showFraction: real -> string)
    requires next > now && hours == (next - now) as real / 3600000.0
    ensures GetTimeUntilNextReview(Some(next), now, showFraction) == "Em " + FormatInterval(hours, showFraction)
  {
    var nextReview: Option<int> := Some(next);
    assert !(nextReview.None? || nextReview.value <= now);
    var told := FormatInterval(hours, showFraction);
    assert GetTimeUntilNextReview(nextReview, now, showFraction) == "Em " + told;
  }

  // ---------------------------------------------------------------------
  // Colours and status

  /** The colours of ratings 1 to 5: red, orange, grey, blue, green. */
  const Colors: seq<string> := ["#dc3545", "#fd7e14", "#6c757d", "#0d6efd", "#198754"]

  /** getDifficultyColor(difficulty): the colour of a rating in 1..5, and the
      "medium" grey for anything else. */
  function GetDifficultyColor(difficulty: int): (c: string)
    ensures c in Colors
    ensures 1 <= difficulty <= 5 ==> c == Colors[difficulty - 1]
    ensures !(1 <= difficulty <= 5) ==> c == Colors[2]
  {
    if 1 <= difficulty <= 5 then Colors[difficulty - 1] else Colors[2]
  }

  /** Different ratings in 1..5 get different colours, and every rating
      outside 1..5 looks like "medium". */
  lemma DifficultyColorsDistinct(d1: int, d2: int)
    requires 1 <= d1 <= 5 && 1 <= d2 <= 5
    ensures GetDifficultyColor(d1) == GetDifficultyColor(d2) <==> d1 == d2
    ensures GetDifficultyColor(3) == GetDifficultyColor(0) == GetDifficultyColor(6)
  {
    assert Colors[0][1] == 'd' && Colors[1][1] == 'f' && Colors[2][1] == '6';
    assert Colors[3][1] == '0' && Colors[4][1] == '1';
  }

  const NotStudied: string := "Não estudada"
  const Mastered: string := "Dominada"
  const NearlyMastered: string := "Quase dominada"
  const LearningWell: string := "Aprendendo bem"
  const Learning: string := "Aprendendo"
  const Hard: string := "Difícil"
  const NotLearned: string := "Ainda não aprendida"

  /** getLearningStatus(progress); None is a missing record. */
  function GetLearningStatus(progress: Option<Progress>): (r: string)
    ensures r in {NotStudied, Mastered, NearlyMastered, LearningWell, Learning, Hard, NotLearned}
    ensures progress.None? ==> r == NotStudied
  {
    if progress.None? || progress.value.seen == 0 then NotStudied
    else
      var ratio := progress.value.correct as real / progress.value.seen as real;
      if ratio == 1.0 && progress.value.seen >= 3 then Mastered
      else if ratio >= 0.8 then NearlyMastered
      else if ratio >= 0.6 then LearningWell
      else if ratio >= 0.4 then Learning
      else if ratio > 0.0 then Hard
      else NotLearned
  }

  /** The status by whole-number comparisons of the counters, without the
      ratio: the reference the ratio thresholds are checked against. */
  function StatusByCounts(correct: nat, seen: nat): string {
    if seen == 0 then NotStudied
    else if correct == seen && seen >= 3 then Mastered
    else if 5 * correct >= 4 * seen then NearlyMastered
    else if 5 * correct >= 3 * seen then LearningWell
    else if 5 * correct >= 2 * seen then Learning
    else if correct > 0 then Hard
    else NotLearned
  }

  /** The ratio thresholds of getLearningStatus are the whole-number
      thresholds 4/5, 3/5 and 2/5 of the presentations. */
  lemma LearningStatusByCounts(p: Progress)
    ensures GetLearningStatus(Some(p)) == StatusByCounts(p.correct, p.seen)
  {
    if p.seen > 0 {
      var s := p.seen as real;
      var ratio := p.correct as real / s;
      DivBounds(p.correct as real, s);
      RatioAtLeast(ratio, s, p.correct as real, 1.0);
      RatioAtLeast(ratio, s, p.correct as real, 0.8);
      RatioAtLeast(ratio, s, p.correct as real, 0.6);
      RatioAtLeast(ratio, s, p.correct as real, 0.4);
      if ratio == 1.0 {
        assert p.correct as real == s;
      }
      if p.correct == p.seen {
        assert ratio * s == 1.0 * s;
        if ratio != 1.0 {
          if ratio < 1.0 {
            MulStrict(ratio, 1.0, s);
          } else {
            MulStrict(1.0, ratio, s);
          }
        }
      }
      if ratio > 0.0 {
        MulStrict(0.0, ratio, s);
      }
    }
  }

  lemma RatioAtLeast(ratio: real, s: real, c: real, t: real)
    requires s > 0.0 && ratio * s == c
    ensures ratio >= t <==> c >= t * s
  {
    if ratio >= t {
      MulAtMost(t, ratio, s);
    } else {
      MulStrict(ratio, t, s);
    }
  }

  /** Points on the status scale: every answer right once or twice is
      "nearly mastered", three right out of five is "learning well", and a
      missing record is "not studied". */
  lemma LearningStatusExamples(p: Progress)
    ensures p.seen == p.correct && 1 <= p.seen <= 2 ==> GetLearningStatus(Some(p)) == NearlyMastered
    ensures p.seen == 5 && p.correct == 3 ==> GetLearningStatus(Some(p)) == LearningWell
    ensures p.seen == 0 ==> GetLearningStatus(Some(p)) == NotStudied
    ensures GetLearningStatus(None) == NotStudied
  {
    LearningStatusByCounts(p);
  }

  /** A record seen at least once with no correct answer is "not learned
      yet", and one answered correctly every one of three or more times is
      "mastered". */
  lemma LearningStatusEnds(p: Progress)
    requires Sound(p) && p.seen > 0
    ensures GetLearningStatus(Some(p)) == NotLearned <==> p.correct == 0
    ensures GetLearningStatus(Some(p)) == Mastered <==> p.incorrect == 0 && p.seen >= 3
  {
    LearningStatusByCounts(p);
  }
}
