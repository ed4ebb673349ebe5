/** The quiz session of js/app.js: the module-level variables of a running
    quiz (js/app.js:12-23) as the fields of one object, the handlers that
    change them, and the progress store they report to. The screens, the
    timer and the DOM are reduced to the state they encode: which screen
    shows, whether an option and a difficulty are marked selected, and the
    score written on the results screen. */
module Quiz {
  import opened Builtins
  import opened Data
  import opened DataStore
  import opened App

  datatype Screen = ModuleSelection | QuizScreen | Results

  /** The module name startSpacedRepetition gives a review session. */
  const ReviewTitle: string := "Revisão"

  /** The session's fields as one value; of the question list only its
      length, the order of its questions being stated apart. */
  datatype View = View(
    title: string,
    count: nat,
    index: nat,
    correct: nat,
    incorrect: nat,
    difficulty: int,
    review: bool,
    due: seq<Question>,
    answered: bool,
    shown: bool,
    rated: bool,
    screen: Screen,
    score: int)

  /** The end of loadQuestion: the results screen with its score once the
      index has passed the last question, and otherwise a fresh question
      with no option and no difficulty marked. */
  function Loaded(v: View): View {
    if v.index >= v.count then v.(screen := Results, score := Score(v.correct, v.incorrect))
    else v.(answered := false, shown := false, rated := false)
  }

  /** What startQuizFlow leaves once its questions are in place: the index
      and both counters zeroed, the quiz screen shown and the first question
      loaded. */
  function Flowed(v: View): View {
    Loaded(v.(index := 0, correct := 0, incorrect := 0, screen := QuizScreen))
  }

  /** Whether the option the question names as correct exists; when it does
      not, highlighting it after a wrong answer throws. */
  predicate Highlightable(q: Question) {
    0 <= q.correctIndex < |q.options|
  }

  /** The user data after selectOption reports an outcome: by search over
      the modules in a review, by the session's module otherwise. */
  function Reported(bank: map<string, seq<Question>>, ud: UserData, review: bool, m: string,
                    text: string, isCorrect: bool, now: int): UserData
    requires ModuleSet <= bank.Keys && ModuleSet <= ud.progress.Keys && (!review ==> m in ModuleSet)
  {
    if review then SavedReviewOutcome(bank, ud, text, isCorrect, now)
    else SavedOutcome(bank, ud, m, text, isCorrect, now)
  }

  class Session {
    const store: Store
    var currentModule: string
    var currentQuestions: array<Question>
    var currentQuestionIndex: nat
    var correctAnswers: nat
    var incorrectAnswers: nat
    var selectedDifficulty: int
    var isReviewMode: bool
    var reviewQuestions: seq<Question>
    /** An option of the current question is marked selected. */
    var answered: bool
    /** The difficulty buttons are visible, so they can be clicked. */
    var shown: bool
    /** A difficulty button is marked selected. */
    var rated: bool
    var screen: Screen
    /** The score shown on the results screen. */
    var score: int

    ghost function State(): View
      reads this
    {
      View(currentModule, currentQuestions.Length, currentQuestionIndex, correctAnswers, incorrectAnswers,
           selectedDifficulty, isReviewMode, reviewQuestions, answered, shown, rated, screen, score)
    }

    /** The session invariant: on the quiz screen the index names a question
        and every question before it, together with the current one once
        answered, was counted exactly once; on the results screen every
        question was counted and the score is that of the counters. */
    ghost predicate Valid()
      reads this, store
    {
      store.Valid() && Counted()
    }

    ghost predicate Counted()
      reads this
    {
      && currentQuestionIndex <= currentQuestions.Length
      && (rated ==> shown) && (shown ==> answered)
      && (screen == QuizScreen ==>
            && currentQuestionIndex < currentQuestions.Length
            && correctAnswers + incorrectAnswers == currentQuestionIndex + (if answered then 1 else 0)
            && (!isReviewMode ==> currentModule in ModuleSet))
      && (screen == Results ==>
            && currentQuestionIndex == currentQuestions.Length
            && correctAnswers + incorrectAnswers == currentQuestionIndex
            && score == Score(correctAnswers, incorrectAnswers))
    }

    /** No record has a next review and no review session runs: the state a
        user starts in, and one the session never leaves by itself. */
    ghost predicate Dormant()
      reads this, store
    {
      WellFormed(store.userData) && NoneScheduled(store.userData.progress) && !isReviewMode
    }

    /** The list startQuiz(module) runs on: the inline list for Opioides,
        otherwise the module's list in the bank. */
    ghost function ListFor(name: string, opioides: seq<Question>): seq<Question>
      reads store
    {
      if name == "Opioides" then opioides
      else if name in store.questionsData then store.questionsData[name]
      else []
    }

    /** Whether startQuiz(module) starts a quiz at all. */
    ghost predicate Offered(name: string)
      reads store
    {
      name == "Opioides" || (name in store.questionsData && |store.questionsData[name]| > 0)
    }

    constructor (store: Store)
      requires store.Valid()
      ensures Valid() && this.store == store
      ensures State() == View("", 0, 0, 0, 0, 0, false, [], false, false, false, ModuleSelection, 0)
    {
      this.store := store;
      currentModule := "";
      currentQuestions := new Question[0];
      currentQuestionIndex := 0;
      correctAnswers := 0;
      incorrectAnswers := 0;
      selectedDifficulty := 0;
      isReviewMode := false;
      reviewQuestions := [];
      answered := false;
      shown := false;
      rated := false;
      screen := ModuleSelection;
      score := 0;
    }

    /** finishQuiz: show the results with the score of the counters. */
    method FinishQuiz()
      modifies this
      ensures currentQuestions == old(currentQuestions)
      ensures State() == old(State()).(screen := Results, score := Score(correctAnswers, incorrectAnswers))
    {
      var totalQuestions := correctAnswers + incorrectAnswers;
      score := if totalQuestions > 0 then Percent(correctAnswers, totalQuestions) else 0;
      screen := Results;
    }

    /** loadQuestion: finish once the index has passed the last question,
        otherwise clear the marks of the previous question and hide the
        difficulty buttons. */
    method LoadQuestion()
      requires screen == QuizScreen
      requires currentQuestionIndex <= currentQuestions.Length
      requires (rated ==> shown) && (shown ==> answered)
      requires correctAnswers + incorrectAnswers == currentQuestionIndex
      requires !isReviewMode ==> currentModule in ModuleSet
      modifies this
      ensures Counted()
      ensures currentQuestions == old(currentQuestions)
      ensures State() == Loaded(old(State()))
    {
      if currentQuestionIndex >= currentQuestions.Length {
        FinishQuiz();
        return;
      }
      answered := false;
      shown := false;
      rated := false;
    }

    /** startQuizFlow, with the draws of Math.random given as choices: the
        list is shuffled in place unless this is a review session. */
    method StartQuizFlow(choices: seq<nat>)
      requires !isReviewMode ==> currentModule in ModuleSet && ValidChoices(currentQuestions.Length, choices)
      requires (rated ==> shown) && (shown ==> answered)
      modifies this, currentQuestions
      ensures Counted()
      ensures currentQuestions == old(currentQuestions)
      ensures currentQuestions[..] == if old(isReviewMode) then old(currentQuestions[..])
                                      else Shuffle(old(currentQuestions[..]), choices)
      ensures State() == Flowed(old(State()))
    {
      if !isReviewMode {
        ShuffleArray(currentQuestions, choices);
      }
      BeginQuiz();
    }

    /** The rest of startQuizFlow once the list is in its order: zero the
        index and both counters, show the quiz screen, load the first
        question. */
    method BeginQuiz()
      requires (!isReviewMode ==> currentModule in ModuleSet)
      requires (rated ==> shown) && (shown ==> answered)
      modifies this
      ensures Counted() && currentQuestions == old(currentQuestions)
      ensures State() == Flowed(old(State()))
    {
      currentQuestionIndex, correctAnswers, incorrectAnswers, screen := 0, 0, 0, QuizScreen;
      assert State() == old(State()).(index := 0, correct := 0, incorrect := 0, screen := QuizScreen);
      LoadQuestion();
    }

    /** startQuiz(module) as it should be: the quiz runs on a copy of the
        module's list, so the shuffle leaves the bank as it was. A module
        with no list, or an empty one, goes back to module selection. */
    method StartQuizOnCopy(name: string, opioides: seq<Question>, choices: seq<nat>)
      requires Valid() && ValidChoices(|ListFor(name, opioides)|, choices)
      modifies this
      ensures Valid()
      ensures store.questionsData == old(store.questionsData) && store.userData == old(store.userData)
      ensures Offered(name) ==>
                && fresh(currentQuestions)
                && currentQuestions[..] == Shuffle(old(ListFor(name, opioides)), choices)
                && State() == Flowed(old(State()).(title := name, review := false, count := |old(ListFor(name, opioides))|))
      ensures !Offered(name) ==>
                State() == old(State()).(title := name, review := false, screen := ModuleSelection)
      ensures old(Dormant()) ==> Dormant()
    {
      currentModule := name;
      isReviewMode := false;
      if name == "Opioides" {
        StartOn(opioides, choices);
        return;
      }
      if name in store.questionsData && |store.questionsData[name]| > 0 {
        StartOn(store.questionsData[name], choices);
      } else {
        screen := ModuleSelection;
      }
    }

    /** startQuizFlow on a fresh copy of list. */
    method StartOn(list: seq<Question>, choices: seq<nat>)
      requires !isReviewMode && currentModule in ModuleSet && ValidChoices(|list|, choices)
      requires (rated ==> shown) && (shown ==> answered)
      modifies this
      ensures Counted() && fresh(currentQuestions)
      ensures currentQuestions[..] == Shuffle(list, choices)
      ensures State() == Flowed(old(State()).(count := |list|))
    {
      currentQuestions := new Question[|list|](k requires 0 <= k < |list| => list[k]);
      assert currentQuestions[..] == list;
      StartQuizFlow(choices);
    }

    /** startQuiz(module) as the source has it: currentQuestions is the
        bank's own list, so the shuffle of startQuizFlow reorders the bank
        too. The model runs the quiz on a copy and writes the shuffled copy
        back, which leaves the bank as the shared array would. */
    method StartQuiz(name: string, opioides: seq<Question>, choices: seq<nat>)
      requires Valid() && ValidChoices(|ListFor(name, opioides)|, choices)
      modifies this, store
      ensures Valid()
      ensures store.userData == old(store.userData)
      ensures Offered(name) ==>
                && fresh(currentQuestions)
                && currentQuestions[..] == Shuffle(old(ListFor(name, opioides)), choices)
                && State() == Flowed(old(State()).(title := name, review := false, count := |old(ListFor(name, opioides))|))
      ensures !Offered(name) ==>
                State() == old(State()).(title := name, review := false, screen := ModuleSelection)
      ensures name != "Opioides" && Offered(name) ==>
                && store.questionsData == old(store.questionsData)[name := currentQuestions[..]]
                && multiset(store.questionsData[name]) == multiset(old(store.questionsData[name]))
      ensures name == "Opioides" || !Offered(name) ==> store.questionsData == old(store.questionsData)
      ensures old(Dormant()) ==> Dormant()
    {
      var shared := name != "Opioides" && name in store.questionsData && |store.questionsData[name]| > 0;
      ghost var list := ListFor(name, opioides);
      StartQuizOnCopy(name, opioides, choices);
      if shared {
        ShufflePermutes(list, choices);
        store.SetModuleQuestions(name, currentQuestions[..]);
      }
    }

    /** startSpacedRepetition at time now, reading ids at their last '_':
        with nothing due it stops; otherwise the due questions, unshuffled,
        become a review session. */
    method StartSpacedRepetition(now: int)
      requires Valid()
      modifies this
      ensures Valid()
      ensures store.questionsData == old(store.questionsData) && store.userData == old(store.userData)
      ensures reviewQuestions == DueQuestions(store.questionsData, store.userData.progress, Modules, now, AtLastSeparator)
      ensures reviewQuestions == [] ==>
                currentQuestions == old(currentQuestions) && State() == old(State()).(due := reviewQuestions)
      ensures reviewQuestions != [] ==>
                && fresh(currentQuestions)
                && currentQuestions[..] == reviewQuestions
                && State() == Flowed(old(State()).(due := reviewQuestions, review := true, title := ReviewTitle,
                                                   count := |reviewQuestions|))
      ensures isReviewMode && !old(isReviewMode) ==> reviewQuestions != []
      ensures old(Dormant()) ==> Dormant()
    {
      reviewQuestions := store.GetQuestionsForReview(now, AtLastSeparator);
      if Dormant() {
        NoneScheduledNoReview(store.questionsData, store.userData, now, AtLastSeparator);
      }
      if reviewQuestions != [] {
        StartReview();
      }
    }

    /** The end of startSpacedRepetition once questions are due: a review
        session on them, in the order they were found. */
    method StartReview()
      requires (rated ==> shown) && (shown ==> answered)
      modifies this
      ensures Counted() && fresh(currentQuestions)
      ensures currentQuestions[..] == reviewQuestions
      ensures State() == Flowed(old(State()).(review := true, title := ReviewTitle, count := |reviewQuestions|))
    {
      isReviewMode := true;
      currentModule := ReviewTitle;
      var list := reviewQuestions;
      currentQuestions := new Question[|list|](k requires 0 <= k < |list| => list[k]);
      assert currentQuestions[..] == list;
      StartQuizFlow([]);
    }

    /** selectOption(index) at time now: ignored once an option is marked,
        and otherwise an answer to the current question. */
    method SelectOption(index: int, now: int)
      requires Valid() && screen == QuizScreen
      modifies this, store
      ensures Valid() && currentQuestions == old(currentQuestions)
      ensures store.questionsData == old(store.questionsData)
      ensures old(answered) ==> State() == old(State()) && store.userData == old(store.userData)
      ensures !old(answered) ==>
                var q := old(currentQuestions[currentQuestionIndex]);
                var isCorrect := index == q.correctIndex;
                && State() == old(State()).(answered := true, shown := isCorrect || Highlightable(q),
                                            correct := old(correctAnswers) + (if isCorrect then 1 else 0),
                                            incorrect := old(incorrectAnswers) + (if isCorrect then 0 else 1))
                && store.userData == (if !isCorrect && !Highlightable(q) then old(store.userData)
                                      else Reported(store.questionsData, old(store.userData), isReviewMode, currentModule,
                                                    q.question, isCorrect, now))
      ensures old(Dormant()) ==> Dormant()
    {
      if !answered {
        Answer(index, now);
      }
    }

    /** The body of selectOption once no option is marked: exactly one
        counter rises, and the outcome goes to the store. A wrong answer to
        a question whose correct option does not exist throws before the
        store hears of it. */
    method Answer(index: int, now: int)
      requires Valid() && screen == QuizScreen && !answered
      modifies this, store
      ensures Valid() && currentQuestions == old(currentQuestions)
      ensures store.questionsData == old(store.questionsData)
      ensures var q := old(currentQuestions[currentQuestionIndex]);
              var isCorrect := index == q.correctIndex;
              && State() == old(State()).(answered := true, shown := isCorrect || Highlightable(q),
                                          correct := old(correctAnswers) + (if isCorrect then 1 else 0),
                                          incorrect := old(incorrectAnswers) + (if isCorrect then 0 else 1))
              && store.userData == (if !isCorrect && !Highlightable(q) then old(store.userData)
                                    else Reported(store.questionsData, old(store.userData), isReviewMode, currentModule,
                                                  q.question, isCorrect, now))
      ensures old(Dormant()) ==> Dormant()
    {
      var question := currentQuestions[currentQuestionIndex];
      var isCorrect := index == question.correctIndex;
      Mark(isCorrect);
      if !isCorrect && !(0 <= question.correctIndex < |question.options|) {
        return;
      }
      shown := true;
      ReportOutcome(question, isCorrect, now);
    }

    /** The option is marked and exactly one counter rises. */
    method Mark(isCorrect: bool)
      requires Counted() && screen == QuizScreen && !answered
      modifies this
      ensures Counted() && currentQuestions == old(currentQuestions)
      ensures State() == old(State()).(answered := true,
                                       correct := old(correctAnswers) + (if isCorrect then 1 else 0),
                                       incorrect := old(incorrectAnswers) + (if isCorrect then 0 else 1))
    {
      answered := true;
      if isCorrect {
        correctAnswers := correctAnswers + 1;
      } else {
        incorrectAnswers := incorrectAnswers + 1;
      }
    }

    /** The end of selectOption: the outcome goes to the store, by module
        outside a review and by search in one. */
    method ReportOutcome(question: Question, isCorrect: bool, now: int)
      requires store.Valid() && (!isReviewMode ==> currentModule in ModuleSet)
      modifies store
      ensures store.Valid() && store.questionsData == old(store.questionsData)
      ensures store.userData == Reported(store.questionsData, old(store.userData), isReviewMode, currentModule,
                                         question.question, isCorrect, now)
      ensures old(Dormant()) ==> Dormant()
    {
      if isReviewMode {
        SavedReviewOutcomeSchedules(store.questionsData, store.userData, question.question, isCorrect, now);
        store.UpdateReviewProgress(question, isCorrect, now);
      } else {
        SavedOutcomeSchedules(store.questionsData, store.userData, currentModule, question.question, isCorrect, now);
        store.UpdateQuestionProgress(currentModule, question, isCorrect, now);
      }
    }

    /** A click on a difficulty button: it is marked and its value kept. The
        buttons can be clicked only while they are shown, which is after an
        answer that did not throw. */
    method SelectDifficulty(difficulty: int)
      requires Valid() && screen == QuizScreen && shown
      modifies this
      ensures Valid() && currentQuestions == old(currentQuestions)
      ensures State() == old(State()).(rated := true, difficulty := difficulty)
    {
      rated := true;
      selectedDifficulty := difficulty;
    }

    /** nextQuestion at time now: refused until an option and a difficulty
        are marked, so never after an answer that threw before showing the
        difficulty buttons; in a review the difficulty goes to the store
        first, and a question without a record throws there. Otherwise the index moves
        on by one and the next question loads. */
    method NextQuestion(now: int) returns (advanced: bool)
      requires Valid() && screen == QuizScreen
      modifies this, store
      ensures Valid() && currentQuestions == old(currentQuestions)
      ensures store.questionsData == old(store.questionsData)
      ensures var q := old(currentQuestions[currentQuestionIndex]);
              var rating := AfterDifficulty(store.questionsData, old(store.userData), q.question, old(selectedDifficulty), now);
              && (advanced <==> old(answered) && old(rated) && (old(isReviewMode) ==> rating.1 != MissingRecord))
              && store.userData == (if old(answered) && old(rated) && old(isReviewMode)
                                    then SavedDifficulty(store.questionsData, old(store.userData), q.question, old(selectedDifficulty), now)
                                    else old(store.userData))
      ensures !advanced ==> State() == old(State())
      ensures advanced ==> old(shown)
      ensures advanced ==> State() == Loaded(old(State()).(index := old(currentQuestionIndex) + 1))
      ensures advanced && screen == Results ==>
                correctAnswers + incorrectAnswers == currentQuestions.Length && score == Score(correctAnswers, incorrectAnswers)
      ensures !old(isReviewMode) ==> store.userData == old(store.userData)
      ensures old(Dormant()) ==> Dormant()
    {
      if !answered || !rated {
        return false;
      }
      if isReviewMode {
        var outcome := RateQuestion(now);
        if outcome == MissingRecord {
          return false;
        }
      }
      Advance();
      return true;
    }

    /** The review step of nextQuestion: the kept difficulty of the current
        question goes to the store. */
    method RateQuestion(now: int) returns (outcome: DifficultyOutcome)
      requires store.Valid() && currentQuestionIndex < currentQuestions.Length
      modifies store
      ensures store.Valid() && store.questionsData == old(store.questionsData)
      ensures var q := currentQuestions[currentQuestionIndex];
              && outcome == AfterDifficulty(store.questionsData, old(store.userData), q.question, selectedDifficulty, now).1
              && store.userData == SavedDifficulty(store.questionsData, old(store.userData), q.question, selectedDifficulty, now)
    {
      outcome := store.UpdateQuestionDifficulty(currentQuestions[currentQuestionIndex], selectedDifficulty, now);
    }

    /** The end of nextQuestion: the index moves on by one and the next
        question loads, or the results show after the last one. */
    method Advance()
      requires Counted() && screen == QuizScreen && answered
      modifies this
      ensures Counted() && currentQuestions == old(currentQuestions)
      ensures State() == Loaded(old(State()).(index := old(currentQuestionIndex) + 1))
      ensures screen == Results ==>
                correctAnswers + incorrectAnswers == currentQuestions.Length && score == Score(correctAnswers, incorrectAnswers)
    {
      currentQuestionIndex := currentQuestionIndex + 1;
      LoadQuestion();
    }

    /** quitQuiz, with the answer of the confirmation dialog given: on yes,
        back to module selection with the counters as they are. */
    method QuitQuiz(confirmed: bool)
      requires Valid()
      modifies this
      ensures Valid() && currentQuestions == old(currentQuestions)
      ensures State() == if confirmed then old(State()).(screen := ModuleSelection) else old(State())
    {
      if confirmed {
        screen := ModuleSelection;
      }
    }
  }

  // ---------------------------------------------------------------------
  // The shared list of startQuiz, the concrete case

  /** A bank whose only questions are q0 and q1, in ATIPICOS. */
  function OnlyAtipicos(q0: Question, q1: Question): map<string, seq<Question>> {
    map m | m in ModuleSet :: if m == "ATIPICOS" then [q0, q1] else []
  }

  /** One due record, under the id of the first ATIPICOS question. */
  function OneDueAtipicos(now: int): map<string, Records> {
    var id := QuestionId("ATIPICOS", 0);
    var due := DefaultProgress.(seen := 1, correct := 1, nextReview := Some(now));
    ClearedUserData.progress["ATIPICOS" := Records([id], map[id := due])]
  }

  lemma OneDueAtipicosShape(now: int)
    ensures var progress := OneDueAtipicos(now);
            var id := QuestionId(Modules[3], 0);
      && (forall m :: m in Modules ==> m in progress)
      && (forall j :: 0 <= j < |Modules| && j != 3 ==> progress[Modules[j]].ids == [])
      && progress[Modules[3]].ids == [id] && progress[Modules[3]].byId.Keys == {id}
      && IsDue(progress[Modules[3]].byId[id], now)
  {
  }

  /** AS WRITTEN: after q0 was answered and became due, a quiz on ATIPICOS
      whose shuffle swaps the two questions reorders the bank, and the
      record of q0 now brings q1 to the review instead. Ids are read as the
      source reads them, with split('_'). */
  lemma SharedShuffleMovesProgress(q0: Question, q1: Question, now: int)
    ensures ValidChoices(2, [0])
    ensures Shuffle([q0, q1], [0]) == [q1, q0]
    ensures DueQuestions(OnlyAtipicos(q0, q1), OneDueAtipicos(now), Modules, now, FirstTwoFields) == [q0]
    ensures DueQuestions(OnlyAtipicos(q0, q1)["ATIPICOS" := [q1, q0]], OneDueAtipicos(now), Modules, now, FirstTwoFields) == [q1]
  {
    assert Swap([q0, q1], 1, 0) == [q1, q0];
    var before := OnlyAtipicos(q0, q1);
    var after := before["ATIPICOS" := [q1, q0]];
    assert "ATIPICOS" in ModuleSet;
    FirstAtipicosDue(before, now);
    FirstAtipicosDue(after, now);
  }

  /** With only that record, the review list is the first ATIPICOS question
      of whatever bank it reads. */
  lemma FirstAtipicosDue(bank: map<string, seq<Question>>, now: int)
    requires "ATIPICOS" in bank && |bank["ATIPICOS"]| > 0
    ensures DueQuestions(bank, OneDueAtipicos(now), Modules, now, FirstTwoFields) == [bank["ATIPICOS"][0]]
  {
    OneDueAtipicosShape(now);
    assert Modules[3] == "ATIPICOS";
    assert '_' !in Modules[3];
    ReadKeyFirstTwoFields(Modules[3], 0);
    OnlyModuleDue(bank, OneDueAtipicos(now), 3, 0, now, FirstTwoFields);
  }
}
