/** The store of js/data.js as a class: the question bank questionsData (one
    list per module) and the user data, with one method per store function
    updating them in place. Each method is
    proved against the function of module Data that says what it does. */
module DataStore {
  import opened Builtins
  import opened Data

  class Store {
    var questionsData: map<string, seq<Question>>
    var userData: UserData

    /** Each of the five declared modules has a question list and a
      progress object. That the progress objects are well formed is kept
      apart, in the WellFormed clauses of the methods. */
    ghost predicate Valid()
      reads this
    {
      && questionsData.Keys == ModuleSet
      && userData.progress.Keys == ModuleSet
    }

    /** The store at page load: every module empty, no user. */
    constructor ()
      ensures Valid()
      ensures questionsData == map m | m in ModuleSet :: []
      ensures userData == ClearedUserData && WellFormed(userData)
    {
      questionsData := map m | m in ModuleSet :: [];
      userData := ClearedUserData;
      new;
      ClearedIsWellFormed();
    }

    /** The one place the user data is replaced; the questionsData stays. */
    method Commit(u: UserData)
      requires Valid() && u.progress.Keys == ModuleSet
      modifies this
      ensures Valid() && questionsData == old(questionsData)
      ensures userData == u
    {
      userData := u;
    }

    /** The then-branch of one fetch in loadAllQuestions: the module's
      question list becomes data and its progress is initialised. */
    method LoadModule(m: string, data: seq<Question>)
      requires Valid() && m in ModuleSet
      modifies this
      ensures Valid()
      ensures questionsData == old(questionsData)[m := data]
      ensures userData == old(userData).(progress := old(userData.progress)[m := InitializeRecords(old(userData.progress[m]), m, |data|)])
      ensures WellFormed(old(userData)) ==> WellFormed(userData)
    {
      questionsData := questionsData[m := data];
      InitializeQuestionProgress(m);
    }

    /** The write of startQuiz and startQuizFlow into module m's list:
      currentQuestions is that very list, so shuffling it in place leaves
      the shuffled order in the questionsData. */
    method SetModuleQuestions(m: string, questions: seq<Question>)
      requires Valid() && m in ModuleSet
      modifies this
      ensures Valid() && userData == old(userData)
      ensures questionsData == old(questionsData)[m := questions]
    {
      questionsData := questionsData[m := questions];
    }

    /** initializeQuestionProgress(m): a default record for every question
      of the module that has none. */
    method InitializeQuestionProgress(m: string)
      requires Valid() && m in ModuleSet
      modifies this
      ensures Valid() && questionsData == old(questionsData)
      ensures userData == old(userData).(progress := old(userData.progress)[m := InitializeRecords(old(userData.progress[m]), m, |questionsData[m]|)])
      ensures WellFormed(old(userData)) ==> WellFormed(userData)
    {
      var a := questionsData[m];
      var recs := userData.progress[m];
      var i := 0;
      while i < |a|
        invariant 0 <= i <= |a|
        invariant recs == InitializeRecords(old(userData.progress[m]), m, i)
      {
        var id := QuestionId(m, i);
        if id !in recs.byId {
          recs := recs.Put(id, DefaultProgress);
        }
        i := i + 1;
      }
      if WellFormed(userData) {
        InitializeWellFormed(userData, m, |a|);
      }
      Commit(userData.(progress := userData.progress[m := recs]));
    }

    /** setUsername(username) at time now. */
    method SetUsername(username: string, now: int)
      requires Valid()
      modifies this
      ensures Valid() && questionsData == old(questionsData)
      ensures userData == Saved(old(userData).(username := username), now)
      ensures WellFormed(old(userData)) ==> WellFormed(userData)
    {
      Commit(Saved(userData.(username := username), now));
    }

    /** getUsername(). */
    method GetUsername() returns (username: string)
      ensures username == userData.username
    {
      username := userData.username;
    }

    /** questions.findIndex(q => q.question === text) on one list. */
    static method FindIndexIn(a: seq<Question>, text: string) returns (index: int)
      ensures index == FindIndex(a, text)
    {
      index := 0;
      while index < |a|
        invariant 0 <= index <= |a|
        invariant forall j :: 0 <= j < index ==> a[j].question != text
      {
        if a[index].question == text {
          FindIndexIs(a, text, index);
          return;
        }
        index := index + 1;
      }
      index := -1;
    }

    /** The module search of updateQuestionDifficulty and
      updateReviewProgress: the first module, in declaration order, whose
      list holds the text, and the index there. */
    method FindModule(text: string) returns (found: Option<(string, nat)>)
      requires Valid()
      ensures found == Locate(questionsData, Modules, text)
    {
      var k := 0;
      while k < |Modules|
        invariant 0 <= k <= |Modules|
        invariant forall j :: 0 <= j < k ==> FindIndex(questionsData[Modules[j]], text) < 0
      {
        var index := FindIndexIn(questionsData[Modules[k]], text);
        if index != -1 {
          LocateFirst(questionsData, Modules, text, k);
          return Some((Modules[k], index));
        }
        k := k + 1;
      }
      found := None;
    }

    /** updateQuestionProgress(m, question, isCorrect) at time now: nothing
      happens, not even a save, when the module does not list the question;
      otherwise the outcome is recorded and the user data saved. */
    method UpdateQuestionProgress(m: string, question: Question, isCorrect: bool, now: int)
      requires Valid() && m in ModuleSet
      modifies this
      ensures Valid() && questionsData == old(questionsData)
      ensures userData == SavedOutcome(questionsData, old(userData), m, question.question, isCorrect, now)
      ensures WellFormed(old(userData)) ==> WellFormed(userData)
    {
      var index := FindIndexIn(questionsData[m], question.question);
      if index == -1 {
        return;
      }
      var id := QuestionId(m, index);
      var recs := userData.progress[m];
      if id !in recs.byId {
        recs := recs.Put(id, DefaultProgress);
      }
      recs := recs.Put(id, RecordOutcome(recs.byId[id], isCorrect, now));
      var updated := userData.(progress := userData.progress[m := recs]);
      assert updated == AfterOutcome(questionsData, userData, m, question.question, isCorrect, now);
      if WellFormed(userData) {
        AfterOutcomeWellFormed(questionsData, userData, m, question.question, isCorrect, now);
      }
      Commit(Saved(updated, now));
    }

    /** updateQuestionDifficulty(question, difficulty) at time now. A
      MissingRecord outcome is the TypeError the source throws; then, as
      when the question is not found, nothing changes and nothing is saved. */
    method UpdateQuestionDifficulty(question: Question, difficulty: int, now: int) returns (outcome: DifficultyOutcome)
      requires Valid()
      modifies this
      ensures Valid() && questionsData == old(questionsData)
      ensures outcome == AfterDifficulty(questionsData, old(userData), question.question, difficulty, now).1
      ensures userData == SavedDifficulty(questionsData, old(userData), question.question, difficulty, now)
      ensures WellFormed(old(userData)) ==> WellFormed(userData)
    {
      var found := FindModule(question.question);
      if found.None? {
        return NotFound;
      }
      var updated;
      updated, outcome := RateAt(questionsData, userData, question.question, found.value.0, found.value.1, difficulty, now);
      if outcome == Scheduled {
        Commit(Saved(updated, now));
      }
    }

    /** The writes of updateQuestionDifficulty once the search has found the
      question at index of module m: the located record, when there is one,
      gets the rating, and calculateNextInterval's ease, interval and next
      review. */
    static method RateAt(bank: map<string, seq<Question>>, ud: UserData, ghost text: string,
                         m: string, index: nat, difficulty: int, now: int)
      returns (updated: UserData, outcome: DifficultyOutcome)
      requires ModuleSet <= bank.Keys && ud.progress.Keys == ModuleSet
      requires Locate(bank, Modules, text) == Some((m, index))
      ensures (updated, outcome) == AfterDifficulty(bank, ud, text, difficulty, now)
      ensures outcome != NotFound
      ensures updated.progress.Keys == ModuleSet
      ensures WellFormed(ud) ==> WellFormed(updated)
    {
      AfterDifficultySpec(bank, ud, text, difficulty, now);
      if WellFormed(ud) {
        AfterDifficultyWellFormed(bank, ud, text, difficulty, now);
      }
      var id := QuestionId(m, index);
      var recs := ud.progress[m];
      if id !in recs.byId {
        return ud, MissingRecord;
      }
      var p := RescheduleRecord(recs.byId[id], difficulty, now);
      updated := ud.(progress := ud.progress[m := recs.Put(id, p)]);
      outcome := Scheduled;
    }

    /** The writes of updateQuestionDifficulty into the located record. */
    static method RescheduleRecord(progress: Progress, difficulty: int, now: int) returns (p: Progress)
      ensures p == Reschedule(progress, difficulty, now)
    {
      p := progress.(difficulty := difficulty);
      var (rated, interval) := CalculateNextInterval(p);
      p := rated.(interval := interval, nextReview := Some(now + interval * 3600000));
    }

    /** updateReviewProgress(question, isCorrect) at time now: the outcome
      is recorded in the first module listing the question, or nowhere. */
    method UpdateReviewProgress(question: Question, isCorrect: bool, now: int)
      requires Valid()
      modifies this
      ensures Valid() && questionsData == old(questionsData)
      ensures userData == SavedReviewOutcome(questionsData, old(userData), question.question, isCorrect, now)
      ensures WellFormed(old(userData)) ==> WellFormed(userData)
    {
      var found := FindModule(question.question);
      if found.None? {
        return;
      }
      UpdateQuestionProgress(found.value.0, question, isCorrect, now);
    }

    /** getQuestionsForReview() at time now, reading ids back as reading
      says: FirstTwoFields is the source as written, AtLastSeparator the
      corrected reading. */
    method GetQuestionsForReview(now: int, reading: KeyReading) returns (reviewQuestions: seq<Question>)
      requires Valid()
      ensures reviewQuestions == DueQuestions(questionsData, userData.progress, Modules, now, reading)
      ensures forall q :: q in reviewQuestions ==> FromDueRecord(questionsData, userData.progress, Modules, q, now, reading)
    {
      reviewQuestions := [];
      var k := 0;
      while k < |Modules|
        invariant 0 <= k <= |Modules|
        invariant reviewQuestions == DueQuestions(questionsData, userData.progress, Modules[..k], now, reading)
      {
        var due := DueInRecords(userData.progress[Modules[k]], now, reading);
        assert Modules[..k + 1][..k] == Modules[..k];
        reviewQuestions := reviewQuestions + due;
        k := k + 1;
      }
      assert Modules[..k] == Modules;
      DueQuestionsSound(questionsData, userData.progress, Modules, now, reading);
    }

    /** The for ... in loop of getQuestionsForReview over one progress
      object, visiting its ids in insertion order. */
    method DueInRecords(recs: Records, now: int, reading: KeyReading) returns (due: seq<Question>)
      requires Valid()
      ensures due == DueIn(questionsData, recs, recs.ids, now, reading)
      ensures forall q :: q in due ==> FromDueId(questionsData, recs, recs.ids, q, now, reading)
    {
      due := [];
      var j := 0;
      while j < |recs.ids|
        invariant 0 <= j <= |recs.ids|
        invariant due == DueIn(questionsData, recs, recs.ids[..j], now, reading)
      {
        var pick := PickIn(recs, recs.ids[j], now, reading);
        due := due + pick;
        assert recs.ids[..j + 1][..j] == recs.ids[..j];
        j := j + 1;
      }
      assert recs.ids[..j] == recs.ids;
      DueInSound(questionsData, recs, recs.ids, now, reading);
    }

    /** The body of that loop for one id: the question pushed, if any. */
    method PickIn(recs: Records, id: string, now: int, reading: KeyReading) returns (pick: seq<Question>)
      requires Valid()
      ensures pick == Pick(questionsData, recs, id, now, reading)
    {
      pick := [];
      if id in recs.byId {
        var progress := recs.byId[id];
        if progress.seen > 0 && progress.nextReview.Some? && progress.nextReview.value <= now {
          var (moduleId, index) := ReadKey(id, reading);
          if moduleId in questionsData && index.Some? && index.value < |questionsData[moduleId]| {
            pick := [questionsData[moduleId][index.value]];
          }
        }
      }
    }

    /** calculateModuleProgress(m). */
    method CalculateModuleProgress(m: string) returns (progress: int)
      requires Valid()
      ensures progress == ModuleProgress(questionsData, userData.progress, m)
    {
      if m !in questionsData || |questionsData[m]| == 0 {
        return 0;
      }
      var questions := questionsData[m];
      var totalCorrect := CountCorrectIn(userData.progress[m], m, |questions|);
      progress := Round((totalCorrect as real / |questions| as real) * 100.0);
    }

    /** The questions.forEach loop of both progress functions: how many of
      the first n questions of module m were answered correctly at least once. */
    static method CountCorrectIn(recs: Records, m: string, n: nat) returns (totalCorrect: nat)
      ensures totalCorrect == CountCorrect(recs, m, n)
    {
      totalCorrect := 0;
      var index := 0;
      while index < n
        invariant 0 <= index <= n
        invariant totalCorrect == CountCorrect(recs, m, index)
      {
        var questionId := QuestionId(m, index);
        if questionId in recs.byId && recs.byId[questionId].correct > 0 {
          totalCorrect := totalCorrect + 1;
        }
        index := index + 1;
      }
    }

    /** calculateOverallProgress(). */
    method CalculateOverallProgress() returns (progress: int)
      requires Valid()
      ensures progress == OverallProgress(questionsData, userData.progress)
    {
      var totalQuestions := 0;
      var totalCorrect := 0;
      var k := 0;
      while k < |Modules|
        invariant 0 <= k <= |Modules|
        invariant totalQuestions == TotalQuestions(questionsData, Modules[..k])
        invariant totalCorrect == TotalCorrect(questionsData, userData.progress, Modules[..k])
      {
        var m := Modules[k];
        var questions := questionsData[m];
        if |questions| > 0 {
          totalQuestions := totalQuestions + |questions|;
          var correct := CountCorrectIn(userData.progress[m], m, |questions|);
          totalCorrect := totalCorrect + correct;
        }
        assert Modules[..k + 1][..k] == Modules[..k];
        k := k + 1;
      }
      assert Modules[..k] == Modules;
      progress := if totalQuestions > 0 then Round((totalCorrect as real / totalQuestions as real) * 100.0) else 0;
    }

    /** The in-memory part of clearUserData: the user data is the empty one
      again; the questionsData stays. */
    method ClearUserData()
      requires Valid()
      modifies this
      ensures Valid() && questionsData == old(questionsData)
      ensures userData == ClearedUserData && WellFormed(userData)
    {
      Commit(ClearedUserData);
      ClearedIsWellFormed();
    }
  }

  /** What saveUserData leaves in memory: the last session is now. */
  function Saved(ud: UserData, now: int): (r: UserData)
    ensures r.username == ud.username && r.progress == ud.progress
    ensures r.lastSession == Some(now)
  {
    ud.(lastSession := Some(now))
  }

  /** The user data after updateQuestionProgress: saved only when the
      module lists the question. */
  function SavedOutcome(bank: map<string, seq<Question>>, ud: UserData, m: string, text: string,
                        isCorrect: bool, now: int): UserData
    requires m in bank && m in ud.progress
  {
    if FindIndex(bank[m], text) < 0 then ud else Saved(AfterOutcome(bank, ud, m, text, isCorrect, now), now)
  }

  /** The user data after updateReviewProgress: saved only when some module
      lists the question. */
  function SavedReviewOutcome(bank: map<string, seq<Question>>, ud: UserData, text: string,
                              isCorrect: bool, now: int): UserData
    requires ModuleSet <= bank.Keys && ModuleSet <= ud.progress.Keys
  {
    if Locate(bank, Modules, text).None? then ud else Saved(AfterReviewOutcome(bank, ud, text, isCorrect, now), now)
  }

  /** The user data after updateQuestionDifficulty: saved only when a record
      was rescheduled. */
  function SavedDifficulty(bank: map<string, seq<Question>>, ud: UserData, text: string,
                           difficulty: int, now: int): UserData
    requires ModuleSet <= bank.Keys && ModuleSet <= ud.progress.Keys
  {
    var (r, outcome) := AfterDifficulty(bank, ud, text, difficulty, now);
    if outcome == Scheduled then Saved(r, now) else ud
  }

  /** None of the updates of an answer sets or clears a schedule, and all
      keep the user data well formed. */
  lemma SavedOutcomeSchedules(bank: map<string, seq<Question>>, ud: UserData, m: string, text: string,
                              isCorrect: bool, now: int)
    requires m in bank && m in ud.progress
    ensures NoneScheduled(ud.progress) <==> NoneScheduled(SavedOutcome(bank, ud, m, text, isCorrect, now).progress)
    ensures WellFormed(ud) ==> WellFormed(SavedOutcome(bank, ud, m, text, isCorrect, now))
  {
    AfterOutcomeSchedules(bank, ud, m, text, isCorrect, now);
    if WellFormed(ud) {
      AfterOutcomeWellFormed(bank, ud, m, text, isCorrect, now);
    }
  }

  lemma SavedReviewOutcomeSchedules(bank: map<string, seq<Question>>, ud: UserData, text: string,
                                    isCorrect: bool, now: int)
    requires ModuleSet <= bank.Keys && ModuleSet <= ud.progress.Keys
    ensures NoneScheduled(ud.progress) <==> NoneScheduled(SavedReviewOutcome(bank, ud, text, isCorrect, now).progress)
    ensures WellFormed(ud) ==> WellFormed(SavedReviewOutcome(bank, ud, text, isCorrect, now))
  {
    AfterReviewOutcomeSpec(bank, ud, text, isCorrect, now);
  }

  /** The index the findIndex loop stops at is the one FindIndex names. */
  lemma FindIndexIs(qs: seq<Question>, text: string, i: nat)
    requires i < |qs| && qs[i].question == text
    requires forall j :: 0 <= j < i ==> qs[j].question != text
    ensures FindIndex(qs, text) == i
  {
  }

  /** The module the search loop stops at is the one Locate names. */
  lemma LocateFirst(questionsData: map<string, seq<Question>>, ms: seq<string>, text: string, k: nat)
    requires forall m :: m in ms ==> m in questionsData
    requires k < |ms| && FindIndex(questionsData[ms[k]], text) >= 0
    requires forall j :: 0 <= j < k ==> FindIndex(questionsData[ms[j]], text) < 0
    ensures Locate(questionsData, ms, text) == Some((ms[k], FindIndex(questionsData[ms[k]], text) as nat))
  {
  }
}
