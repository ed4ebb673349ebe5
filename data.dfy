/** The values behind js/data.js: questions, the per-question progress record,
    the per-module progress object and the user data, with one function per
    store operation saying what that operation does to them, and the lemmas
    that say what those functions mean. The class that holds this state and
    updates it in place is DataStore.Store. */
module Data {
  import opened Builtins

  /** The modules in the order questionsData and userData.progress declare
      them, which is the order every `for ... in` over them visits. */
  const Modules: seq<string> :=
    ["AINES_E_AIES", "Anestesicos_Gerais", "Anestesicos_Locais", "ATIPICOS", "Opioides"]

  const ModuleSet: set<string> :=
    {"AINES_E_AIES", "Anestesicos_Gerais", "Anestesicos_Locais", "ATIPICOS", "Opioides"}

  /** The modules whose names contain the '_' that separates a progress id. */
  const UnderscoreModules: set<string> :=
    {"AINES_E_AIES", "Anestesicos_Gerais", "Anestesicos_Locais"}

  datatype Question = Question(question: string, options: seq<string>, correctIndex: int, explanation: string)

  /** One question's progress. Timestamps are milliseconds; None is null. */
  datatype Progress = Progress(
    seen: nat,
    correct: nat,
    incorrect: nat,
    lastSeen: Option<int>,
    nextReview: Option<int>,
    difficulty: int,
    easeFactor: real,
    interval: int)

  /** The record initializeQuestionProgress and updateQuestionProgress create. */
  const DefaultProgress: Progress := Progress(0, 0, 0, None, None, 3, 2.5, 1)

  /** The ranges every record written by the store stays in: the counters
      add up, the ease factor is at its floor of 1.3 or above, and the
      interval is at least one hour. */
  predicate Sound(p: Progress) {
    && p.correct + p.incorrect == p.seen
    && p.easeFactor >= 1.3
    && p.interval >= 1
  }

  /** One module's progress object: its ids in insertion order (the order a
      `for ... in` over the object visits them) and the record under each. */
  datatype Records = Records(ids: seq<string>, byId: map<string, Progress>) {

    ghost predicate Valid() {
      && (forall id :: id in ids ==> id in byId)
      && (forall id :: id in byId ==> id in ids)
      && (forall i, j :: 0 <= i < j < |ids| ==> ids[i] != ids[j])
    }

    /** Assigning obj[id] = p: an existing id keeps its place in the order
        and a new id goes to the end of it. */
    function Put(id: string, p: Progress): (r: Records)
      ensures r.byId == byId[id := p]
      ensures id in byId ==> r.ids == ids
      ensures id !in byId ==> r.ids == ids + [id]
      ensures Valid() ==> r.Valid()
    {
      if id in byId then Records(ids, byId[id := p]) else Records(ids + [id], byId[id := p])
    }
  }

  const EmptyRecords: Records := Records([], map[])

  datatype UserData = UserData(username: string, progress: map<string, Records>, lastSession: Option<int>)

  /** The user data clearUserData installs. */
  const ClearedUserData: UserData :=
    UserData("", map m | m in ModuleSet :: EmptyRecords, None)

  /** The id `${module}_${index}` of the index-th question of a module. */
  function QuestionId(m: string, i: nat): (r: string)
    ensures |r| >= |m| + 2 && r[..|m|] == m && r[|m|] == '_' && AllDigits(r[|m| + 1..])
  {
    var digits := NatToString(i);
    assert (m + "_" + digits)[|m| + 1..] == digits;
    m + "_" + digits
  }

  ghost predicate IsIdOf(m: string, id: string) {
    exists i: nat :: id == QuestionId(m, i)
  }

  ghost predicate RecordsWellFormed(m: string, recs: Records) {
    && recs.Valid()
    && (forall id :: id in recs.byId ==> IsIdOf(m, id) && Sound(recs.byId[id]))
  }

  /** The user data the store keeps: one progress object per module, each
      holding only ids of its own module's questions and only sound records. */
  ghost predicate WellFormed(ud: UserData) {
    && ud.progress.Keys == ModuleSet
    && (forall m :: m in ud.progress ==> RecordsWellFormed(m, ud.progress[m]))
  }

  /** No record has a next review set. */
  ghost predicate NoneScheduled(progress: map<string, Records>) {
    forall m, id :: m in progress && id in progress[m].byId ==> progress[m].byId[id].nextReview.None?
  }

  lemma ClearedIsWellFormed()
    ensures WellFormed(ClearedUserData) && NoneScheduled(ClearedUserData.progress)
    ensures forall m :: m in ClearedUserData.progress ==> ClearedUserData.progress[m].byId == map[]
  {
  }

  // ---------------------------------------------------------------------
  // Finding a question

  /** questions.findIndex(q => q.question === text). */
  function FindIndex(qs: seq<Question>, text: string): (i: int)
    ensures -1 <= i < |qs|
    ensures i >= 0 ==> qs[i].question == text && forall j :: 0 <= j < i ==> qs[j].question != text
    ensures i < 0 ==> forall j :: 0 <= j < |qs| ==> qs[j].question != text
  {
    if qs == [] then -1
    else if qs[0].question == text then 0
    else
      var j := FindIndex(qs[1..], text);
      if j < 0 then -1 else j + 1
  }

  /** The first module, in the order of ms, whose questions contain text,
      with the first index there: the search of updateQuestionDifficulty and
      updateReviewProgress. */
  function Locate(bank: map<string, seq<Question>>, ms: seq<string>, text: string): (r: Option<(string, nat)>)
    requires forall m :: m in ms ==> m in bank
    ensures r.None? <==> forall k :: 0 <= k < |ms| ==> FindIndex(bank[ms[k]], text) < 0
    ensures r.Some? ==> exists k :: 0 <= k < |ms| && ms[k] == r.value.0
                                     && forall j :: 0 <= j < k ==> FindIndex(bank[ms[j]], text) < 0
    ensures r.Some? ==> r.value.0 in ms && r.value.1 == FindIndex(bank[r.value.0], text)
  {
    var k := FirstHit(bank, ms, text, 0);
    if k == |ms| then None else Some((ms[k], FindIndex(bank[ms[k]], text) as nat))
  }

  /** The position, from start on, of the first module of ms whose
      questions contain text; |ms| when none does. */
  function FirstHit(bank: map<string, seq<Question>>, ms: seq<string>, text: string, start: nat): (k: nat)
    requires start <= |ms| && forall m :: m in ms ==> m in bank
    ensures start <= k <= |ms|
    ensures forall j :: start <= j < k ==> FindIndex(bank[ms[j]], text) < 0
    ensures k < |ms| ==> FindIndex(bank[ms[k]], text) >= 0
    decreases |ms| - start
  {
    if start == |ms| then start
    else if FindIndex(bank[ms[start]], text) >= 0 then start
    else FirstHit(bank, ms, text, start + 1)
  }

  /** Storing a sound record under an id of the module keeps its progress
      object well formed. */
  lemma PutWellFormed(m: string, recs: Records, id: string, p: Progress)
    requires RecordsWellFormed(m, recs) && IsIdOf(m, id) && Sound(p)
    ensures RecordsWellFormed(m, recs.Put(id, p))
  {
  }

  /** Replacing one module's progress object by a well formed one keeps the
      user data well formed. */
  lemma UpdateWellFormed(ud: UserData, m: string, recs: Records)
    requires WellFormed(ud) && m in ud.progress && RecordsWellFormed(m, recs)
    ensures WellFormed(ud.(progress := ud.progress[m := recs]))
  {
  }

  // ---------------------------------------------------------------------
  // initializeQuestionProgress

  /** The progress object after initializeQuestionProgress has visited the
      first n questions of module m. */
  function InitializeRecords(recs: Records, m: string, n: nat): (r: Records)
    ensures recs.byId.Keys <= r.byId.Keys
    ensures forall id :: id in recs.byId ==> r.byId[id] == recs.byId[id]
  {
    if n == 0 then recs
    else
      var r := InitializeRecords(recs, m, n - 1);
      var id := QuestionId(m, n - 1);
      if id in r.byId then r else r.Put(id, DefaultProgress)
  }

  ghost predicate IdBelow(m: string, id: string, n: nat) {
    exists i: nat :: i < n && id == QuestionId(m, i)
  }

  /** After initialisation every question index has a record, records that
      existed are untouched, and new records are the defaults and belong to
      an index below n. */
  lemma {:induction false} InitializeRecordsSpec(recs: Records, m: string, n: nat)
    ensures var r := InitializeRecords(recs, m, n);
      && (forall i: nat :: i < n ==> QuestionId(m, i) in r.byId)
      && (forall id :: id in recs.byId ==> id in r.byId && r.byId[id] == recs.byId[id])
      && (forall id :: id in r.byId && id !in recs.byId ==> r.byId[id] == DefaultProgress && IdBelow(m, id, n))
  {
    if n > 0 {
      InitializeRecordsSpec(recs, m, n - 1);
      var prev := InitializeRecords(recs, m, n - 1).byId;
      var id := QuestionId(m, n - 1);
      var r := InitializeRecords(recs, m, n).byId;
      assert r == if id in prev then prev else prev[id := DefaultProgress];
      forall i: nat | i < n
        ensures QuestionId(m, i) in r
      {
        if i < n - 1 {
          assert QuestionId(m, i) in prev;
        }
      }
      forall x | x in r && x !in recs.byId
        ensures r[x] == DefaultProgress && IdBelow(m, x, n)
      {
        if x == id {
          assert x == QuestionId(m, n - 1);
        } else {
          assert IdBelow(m, x, n - 1);
          var i: nat :| i < n - 1 && x == QuestionId(m, i);
          assert i < n;
        }
      }
    }
  }

  /** Initialisation keeps a progress object well formed and adds no
      schedule. */
  lemma InitializeRecordsWellFormed(recs: Records, m: string, n: nat)
    ensures RecordsWellFormed(m, recs) ==> RecordsWellFormed(m, InitializeRecords(recs, m, n))
    ensures NoneScheduledIn(recs) ==> NoneScheduledIn(InitializeRecords(recs, m, n))
  {
    InitializeRecordsValid(recs, m, n);
    if RecordsWellFormed(m, recs) {
      InitializeRecordsSound(recs, m, n);
    }
    if NoneScheduledIn(recs) {
      InitializeRecordsUnscheduled(recs, m, n);
    }
  }

  lemma InitializeRecordsSound(recs: Records, m: string, n: nat)
    requires RecordsWellFormed(m, recs)
    ensures forall id :: id in InitializeRecords(recs, m, n).byId ==>
              IsIdOf(m, id) && Sound(InitializeRecords(recs, m, n).byId[id])
  {
    InitializeRecordsSpec(recs, m, n);
    var r := InitializeRecords(recs, m, n);
    forall id | id in r.byId
      ensures IsIdOf(m, id) && Sound(r.byId[id])
    {
      if id in recs.byId {
        assert r.byId[id] == recs.byId[id];
      } else {
        assert r.byId[id] == DefaultProgress;
        BelowIsId(m, id, n);
      }
    }
  }

  lemma BelowIsId(m: string, id: string, n: nat)
    requires IdBelow(m, id, n)
    ensures IsIdOf(m, id)
  {
    var i: nat :| i < n && id == QuestionId(m, i);
  }

  lemma InitializeRecordsUnscheduled(recs: Records, m: string, n: nat)
    requires NoneScheduledIn(recs)
    ensures NoneScheduledIn(InitializeRecords(recs, m, n))
  {
    InitializeRecordsSpec(recs, m, n);
  }

  /** initializeQuestionProgress keeps the user data well formed. */
  lemma InitializeWellFormed(ud: UserData, m: string, n: nat)
    requires WellFormed(ud) && m in ud.progress
    ensures WellFormed(ud.(progress := ud.progress[m := InitializeRecords(ud.progress[m], m, n)]))
  {
    InitializeRecordsWellFormed(ud.progress[m], m, n);
    UpdateWellFormed(ud, m, InitializeRecords(ud.progress[m], m, n));
  }

  lemma {:induction false} InitializeRecordsValid(recs: Records, m: string, n: nat)
    ensures recs.Valid() ==> InitializeRecords(recs, m, n).Valid()
  {
    if n > 0 {
      InitializeRecordsValid(recs, m, n - 1);
    }
  }

  ghost predicate NoneScheduledIn(recs: Records) {
    forall id :: id in recs.byId ==> recs.byId[id].nextReview.None?
  }

  // ---------------------------------------------------------------------
  // updateQuestionProgress

  /** The counter and timestamp update of updateQuestionProgress: one more
      presentation, exactly one of correct and incorrect one higher, the
      last presentation at now, and the scheduling fields untouched. */
  function RecordOutcome(p: Progress, isCorrect: bool, now: int): (r: Progress)
    ensures r.seen == p.seen + 1
    ensures r.correct + r.incorrect == p.correct + p.incorrect + 1
    ensures r.correct >= p.correct && r.incorrect >= p.incorrect
    ensures r.correct > p.correct <==> isCorrect
    ensures r.lastSeen == Some(now)
    ensures r.nextReview == p.nextReview && r.difficulty == p.difficulty && r.easeFactor == p.easeFactor && r.interval == p.interval
    ensures Sound(p) ==> Sound(r)
  {
    var counted := p.(seen := p.seen + 1);
    var scored :=
      if isCorrect then counted.(correct := counted.correct + 1)
      else counted.(incorrect := counted.incorrect + 1);
    scored.(lastSeen := Some(now))
  }

  /** The user data after updateQuestionProgress(m, question, isCorrect) at
      time now, where text is question.question. */
  function AfterOutcome(bank: map<string, seq<Question>>, ud: UserData, m: string, text: string,
                        isCorrect: bool, now: int): (r: UserData)
    requires m in bank && m in ud.progress
    ensures FindIndex(bank[m], text) < 0 ==> r == ud
    ensures r.username == ud.username && r.lastSession == ud.lastSession && r.progress.Keys == ud.progress.Keys
    ensures forall m' :: m' in ud.progress && m' != m ==> r.progress[m'] == ud.progress[m']
  {
    var index := FindIndex(bank[m], text);
    if index < 0 then ud
    else
      ud.(progress := ud.progress[m := OutcomeRecords(ud.progress[m], QuestionId(m, index), isCorrect, now)])
  }

  /** A module's progress object after updateQuestionProgress recorded an
      outcome under id: a missing record is first created with the defaults,
      then counted; its place in the order is where it was or, when new, the
      end. */
  function OutcomeRecords(recs: Records, id: string, isCorrect: bool, now: int): (r: Records)
    ensures r.byId == recs.byId[id := RecordOutcome(if id in recs.byId then recs.byId[id] else DefaultProgress, isCorrect, now)]
    ensures recs.Valid() ==> r.Valid()
  {
    var created := if id in recs.byId then recs else recs.Put(id, DefaultProgress);
    created.Put(id, RecordOutcome(created.byId[id], isCorrect, now))
  }

  /** Recording an outcome for an id of the module keeps its progress object
      well formed. */
  lemma OutcomeRecordsWellFormed(m: string, recs: Records, id: string, isCorrect: bool, now: int)
    requires RecordsWellFormed(m, recs) && IsIdOf(m, id)
    ensures RecordsWellFormed(m, OutcomeRecords(recs, id, isCorrect, now))
  {
    var created := if id in recs.byId then recs else recs.Put(id, DefaultProgress);
    if id !in recs.byId {
      PutWellFormed(m, recs, id, DefaultProgress);
    }
    var p := created.byId[id];
    assert Sound(p);
    PutWellFormed(m, created, id, RecordOutcome(p, isCorrect, now));
    assert OutcomeRecords(recs, id, isCorrect, now) == created.Put(id, RecordOutcome(p, isCorrect, now));
  }

  /** What updateQuestionProgress does: nothing when the text is not among
      the module's questions; otherwise the record of the first question with
      that text (the defaults if it had none) gets one more presentation, and
      every other record, module, the username and the last session stay. */
  lemma AfterOutcomeSpec(bank: map<string, seq<Question>>, ud: UserData, m: string, text: string,
                         isCorrect: bool, now: int)
    requires m in bank && m in ud.progress
    ensures var r := AfterOutcome(bank, ud, m, text, isCorrect, now);
            var index := FindIndex(bank[m], text);
      && (index < 0 ==> r == ud)
      && (index >= 0 ==>
            var id := QuestionId(m, index);
            var before := if id in ud.progress[m].byId then ud.progress[m].byId[id] else DefaultProgress;
            && r.username == ud.username && r.lastSession == ud.lastSession
            && r.progress.Keys == ud.progress.Keys
            && (forall m' :: m' in ud.progress && m' != m ==> r.progress[m'] == ud.progress[m'])
            && r.progress[m].byId == ud.progress[m].byId[id := RecordOutcome(before, isCorrect, now)])
  {
    var index := FindIndex(bank[m], text);
    if index >= 0 {
      var updated := OutcomeRecords(ud.progress[m], QuestionId(m, index), isCorrect, now);
      assert AfterOutcome(bank, ud, m, text, isCorrect, now) == ud.(progress := ud.progress[m := updated]);
    }
  }

  /** updateQuestionProgress keeps the user data well formed. */
  lemma AfterOutcomeWellFormed(bank: map<string, seq<Question>>, ud: UserData, m: string, text: string,
                               isCorrect: bool, now: int)
    requires m in bank && m in ud.progress && WellFormed(ud)
    ensures WellFormed(AfterOutcome(bank, ud, m, text, isCorrect, now))
  {
    var index := FindIndex(bank[m], text);
    if index >= 0 {
      var id := QuestionId(m, index);
      assert IsIdOf(m, id);
      assert RecordsWellFormed(m, ud.progress[m]);
      var updated := OutcomeRecords(ud.progress[m], id, isCorrect, now);
      OutcomeRecordsWellFormed(m, ud.progress[m], id, isCorrect, now);
      UpdateWellFormed(ud, m, updated);
      assert AfterOutcome(bank, ud, m, text, isCorrect, now) == ud.(progress := ud.progress[m := updated]);
    }
  }

  /** updateQuestionProgress sets no schedule and clears none. */
  lemma AfterOutcomeSchedules(bank: map<string, seq<Question>>, ud: UserData, m: string, text: string,
                              isCorrect: bool, now: int)
    requires m in bank && m in ud.progress
    ensures NoneScheduled(ud.progress) <==> NoneScheduled(AfterOutcome(bank, ud, m, text, isCorrect, now).progress)
  {
    var index := FindIndex(bank[m], text);
    if index >= 0 {
      var id := QuestionId(m, index);
      var recs := ud.progress[m];
      var created := if id in recs.byId then recs else recs.Put(id, DefaultProgress);
      PutKeepsSchedules(recs, id, created.byId[id]);
      var updated := OutcomeRecords(recs, id, isCorrect, now);
      assert updated == created.Put(id, RecordOutcome(created.byId[id], isCorrect, now));
      PutKeepsSchedules(created, id, RecordOutcome(created.byId[id], isCorrect, now));
      ReplaceKeepsSchedules(ud.progress, m, updated);
      assert AfterOutcome(bank, ud, m, text, isCorrect, now).progress == ud.progress[m := updated];
    }
  }

  /** Storing a record whose next review is that of the record it replaces,
      or none when there was none, sets no schedule and clears none. */
  lemma PutKeepsSchedules(recs: Records, id: string, p: Progress)
    requires p.nextReview == if id in recs.byId then recs.byId[id].nextReview else None
    ensures NoneScheduledIn(recs) <==> NoneScheduledIn(recs.Put(id, p))
  {
    var r := recs.Put(id, p);
    if NoneScheduledIn(r) {
      forall x | x in recs.byId
        ensures recs.byId[x].nextReview.None?
      {
        assert x in r.byId;
      }
    }
  }

  /** Replacing one module's progress object by one with as few schedules
      changes whether any record has one. */
  lemma ReplaceKeepsSchedules(progress: map<string, Records>, m: string, recs: Records)
    requires m in progress && (NoneScheduledIn(progress[m]) <==> NoneScheduledIn(recs))
    ensures NoneScheduled(progress) <==> NoneScheduled(progress[m := recs])
  {
    var r := progress[m := recs];
    if NoneScheduled(progress) {
      assert NoneScheduledIn(progress[m]);
      forall m', x | m' in r && x in r[m'].byId
        ensures r[m'].byId[x].nextReview.None?
      {
        if m' != m {
          assert x in progress[m'].byId;
        }
      }
    }
    if NoneScheduled(r) {
      assert NoneScheduledIn(r[m]);
      forall m', x | m' in progress && x in progress[m'].byId
        ensures progress[m'].byId[x].nextReview.None?
      {
        if m' != m {
          assert x in r[m'].byId;
        }
      }
    }
  }

  // ---------------------------------------------------------------------
  // calculateNextInterval and updateQuestionDifficulty

  /** Math.max(1.3, ease + (0.1 - (5 - d) * (0.08 + (5 - d) * 0.02))): the
      ease update of calculateNextInterval, which feeds the difficulty in
      directly. */
  function AdjustedEase(ease: real, difficulty: int): (e: real)
    ensures e >= 1.3
    ensures e >= ease + (0.1 - (5 - difficulty) as real * (0.08 + (5 - difficulty) as real * 0.02))
  {
    var newEase := ease + (0.1 - (5 - difficulty) as real * (0.08 + (5 - difficulty) as real * 0.02));
    if 1.3 >= newEase then 1.3 else newEase
  }

  /** calculateNextInterval(p): the record with its ease factor rewritten
      (the write into the argument) and the new interval in hours. */
  function CalculateNextInterval(p: Progress): (r: (Progress, int))
    ensures r.0 == p.(easeFactor := r.0.easeFactor)
    ensures r.0.easeFactor >= 1.3
    ensures p.seen <= 1 ==> r.1 == 1
    ensures p.seen == 2 ==> r.1 == 6
    ensures p.seen >= 3 ==> r.1 == Round(p.interval as real * r.0.easeFactor)
    ensures Sound(p) ==> r.1 >= 1 && (p.seen >= 3 ==> r.1 >= p.interval)
  {
    var ease := AdjustedEase(p.easeFactor, p.difficulty);
    var interval := if p.seen <= 1 then 1 else if p.seen == 2 then 6 else Round(p.interval as real * ease);
    GrowthAtLeastInterval(p.interval, ease);
    (p.(easeFactor := ease), interval)
  }

  /** An interval of at least one hour multiplied by an ease of at least
      1.3 and rounded does not shrink. */
  lemma GrowthAtLeastInterval(interval: int, ease: real)
    requires ease >= 1.3
    ensures interval >= 1 ==> Round(interval as real * ease) >= interval
  {
    if interval >= 1 {
      assert interval as real * ease >= interval as real * 1.3;
    }
  }

  /** calculateNextInterval puts no ceiling on the interval: a record seen
      three times with a 720-hour interval grows past 720 hours. */
  lemma NoIntervalCeiling()
    ensures var p := DefaultProgress.(seen := 3, correct := 3, interval := 720);
            CalculateNextInterval(p).1 > 720
  {
    var p := DefaultProgress.(seen := 3, correct := 3, interval := 720);
    assert AdjustedEase(p.easeFactor, p.difficulty) == 2.36;
  }

  /** What updateQuestionDifficulty reports. MissingRecord is the TypeError
      the source throws when the located question has no record. */
  datatype DifficultyOutcome = Scheduled | NotFound | MissingRecord

  /** The record updateQuestionDifficulty writes back: the new difficulty,
      the ease and interval of calculateNextInterval, and the next review
      that many hours after now. */
  function Reschedule(p: Progress, difficulty: int, now: int): (r: Progress)
    ensures r.difficulty == difficulty && r.nextReview.Some?
    ensures r.seen == p.seen && r.correct == p.correct && r.incorrect == p.incorrect && r.lastSeen == p.lastSeen
  {
    var rated := p.(difficulty := difficulty);
    var next := CalculateNextInterval(rated);
    next.0.(interval := next.1, nextReview := Some(now + next.1 * 3600000))
  }

  /** The user data after updateQuestionDifficulty(question, difficulty) at
      time now, where text is question.question, and the outcome. */
  function AfterDifficulty(bank: map<string, seq<Question>>, ud: UserData, text: string,
                           difficulty: int, now: int): (r: (UserData, DifficultyOutcome))
    requires ModuleSet <= bank.Keys && ModuleSet <= ud.progress.Keys
    ensures r.1 == NotFound <==> Locate(bank, Modules, text).None?
    ensures r.1 != Scheduled ==> r.0 == ud
    ensures r.0.username == ud.username && r.0.lastSession == ud.lastSession && r.0.progress.Keys == ud.progress.Keys
  {
    match Locate(bank, Modules, text)
    case None => (ud, NotFound)
    case Some(found) =>
      var (m, index) := found;
      var id := QuestionId(m, index);
      if id !in ud.progress[m].byId then (ud, MissingRecord)
      else
        var recs := ud.progress[m];
        (ud.(progress := ud.progress[m := recs.Put(id, Reschedule(recs.byId[id], difficulty, now))]), Scheduled)
  }

  /** What updateQuestionDifficulty does to one record: the difficulty is the
      rating, the ease is rewritten by calculateNextInterval and stays at 1.3
      or above, the next review lies a whole positive number of hours (the new
      interval) after now, and the counters and last presentation stay. */
  lemma RescheduleSpec(p: Progress, difficulty: int, now: int)
    ensures var r := Reschedule(p, difficulty, now);
      && r.difficulty == difficulty
      && r.easeFactor == AdjustedEase(p.easeFactor, difficulty)
      && r.interval == CalculateNextInterval(p.(difficulty := difficulty)).1
      && r.nextReview == Some(now + r.interval * 3600000)
      && r.seen == p.seen && r.correct == p.correct && r.incorrect == p.incorrect && r.lastSeen == p.lastSeen
      && (Sound(p) ==> Sound(r) && r.nextReview.value > now)
  {
  }

  /** What updateQuestionDifficulty does to the user data: nothing when no
      module holds the text (NotFound) or the located record is missing
      (MissingRecord); otherwise only the record of the first occurrence, in
      module order, is replaced, by its rescheduled version. */
  lemma AfterDifficultySpec(bank: map<string, seq<Question>>, ud: UserData, text: string,
                            difficulty: int, now: int)
    requires ModuleSet <= bank.Keys && ModuleSet <= ud.progress.Keys
    ensures var (r, outcome) := AfterDifficulty(bank, ud, text, difficulty, now);
            var found := Locate(bank, Modules, text);
      && (outcome == NotFound <==> found.None?)
      && (outcome != Scheduled ==> r == ud)
      && (outcome == Scheduled ==>
            var (m, index) := found.value;
            var id := QuestionId(m, index);
            var recs := ud.progress[m];
            && id in recs.byId
            && r == ud.(progress := ud.progress[m := recs.Put(id, Reschedule(recs.byId[id], difficulty, now))]))
  {
  }

  /** A rating that is stored leaves a next review set. */
  lemma AfterDifficultySchedules(bank: map<string, seq<Question>>, ud: UserData, text: string,
                                 difficulty: int, now: int)
    requires ModuleSet <= bank.Keys && ModuleSet <= ud.progress.Keys
    ensures var (r, outcome) := AfterDifficulty(bank, ud, text, difficulty, now);
      outcome == Scheduled ==> !NoneScheduled(r.progress)
  {
    var (r, outcome) := AfterDifficulty(bank, ud, text, difficulty, now);
    if outcome == Scheduled {
      var (m, index) := Locate(bank, Modules, text).value;
      var id := QuestionId(m, index);
      assert r.progress[m].byId[id].nextReview.Some?;
    }
  }

  /** updateQuestionDifficulty keeps the user data well formed. */
  lemma AfterDifficultyWellFormed(bank: map<string, seq<Question>>, ud: UserData, text: string,
                                  difficulty: int, now: int)
    requires ModuleSet <= bank.Keys && WellFormed(ud)
    ensures WellFormed(AfterDifficulty(bank, ud, text, difficulty, now).0)
  {
    var (r, outcome) := AfterDifficulty(bank, ud, text, difficulty, now);
    if outcome == Scheduled {
      var (m, index) := Locate(bank, Modules, text).value;
      var id := QuestionId(m, index);
      assert IsIdOf(m, id);
      var recs := ud.progress[m];
      assert RecordsWellFormed(m, recs);
      var p := Reschedule(recs.byId[id], difficulty, now);
      RescheduleSpec(recs.byId[id], difficulty, now);
      PutWellFormed(m, recs, id, p);
      UpdateWellFormed(ud, m, recs.Put(id, p));
    }
  }

  /** The user data after updateReviewProgress(question, isCorrect): the
      outcome is recorded in the first module, in module order, holding the
      text, or nowhere. */
  function AfterReviewOutcome(bank: map<string, seq<Question>>, ud: UserData, text: string,
                              isCorrect: bool, now: int): (r: UserData)
    requires ModuleSet <= bank.Keys && ModuleSet <= ud.progress.Keys
    ensures Locate(bank, Modules, text).None? ==> r == ud
    ensures r.username == ud.username && r.lastSession == ud.lastSession && r.progress.Keys == ud.progress.Keys
  {
    match Locate(bank, Modules, text)
    case None => ud
    case Some(found) => AfterOutcome(bank, ud, found.0, text, isCorrect, now)
  }

  /** updateReviewProgress changes nothing when no module holds the text,
      and otherwise records the outcome in the first module holding it,
      keeping the user data well formed and the schedules as they were. */
  lemma AfterReviewOutcomeSpec(bank: map<string, seq<Question>>, ud: UserData, text: string,
                               isCorrect: bool, now: int)
    requires ModuleSet <= bank.Keys && ModuleSet <= ud.progress.Keys
    ensures var r := AfterReviewOutcome(bank, ud, text, isCorrect, now);
      && (Locate(bank, Modules, text).None? ==> r == ud)
      && (Locate(bank, Modules, text).Some? ==>
            r == AfterOutcome(bank, ud, Locate(bank, Modules, text).value.0, text, isCorrect, now))
      && (WellFormed(ud) ==> WellFormed(r))
      && (NoneScheduled(ud.progress) <==> NoneScheduled(r.progress))
  {
    match Locate(bank, Modules, text)
    case None =>
    case Some(found) =>
      AfterOutcomeSchedules(bank, ud, found.0, text, isCorrect, now);
      if WellFormed(ud) {
        AfterOutcomeWellFormed(bank, ud, found.0, text, isCorrect, now);
      }
  }

  // ---------------------------------------------------------------------
  // getQuestionsForReview

  predicate IsDue(p: Progress, now: int) {
    p.seen > 0 && p.nextReview.Some? && p.nextReview.value <= now
  }

  /** How a progress id is read back into a module name and an index. */
  datatype KeyReading =
    | FirstTwoFields   // const [moduleId, indexStr] = questionId.split('_'), as the source does
    | AtLastSeparator  // the module name is everything before the last '_'

  /** As the source reads it, the module part never holds a '_'; read at
      the last '_', it is the whole id before that '_'. */
  function ReadKey(id: string, reading: KeyReading): (r: (string, Option<nat>))
    ensures reading == FirstTwoFields ==> '_' !in r.0
    ensures reading == AtLastSeparator && '_' in id ==> |r.0| < |id| && id[|r.0|] == '_' && r.0 == id[..|r.0|]
  {
    match reading
    case FirstTwoFields =>
      var parts := Split(id, '_');
      // parseInt(undefined) reads the string "undefined" and gives NaN
      (parts[0], ParseInt(if |parts| > 1 then parts[1] else "undefined"))
    case AtLastSeparator =>
      var k := LastIndexOf(id, '_');
      if k < 0 then (id, None) else (id[..k], ParseInt(id[k + 1..]))
  }

  /** The question pushed for one progress id, if any; an id without a
      record, which a `for ... in` never visits, gives none. */
  function Pick(bank: map<string, seq<Question>>, recs: Records, id: string, now: int,
                reading: KeyReading): (r: seq<Question>)
    ensures |r| <= 1
    ensures r != [] ==> id in recs.byId && IsDue(recs.byId[id], now) && InBank(bank, r[0])
  {
    if id !in recs.byId || !IsDue(recs.byId[id], now) then []
    else
      var (moduleId, index) := ReadKey(id, reading);
      if moduleId in bank && index.Some? && index.value < |bank[moduleId]|
      then
        assert bank[moduleId][index.value] in bank[moduleId];
        [bank[moduleId][index.value]]
      else []
  }

  /** q is one of the questions of some module of the bank. */
  ghost predicate InBank(bank: map<string, seq<Question>>, q: Question) {
    exists m :: m in bank && q in bank[m]
  }

  /** The questions pushed while visiting ids, in order. */
  function DueIn(bank: map<string, seq<Question>>, recs: Records, ids: seq<string>, now: int,
                 reading: KeyReading): (r: seq<Question>)
    ensures |r| <= |ids|
    ensures forall q :: q in r ==> InBank(bank, q)
  {
    if ids == [] then []
    else DueIn(bank, recs, ids[..|ids| - 1], now, reading) + Pick(bank, recs, ids[|ids| - 1], now, reading)
  }

  /** The questions pushed while visiting the modules ms, in order. */
  function DueQuestions(bank: map<string, seq<Question>>, progress: map<string, Records>,
                        ms: seq<string>, now: int, reading: KeyReading): (r: seq<Question>)
    requires forall m :: m in ms ==> m in progress
    ensures forall q :: q in r ==> InBank(bank, q)
  {
    if ms == [] then []
    else
      var m := ms[|ms| - 1];
      assert m in ms;
      DueQuestions(bank, progress, ms[..|ms| - 1], now, reading) + ModuleDue(bank, progress, m, now, reading)
  }

  /** The questions pushed while visiting one module's progress object. */
  function ModuleDue(bank: map<string, seq<Question>>, progress: map<string, Records>, m: string,
                     now: int, reading: KeyReading): seq<Question>
    requires m in progress
  {
    DueIn(bank, progress[m], progress[m].ids, now, reading)
  }

  /** The review list over the declared modules, module by module. */
  lemma DueQuestionsOverModules(bank: map<string, seq<Question>>, progress: map<string, Records>,
                                now: int, reading: KeyReading)
    requires forall m :: m in Modules ==> m in progress
    ensures DueQuestions(bank, progress, Modules, now, reading)
         == ModuleDue(bank, progress, Modules[0], now, reading)
          + ModuleDue(bank, progress, Modules[1], now, reading)
          + ModuleDue(bank, progress, Modules[2], now, reading)
          + ModuleDue(bank, progress, Modules[3], now, reading)
          + ModuleDue(bank, progress, Modules[4], now, reading)
  {
    var ms := Modules;
    assert ms[..0] == [];
    assert ms[..1][..0] == ms[..0];
    assert ms[..2][..1] == ms[..1];
    assert ms[..3][..2] == ms[..2];
    assert ms[..4][..3] == ms[..3];
    assert ms[..|ms| - 1] == ms[..4];
    var d0 := ModuleDue(bank, progress, ms[0], now, reading);
    var d1 := ModuleDue(bank, progress, ms[1], now, reading);
    var d2 := ModuleDue(bank, progress, ms[2], now, reading);
    var d3 := ModuleDue(bank, progress, ms[3], now, reading);
    assert DueQuestions(bank, progress, ms[..1], now, reading) == d0;
    assert DueQuestions(bank, progress, ms[..2], now, reading) == d0 + d1;
    assert DueQuestions(bank, progress, ms[..3], now, reading) == d0 + d1 + d2;
    assert DueQuestions(bank, progress, ms[..4], now, reading) == d0 + d1 + d2 + d3;
  }

  /** As the source reads ids, one whose module name has no '_' gives back
      its module and index. */
  lemma ReadKeyFirstTwoFields(m: string, i: nat)
    requires '_' !in m
    ensures ReadKey(QuestionId(m, i), FirstTwoFields) == (m, Some(i))
  {
    NoSeparatorInNumber(i);
    SplitAround(m, '_', NatToString(i));
    ParseIntOfNatToString(i);
  }

  /** As the source reads ids, one whose module name has a '_' gives back
      only the part of the name before that '_'. */
  lemma ReadKeyFirstTwoFieldsCut(m: string, i: nat)
    requires '_' in m
    ensures ReadKey(QuestionId(m, i), FirstTwoFields).0 == m[..IndexOf(m, '_')]
  {
    assert QuestionId(m, i) == m + ("_" + NatToString(i));
    SplitFirstInside(m, '_', "_" + NatToString(i));
  }

  /** Read at its last '_', every id gives back its module and index. */
  lemma ReadKeyAtLastSeparator(m: string, i: nat)
    ensures ReadKey(QuestionId(m, i), AtLastSeparator) == (m, Some(i))
  {
    NoSeparatorInNumber(i);
    LastIndexOfAround(m, '_', NatToString(i));
    var id := QuestionId(m, i);
    assert id[..|m|] == m;
    assert id[|m| + 1..] == NatToString(i);
    ParseIntOfNatToString(i);
  }

  lemma NoSeparatorInNumber(i: nat)
    ensures '_' !in NatToString(i)
  {
  }

  /** The first field, as the source splits it, of every id of an
      underscore-named module is not a module name. */
  lemma UnderscoreModuleKeysMiss(m: string, i: nat)
    requires m in UnderscoreModules
    ensures ReadKey(QuestionId(m, i), FirstTwoFields).0 !in ModuleSet
  {
    CutBeforeUnderscoreModule(m);
    ReadKeyFirstTwoFieldsCut(m, i);
  }

  lemma CutBeforeUnderscoreModule(m: string)
    requires m in UnderscoreModules
    ensures '_' in m && m[..IndexOf(m, '_')] !in ModuleSet
  {
    var k := SeparatorOf(m);
    CutBefore(m, k);
  }

  /** Where the first '_' of each underscore-named module sits, and that the
      part before it is no module name. */
  lemma SeparatorOf(m: string) returns (k: nat)
    requires m in UnderscoreModules
    ensures k < |m| && m[k] == '_' && '_' !in m[..k] && m[..k] !in ModuleSet
  {
    if m == "AINES_E_AIES" {
      k := 5;
      assert m[..k] == "AINES";
    } else {
      k := 11;
      assert m[..k] == "Anestesicos";
    }
  }

  /** The part of a name before its first '_', when that is at position k
      and the part is no module name. */
  lemma CutBefore(m: string, k: nat)
    requires k < |m| && m[k] == '_' && '_' !in m[..k] && m[..k] !in ModuleSet
    ensures '_' in m && m[..IndexOf(m, '_')] !in ModuleSet
  {
    IndexOfAt(m, '_', k);
  }

  lemma {:induction false} DueInEmpty(bank: map<string, seq<Question>>, recs: Records, ids: seq<string>,
                                      now: int, reading: KeyReading)
    requires forall id :: id in ids ==> Pick(bank, recs, id, now, reading) == []
    ensures DueIn(bank, recs, ids, now, reading) == []
    decreases |ids|
  {
    if ids != [] {
      DueInEmpty(bank, recs, ids[..|ids| - 1], now, reading);
    }
  }

  /** DEFECT (js/data.js:313): with the modules as declared, the source's
      review list is made of ATIPICOS and Opioides questions only; the
      progress of the three modules with '_' in their names never counts. */
  lemma DueQuestionsSkipsUnderscoreModules(bank: map<string, seq<Question>>, ud: UserData, now: int)
    requires bank.Keys <= ModuleSet && WellFormed(ud)
    ensures DueQuestions(bank, ud.progress, Modules, now, FirstTwoFields)
         == ModuleDue(bank, ud.progress, "ATIPICOS", now, FirstTwoFields)
          + ModuleDue(bank, ud.progress, "Opioides", now, FirstTwoFields)
  {
    UnderscoreModulesDueEmpty(bank, ud, now);
    DueQuestionsOverLastTwo(bank, ud.progress, now, FirstTwoFields);
  }

  lemma UnderscoreModulesDueEmpty(bank: map<string, seq<Question>>, ud: UserData, now: int)
    requires bank.Keys <= ModuleSet && WellFormed(ud)
    ensures forall m :: m in Modules ==> m in ud.progress
    ensures forall k :: 0 <= k < 3 ==> ModuleDue(bank, ud.progress, Modules[k], now, FirstTwoFields) == []
  {
    forall k | 0 <= k < 3
      ensures ModuleDue(bank, ud.progress, Modules[k], now, FirstTwoFields) == []
    {
      assert Modules[k] in UnderscoreModules;
      UnderscoreModuleDueEmpty(bank, ud, Modules[k], now);
    }
  }

  /** The review list when the first three modules contribute nothing. */
  lemma DueQuestionsOverLastTwo(bank: map<string, seq<Question>>, progress: map<string, Records>,
                                now: int, reading: KeyReading)
    requires forall m :: m in Modules ==> m in progress
    requires forall k :: 0 <= k < 3 ==> ModuleDue(bank, progress, Modules[k], now, reading) == []
    ensures DueQuestions(bank, progress, Modules, now, reading)
         == ModuleDue(bank, progress, Modules[3], now, reading) + ModuleDue(bank, progress, Modules[4], now, reading)
  {
    var ms := Modules;
    assert ms[..0] == [];
    assert ms[..1][..0] == ms[..0];
    assert ms[..2][..1] == ms[..1];
    assert ms[..3][..2] == ms[..2];
    assert ms[..4][..3] == ms[..3];
    assert ms[..|ms| - 1] == ms[..4];
    assert ModuleDue(bank, progress, ms[0], now, reading) == [];
    assert ModuleDue(bank, progress, ms[1], now, reading) == [];
    assert ModuleDue(bank, progress, ms[2], now, reading) == [];
    assert DueQuestions(bank, progress, ms[..1], now, reading) == [];
    assert DueQuestions(bank, progress, ms[..2], now, reading) == [];
    assert DueQuestions(bank, progress, ms[..3], now, reading) == [];
    assert DueQuestions(bank, progress, ms[..4], now, reading) == ModuleDue(bank, progress, ms[3], now, reading);
  }

  lemma UnderscoreModuleDueEmpty(bank: map<string, seq<Question>>, ud: UserData, m: string, now: int)
    requires bank.Keys <= ModuleSet && WellFormed(ud) && m in UnderscoreModules
    ensures ModuleDue(bank, ud.progress, m, now, FirstTwoFields) == []
  {
    var recs := ud.progress[m];
    assert RecordsWellFormed(m, recs);
    forall id | id in recs.ids
      ensures Pick(bank, recs, id, now, FirstTwoFields) == []
    {
      assert IsIdOf(m, id);
      var i: nat :| id == QuestionId(m, i);
      UnderscoreModuleKeysMiss(m, i);
    }
    DueInEmpty(bank, recs, recs.ids, now, FirstTwoFields);
  }

  /** The user data of the concrete case below: one due, correctly answered
      record for the first Anestesicos_Gerais question, nothing else. */
  function OneDueGerais(now: int): UserData {
    var id := QuestionId("Anestesicos_Gerais", 0);
    var due := DefaultProgress.(seen := 1, correct := 1, nextReview := Some(now));
    ClearedUserData.(progress := ClearedUserData.progress["Anestesicos_Gerais" := Records([id], map[id := due])])
  }

  /** A bank whose only question is q, in Anestesicos_Gerais. */
  function OnlyGerais(q: Question): map<string, seq<Question>> {
    map m | m in ModuleSet :: if m == "Anestesicos_Gerais" then [q] else []
  }

  lemma OneDueGeraisWellFormed(now: int)
    ensures WellFormed(OneDueGerais(now))
    ensures OneDueGerais(now).progress["ATIPICOS"].ids == [] && OneDueGerais(now).progress["Opioides"].ids == []
    ensures forall j :: 0 <= j < |Modules| && j != 1 ==> OneDueGerais(now).progress[Modules[j]].ids == []
  {
    var id := QuestionId("Anestesicos_Gerais", 0);
    assert IsIdOf("Anestesicos_Gerais", id);
  }

  /** The source's review list, the concrete case: a due Anestesicos_Gerais
      question and nothing else recorded give an empty list. */
  lemma DueQuestionsCounterexample(q: Question, now: int)
    ensures IsDue(OneDueGerais(now).progress["Anestesicos_Gerais"].byId[QuestionId("Anestesicos_Gerais", 0)], now)
    ensures DueQuestions(OnlyGerais(q), OneDueGerais(now).progress, Modules, now, FirstTwoFields) == []
  {
    OneDueGeraisWellFormed(now);
    DueQuestionsSkipsUnderscoreModules(OnlyGerais(q), OneDueGerais(now), now);
  }

  /** The same case read at the last '_' gives that question. */
  lemma DueQuestionsCounterexampleFixed(q: Question, now: int)
    ensures DueQuestions(OnlyGerais(q), OneDueGerais(now).progress, Modules, now, AtLastSeparator) == [q]
  {
    OneDueGeraisShape(q, now);
    ReadKeyAtLastSeparator(Modules[1], 0);
    OnlyModuleDue(OnlyGerais(q), OneDueGerais(now).progress, 1, 0, now, AtLastSeparator);
  }

  lemma OneDueGeraisShape(q: Question, now: int)
    ensures var progress := OneDueGerais(now).progress;
            var id := QuestionId(Modules[1], 0);
      && (forall m :: m in Modules ==> m in progress)
      && (forall j :: 0 <= j < |Modules| && j != 1 ==> progress[Modules[j]].ids == [])
      && progress[Modules[1]].ids == [id] && progress[Modules[1]].byId.Keys == {id}
      && IsDue(progress[Modules[1]].byId[id], now)
      && Modules[1] in OnlyGerais(q) && OnlyGerais(q)[Modules[1]] == [q]
  {
    OneDueGeraisWellFormed(now);
  }

  /** The review list, under a reading that gives the id back, when only
      the k-th module has a record, a due one for its i-th question: that
      question alone. */
  lemma OnlyModuleDue(bank: map<string, seq<Question>>, progress: map<string, Records>, k: nat, i: nat, now: int,
                      reading: KeyReading)
    requires k < |Modules| && forall m :: m in Modules ==> m in progress
    requires ReadKey(QuestionId(Modules[k], i), reading) == (Modules[k], Some(i))
    requires forall j :: 0 <= j < |Modules| && j != k ==> progress[Modules[j]].ids == []
    requires progress[Modules[k]].ids == [QuestionId(Modules[k], i)]
    requires progress[Modules[k]].byId.Keys == {QuestionId(Modules[k], i)}
    requires IsDue(progress[Modules[k]].byId[QuestionId(Modules[k], i)], now)
    requires Modules[k] in bank && i < |bank[Modules[k]]|
    ensures DueQuestions(bank, progress, Modules, now, reading) == [bank[Modules[k]][i]]
  {
    DueQuestionsOfOne(bank, progress, k, now, reading);
    SingleDue(bank, progress[Modules[k]], Modules[k], i, now, reading);
  }

  /** The review list when only the k-th module has records. */
  lemma DueQuestionsOfOne(bank: map<string, seq<Question>>, progress: map<string, Records>, k: nat,
                          now: int, reading: KeyReading)
    requires k < |Modules| && forall m :: m in Modules ==> m in progress
    requires forall j :: 0 <= j < |Modules| && j != k ==> progress[Modules[j]].ids == []
    ensures DueQuestions(bank, progress, Modules, now, reading) == ModuleDue(bank, progress, Modules[k], now, reading)
  {
    DueQuestionsOverModules(bank, progress, now, reading);
    var d := ModuleDue(bank, progress, Modules[k], now, reading);
    var e: seq<Question> := [];
    forall j | 0 <= j < |Modules| && j != k
      ensures ModuleDue(bank, progress, Modules[j], now, reading) == e
    {
      assert progress[Modules[j]].ids == [];
    }
    if k == 0 {
      assert d + e + e + e + e == d;
    } else if k == 1 {
      assert e + d + e + e + e == d;
    } else if k == 2 {
      assert e + e + d + e + e == d;
    } else if k == 3 {
      assert e + e + e + d + e == d;
    } else {
      assert e + e + e + e + d == d;
    }
  }

  /** A progress object holding one due record gives, read at the last '_',
      exactly the question that record belongs to. */
  lemma SingleDue(bank: map<string, seq<Question>>, recs: Records, m: string, i: nat, now: int, reading: KeyReading)
    requires ReadKey(QuestionId(m, i), reading) == (m, Some(i))
    requires recs.ids == [QuestionId(m, i)] && recs.byId.Keys == {QuestionId(m, i)}
    requires IsDue(recs.byId[QuestionId(m, i)], now) && m in bank && i < |bank[m]|
    ensures DueIn(bank, recs, recs.ids, now, reading) == [bank[m][i]]
  {
    assert recs.ids[..0] == [];
  }

  lemma {:induction false} PickInDueIn(bank: map<string, seq<Question>>, recs: Records, ids: seq<string>,
                                       id: string, now: int, reading: KeyReading)
    requires id in ids
    ensures forall q :: q in Pick(bank, recs, id, now, reading) ==> q in DueIn(bank, recs, ids, now, reading)
    decreases |ids|
  {
    if ids[|ids| - 1] != id {
      assert id in ids[..|ids| - 1];
      PickInDueIn(bank, recs, ids[..|ids| - 1], id, now, reading);
    }
  }

  lemma {:induction false} DueInInDueQuestions(bank: map<string, seq<Question>>, progress: map<string, Records>,
                                               ms: seq<string>, m: string, now: int, reading: KeyReading)
    requires forall x :: x in ms ==> x in progress
    requires m in ms
    ensures forall q :: q in ModuleDue(bank, progress, m, now, reading) ==>
                        q in DueQuestions(bank, progress, ms, now, reading)
    decreases |ms|
  {
    if ms[|ms| - 1] != m {
      assert m in ms[..|ms| - 1];
      DueInInDueQuestions(bank, progress, ms[..|ms| - 1], m, now, reading);
    }
  }

  /** Under any reading that gives back a question's own module and index,
      its due record puts it on the review list. */
  lemma DueListed(bank: map<string, seq<Question>>, ud: UserData, m: string, i: nat, now: int, reading: KeyReading)
    requires WellFormed(ud) && m in ModuleSet && m in bank && i < |bank[m]|
    requires ReadKey(QuestionId(m, i), reading) == (m, Some(i))
    requires QuestionId(m, i) in ud.progress[m].byId && IsDue(ud.progress[m].byId[QuestionId(m, i)], now)
    ensures bank[m][i] in DueQuestions(bank, ud.progress, Modules, now, reading)
  {
    var id := QuestionId(m, i);
    assert Pick(bank, ud.progress[m], id, now, reading) == [bank[m][i]];
    PickInDueIn(bank, ud.progress[m], ud.progress[m].ids, id, now, reading);
    DueInInDueQuestions(bank, ud.progress, Modules, m, now, reading);
  }

  /** CORRECTED: reading ids at their last '_', every due question of every
      module is on the review list. */
  lemma DueQuestionsComplete(bank: map<string, seq<Question>>, ud: UserData, m: string, i: nat, now: int)
    requires WellFormed(ud) && m in ModuleSet && m in bank && i < |bank[m]|
    requires QuestionId(m, i) in ud.progress[m].byId && IsDue(ud.progress[m].byId[QuestionId(m, i)], now)
    ensures bank[m][i] in DueQuestions(bank, ud.progress, Modules, now, AtLastSeparator)
  {
    ReadKeyAtLastSeparator(m, i);
    DueListed(bank, ud, m, i, now, AtLastSeparator);
  }

  /** As written, the due questions of the two modules whose names hold no
      '_', ATIPICOS and Opioides, are all on the review list. */
  lemma DueListedAsWritten(bank: map<string, seq<Question>>, ud: UserData, m: string, i: nat, now: int)
    requires WellFormed(ud) && (m == "ATIPICOS" || m == "Opioides") && m in bank && i < |bank[m]|
    requires QuestionId(m, i) in ud.progress[m].byId && IsDue(ud.progress[m].byId[QuestionId(m, i)], now)
    ensures bank[m][i] in DueQuestions(bank, ud.progress, Modules, now, FirstTwoFields)
  {
    assert m in ModuleSet;
    assert '_' !in m;
    ReadKeyFirstTwoFields(m, i);
    DueListed(bank, ud, m, i, now, FirstTwoFields);
  }

  /** Every question getQuestionsForReview pushes while visiting ids comes
      from one of those ids whose record is due, and is the question that
      id reads back to. */
  lemma {:induction false} DueInSound(bank: map<string, seq<Question>>, recs: Records, ids: seq<string>,
                                      now: int, reading: KeyReading)
    ensures forall q :: q in DueIn(bank, recs, ids, now, reading) ==>
              exists id :: id in ids && id in recs.byId && IsDue(recs.byId[id], now)
                           && Pick(bank, recs, id, now, reading) == [q]
    decreases |ids|
  {
    if ids != [] {
      var init := ids[..|ids| - 1];
      var last := ids[|ids| - 1];
      DueInSound(bank, recs, init, now, reading);
      forall q | q in DueIn(bank, recs, ids, now, reading)
        ensures exists id :: id in ids && id in recs.byId && IsDue(recs.byId[id], now)
                             && Pick(bank, recs, id, now, reading) == [q]
      {
        if q in DueIn(bank, recs, init, now, reading) {
          var id :| id in init && id in recs.byId && IsDue(recs.byId[id], now)
                    && Pick(bank, recs, id, now, reading) == [q];
          assert id in ids;
        } else {
          var pick := Pick(bank, recs, last, now, reading);
          assert q in pick;
          assert pick == [q];
          assert last in ids;
        }
      }
    }
  }

  /** q is the question read back from one of the ids whose record is due. */
  ghost predicate FromDueId(bank: map<string, seq<Question>>, recs: Records, ids: seq<string>,
                            q: Question, now: int, reading: KeyReading) {
    exists id :: id in ids && id in recs.byId && IsDue(recs.byId[id], now) && Pick(bank, recs, id, now, reading) == [q]
  }

  /** q is the question of a due record of one of the modules ms, read
      back from that record's id. */
  ghost predicate FromDueRecord(bank: map<string, seq<Question>>, progress: map<string, Records>,
                                ms: seq<string>, q: Question, now: int, reading: KeyReading) {
    exists m, id :: m in ms && m in progress && id in progress[m].ids && id in progress[m].byId
                    && IsDue(progress[m].byId[id], now) && Pick(bank, progress[m], id, now, reading) == [q]
  }

  /** The same over the modules ms: every question on the review list comes
      from a due record of one of them. */
  lemma {:induction false} DueQuestionsSound(bank: map<string, seq<Question>>, progress: map<string, Records>,
                                             ms: seq<string>, now: int, reading: KeyReading)
    requires forall m :: m in ms ==> m in progress
    ensures forall q :: q in DueQuestions(bank, progress, ms, now, reading) ==>
              FromDueRecord(bank, progress, ms, q, now, reading)
    decreases |ms|
  {
    if ms != [] {
      var init := ms[..|ms| - 1];
      var last := ms[|ms| - 1];
      assert last in ms;
      DueQuestionsSound(bank, progress, init, now, reading);
      DueInSound(bank, progress[last], progress[last].ids, now, reading);
      forall q | q in DueQuestions(bank, progress, ms, now, reading)
        ensures FromDueRecord(bank, progress, ms, q, now, reading)
      {
        if q in DueQuestions(bank, progress, init, now, reading) {
          assert FromDueRecord(bank, progress, init, q, now, reading);
          var m, id :| m in init && m in progress && id in progress[m].ids && id in progress[m].byId
                       && IsDue(progress[m].byId[id], now) && Pick(bank, progress[m], id, now, reading) == [q];
          assert m in ms;
        } else {
          assert q in ModuleDue(bank, progress, last, now, reading);
          var id :| id in progress[last].ids && id in progress[last].byId && IsDue(progress[last].byId[id], now)
                    && Pick(bank, progress[last], id, now, reading) == [q];
          assert last in ms && last in progress;
        }
      }
    }
  }

  /** When no record is due, however ids are read, the review list is empty;
      in particular when no record has a next review. */
  lemma {:induction false} NothingDueNoReview(bank: map<string, seq<Question>>, progress: map<string, Records>,
                                              ms: seq<string>, now: int, reading: KeyReading)
    requires forall m :: m in ms ==> m in progress
    requires forall m, id :: m in ms && id in progress[m].byId ==> !IsDue(progress[m].byId[id], now)
    ensures DueQuestions(bank, progress, ms, now, reading) == []
    decreases |ms|
  {
    if ms != [] {
      var m := ms[|ms| - 1];
      NothingDueNoReview(bank, progress, ms[..|ms| - 1], now, reading);
      DueInEmpty(bank, progress[m], progress[m].ids, now, reading);
    }
  }

  lemma NoneScheduledNoReview(bank: map<string, seq<Question>>, ud: UserData, now: int, reading: KeyReading)
    requires WellFormed(ud) && NoneScheduled(ud.progress)
    ensures DueQuestions(bank, ud.progress, Modules, now, reading) == []
  {
    NothingDueNoReview(bank, ud.progress, Modules, now, reading);
  }

  // ---------------------------------------------------------------------
  // calculateModuleProgress and calculateOverallProgress

  /** r is the whole percentage nearest to k out of n, a half going up:
      r - 1/2 <= 100 k / n < r + 1/2, multiplied out by n. */
  ghost predicate NearestPercent(r: int, k: nat, n: nat) {
    (r as real - 0.5) * (n as real) <= 100.0 * (k as real) < (r as real + 0.5) * (n as real)
  }

  /** Math.round((k / n) * 100), and 0 when n is 0: the nearest whole
      percentage to k out of n. */
  function Percent(k: nat, n: nat): (r: int)
    requires k <= n
    ensures 0 <= r <= 100
    ensures n > 0 ==> NearestPercent(r, k, n)
    ensures k == 0 ==> r == 0
    ensures 0 < k == n ==> r == 100
  {
    if n == 0 then 0
    else
      var ratio := k as real / n as real;
      var r := Round(ratio * 100.0);
      PercentScaled(k, n, ratio, r);
      r
  }

  /** Rounding k / n * 100 to r puts 100 k within half of n of r n. */
  lemma PercentScaled(k: nat, n: nat, ratio: real, r: int)
    requires 0 < n && k <= n && ratio == k as real / n as real
    requires ratio * 100.0 - 0.5 < r as real <= ratio * 100.0 + 0.5
    ensures 0 <= r <= 100
    ensures NearestPercent(r, k, n)
    ensures k == 0 ==> r == 0
    ensures k == n ==> r == 100
  {
    var nr := n as real;
    DivBounds(k as real, nr);
    ScaleBy100(ratio, nr, k as real);
    RoundScaled(ratio * 100.0, r, nr, 100.0 * (k as real));
    if k == n {
      assert ratio * nr == 1.0 * nr;
    }
  }

  lemma ScaleBy100(ratio: real, nr: real, t: real)
    requires ratio * nr == t
    ensures (ratio * 100.0) * nr == 100.0 * t
  {
  }

  /** When x rounds to r and x n is t, t lies within half of n of r n. */
  lemma RoundScaled(x: real, r: int, nr: real, t: real)
    requires nr > 0.0 && x * nr == t
    requires x - 0.5 < r as real <= x + 0.5
    ensures (r as real - 0.5) * nr <= t < (r as real + 0.5) * nr
  {
    MulAtMost(r as real - 0.5, x, nr);
    MulStrict(x, r as real + 0.5, nr);
  }

  predicate HasCorrect(recs: Records, id: string) {
    id in recs.byId && recs.byId[id].correct > 0
  }

  /** The number of the first n questions of module m answered correctly at
      least once. */
  function CountCorrect(recs: Records, m: string, n: nat): (k: nat)
    ensures k <= n
  {
    if n == 0 then 0
    else CountCorrect(recs, m, n - 1) + (if HasCorrect(recs, QuestionId(m, n - 1)) then 1 else 0)
  }

  /** calculateModuleProgress(m): 0 for an unknown or empty module, and
      otherwise the nearest whole percentage of its questions answered
      correctly at least once. */
  function ModuleProgress(bank: map<string, seq<Question>>, progress: map<string, Records>, m: string): (r: int)
    requires m in bank ==> m in progress
    ensures 0 <= r <= 100
    ensures m !in bank || |bank[m]| == 0 ==> r == 0
    ensures m in bank && |bank[m]| > 0 ==> NearestPercent(r, CountCorrect(progress[m], m, |bank[m]|), |bank[m]|)
  {
    if m !in bank || |bank[m]| == 0 then 0
    else Percent(CountCorrect(progress[m], m, |bank[m]|), |bank[m]|)
  }

  function TotalQuestions(bank: map<string, seq<Question>>, ms: seq<string>): nat
    requires forall m :: m in ms ==> m in bank
  {
    if ms == [] then 0 else TotalQuestions(bank, ms[..|ms| - 1]) + |bank[ms[|ms| - 1]]|
  }

  function TotalCorrect(bank: map<string, seq<Question>>, progress: map<string, Records>, ms: seq<string>): (k: nat)
    requires forall m :: m in ms ==> m in bank && m in progress
    ensures k <= TotalQuestions(bank, ms)
  {
    if ms == [] then 0
    else
      var m := ms[|ms| - 1];
      TotalCorrect(bank, progress, ms[..|ms| - 1]) + CountCorrect(progress[m], m, |bank[m]|)
  }

  /** calculateOverallProgress(): the questions answered correctly at least
      once over all questions, pooled across the modules. */
  function OverallProgress(bank: map<string, seq<Question>>, progress: map<string, Records>): (r: int)
    requires ModuleSet <= bank.Keys && ModuleSet <= progress.Keys
    ensures 0 <= r <= 100
    ensures TotalQuestions(bank, Modules) == 0 ==> r == 0
    ensures TotalQuestions(bank, Modules) > 0 ==>
              NearestPercent(r, TotalCorrect(bank, progress, Modules), TotalQuestions(bank, Modules))
  {
    Percent(TotalCorrect(bank, progress, Modules), TotalQuestions(bank, Modules))
  }

  /** Overall progress pools the counts: two questions in ATIPICOS with one
      answered and three in Opioides all answered give 80, although the two
      module percentages, 50 and 100, average 75. */
  lemma OverallPoolsCounts(bank: map<string, seq<Question>>, progress: map<string, Records>)
    requires bank.Keys == ModuleSet && progress.Keys == ModuleSet
    requires forall m :: m in UnderscoreModules ==> bank[m] == []
    requires |bank["ATIPICOS"]| == 2 && CountCorrect(progress["ATIPICOS"], "ATIPICOS", 2) == 1
    requires |bank["Opioides"]| == 3 && CountCorrect(progress["Opioides"], "Opioides", 3) == 3
    ensures OverallProgress(bank, progress) == 80
    ensures ModuleProgress(bank, progress, "ATIPICOS") == 50
    ensures ModuleProgress(bank, progress, "Opioides") == 100
  {
    var ms := Modules;
    assert ms[..1] == ["AINES_E_AIES"];
    assert ms[..2][..1] == ms[..1];
    assert ms[..3][..2] == ms[..2];
    assert ms[..4][..3] == ms[..3];
    assert ms[..5][..4] == ms[..4];
    assert ms[..|ms| - 1] == ms[..4];
    assert ms[..0] == [];
    assert bank[ms[0]] == [] && bank[ms[1]] == [] && bank[ms[2]] == [];
    TotalsStep(bank, progress, ms[..1]);
    TotalsStep(bank, progress, ms[..2]);
    TotalsStep(bank, progress, ms[..3]);
    TotalsStep(bank, progress, ms[..4]);
    TotalsStep(bank, progress, ms);
    assert TotalQuestions(bank, ms[..1]) == 0 && TotalCorrect(bank, progress, ms[..1]) == 0;
    assert TotalQuestions(bank, ms[..2]) == 0 && TotalCorrect(bank, progress, ms[..2]) == 0;
    assert TotalQuestions(bank, ms[..3]) == 0 && TotalCorrect(bank, progress, ms[..3]) == 0;
    assert TotalQuestions(bank, ms[..4]) == 2 && TotalCorrect(bank, progress, ms[..4]) == 1;
    assert TotalQuestions(bank, Modules) == 5 && TotalCorrect(bank, progress, Modules) == 4;
  }

  lemma TotalsStep(bank: map<string, seq<Question>>, progress: map<string, Records>, ms: seq<string>)
    requires ms != [] && forall m :: m in ms ==> m in bank && m in progress
    ensures var m := ms[|ms| - 1];
      && TotalQuestions(bank, ms) == TotalQuestions(bank, ms[..|ms| - 1]) + |bank[m]|
      && TotalCorrect(bank, progress, ms) == TotalCorrect(bank, progress, ms[..|ms| - 1]) + CountCorrect(progress[m], m, |bank[m]|)
  {
  }

  lemma {:induction false} CountCorrectMonotone(older: Records, newer: Records, m: string, n: nat)
    requires forall id :: HasCorrect(older, id) ==> HasCorrect(newer, id)
    ensures CountCorrect(older, m, n) <= CountCorrect(newer, m, n)
  {
    if n > 0 {
      CountCorrectMonotone(older, newer, m, n - 1);
    }
  }

  lemma PercentMonotone(k1: nat, k2: nat, n: nat)
    requires k1 <= k2 <= n
    ensures Percent(k1, n) <= Percent(k2, n)
  {
    if n > 0 {
      DivMonotone(k1 as real, k2 as real, n as real);
      MulAtMost(k1 as real / n as real, k2 as real / n as real, 100.0);
      RoundMonotonic(k1 as real / n as real * 100.0, k2 as real / n as real * 100.0);
    }
  }

  /** Recording an answer, right or wrong, never lowers the progress of any
      module: the correct counters only grow. */
  lemma OutcomeNeverLowersProgress(bank: map<string, seq<Question>>, ud: UserData, m: string, text: string,
                                   isCorrect: bool, now: int, other: string)
    requires m in bank && m in ud.progress && (other in bank ==> other in ud.progress)
    ensures ModuleProgress(bank, ud.progress, other)
         <= ModuleProgress(bank, AfterOutcome(bank, ud, m, text, isCorrect, now).progress, other)
  {
    var r := AfterOutcome(bank, ud, m, text, isCorrect, now);
    AfterOutcomeSpec(bank, ud, m, text, isCorrect, now);
    if other in bank {
      OutcomeKeepsCorrect(bank, ud, m, text, isCorrect, now, other);
      ProgressMonotone(bank, ud.progress[other], r.progress[other], ud.progress, r.progress, other);
    }
  }

  /** After an answer every record of a module that had a correct answer
      still has one. */
  lemma OutcomeKeepsCorrect(bank: map<string, seq<Question>>, ud: UserData, m: string, text: string,
                            isCorrect: bool, now: int, other: string)
    requires m in bank && m in ud.progress && other in ud.progress
    ensures other in AfterOutcome(bank, ud, m, text, isCorrect, now).progress
    ensures forall x :: HasCorrect(ud.progress[other], x) ==>
                        HasCorrect(AfterOutcome(bank, ud, m, text, isCorrect, now).progress[other], x)
  {
    var index := FindIndex(bank[m], text);
    if index >= 0 {
      var id := QuestionId(m, index);
      var updated := OutcomeRecords(ud.progress[m], id, isCorrect, now);
      assert AfterOutcome(bank, ud, m, text, isCorrect, now).progress == ud.progress[m := updated];
      if other == m {
        OutcomeRecordKeepsCorrect(ud.progress[m], id, isCorrect, now);
      }
    }
  }

  lemma OutcomeRecordKeepsCorrect(recs: Records, id: string, isCorrect: bool, now: int)
    ensures forall x :: HasCorrect(recs, x) ==> HasCorrect(OutcomeRecords(recs, id, isCorrect, now), x)
  {
    var updated := OutcomeRecords(recs, id, isCorrect, now);
    forall x | HasCorrect(recs, x)
      ensures HasCorrect(updated, x)
    {
      assert x in updated.byId;
    }
  }

  /** A module's progress only grows when its correct records do. */
  lemma ProgressMonotone(bank: map<string, seq<Question>>, older: Records, newer: Records,
                         before: map<string, Records>, after: map<string, Records>, m: string)
    requires m in bank && m in before && m in after && before[m] == older && after[m] == newer
    requires forall x :: HasCorrect(older, x) ==> HasCorrect(newer, x)
    ensures ModuleProgress(bank, before, m) <= ModuleProgress(bank, after, m)
  {
    if |bank[m]| > 0 {
      var n := |bank[m]|;
      CountCorrectMonotone(older, newer, m, n);
      PercentMonotone(CountCorrect(older, m, n), CountCorrect(newer, m, n), n);
    }
  }

  // ---------------------------------------------------------------------
  // Practice never schedules a review

  /** DEFECT (js/data.js:195-217, js/data.js:259): recording a practice
      answer never sets nextReview, so user data with no next review keeps
      none, and the review list stays empty at every later time, however
      many answers are recorded. */
  lemma PracticeNeverSchedules(bank: map<string, seq<Question>>, ud: UserData, m: string, text: string,
                               isCorrect: bool, now: int, later: int, reading: KeyReading)
    requires m in bank && m in ud.progress && WellFormed(ud) && NoneScheduled(ud.progress)
    ensures var r := AfterOutcome(bank, ud, m, text, isCorrect, now);
      && WellFormed(r) && NoneScheduled(r.progress)
      && DueQuestions(bank, r.progress, Modules, later, reading) == []
  {
    AfterOutcomeWellFormed(bank, ud, m, text, isCorrect, now);
    AfterOutcomeSchedules(bank, ud, m, text, isCorrect, now);
    NoneScheduledNoReview(bank, AfterOutcome(bank, ud, m, text, isCorrect, now), later, reading);
  }

  /** A bank whose only question is q, in ATIPICOS. */
  function AtipicosBank(q: Question): map<string, seq<Question>> {
    map m | m in ModuleSet :: if m == "ATIPICOS" then [q] else []
  }

  /** The concrete case: from cleared user data, a right answer to the
      only question leaves the review list empty, an hour later and at any
      other time. */
  lemma FirstAnswerNeverDue(q: Question, now: int, later: int)
    ensures var bank := AtipicosBank(q);
      DueQuestions(bank, AfterOutcome(bank, ClearedUserData, "ATIPICOS", q.question, true, now).progress,
                   Modules, later, FirstTwoFields) == []
  {
    ClearedIsWellFormed();
    PracticeNeverSchedules(AtipicosBank(q), ClearedUserData, "ATIPICOS", q.question, true, now, later, FirstTwoFields);
  }

  /** CORRECTED: a record without a next review gets its first one interval
      hours after the answer; a scheduled record is kept as it is. */
  function ScheduleFirst(p: Progress, now: int): (r: Progress)
    ensures r.nextReview.Some?
    ensures p.nextReview.Some? ==> r == p
    ensures r.(nextReview := p.nextReview) == p
  {
    if p.nextReview.Some? then p else p.(nextReview := Some(now + p.interval * 3600000))
  }

  /** CORRECTED: updateQuestionProgress followed by ScheduleFirst on the
      record it counted. */
  function AfterOutcomeScheduling(bank: map<string, seq<Question>>, ud: UserData, m: string, text: string,
                                  isCorrect: bool, now: int): (r: UserData)
    requires m in bank && m in ud.progress
    ensures FindIndex(bank[m], text) < 0 ==> r == ud
    ensures r.username == ud.username && r.lastSession == ud.lastSession && r.progress.Keys == ud.progress.Keys
  {
    var index := FindIndex(bank[m], text);
    if index < 0 then ud
    else
      var id := QuestionId(m, index);
      var recs := OutcomeRecords(ud.progress[m], id, isCorrect, now);
      ud.(progress := ud.progress[m := recs.Put(id, ScheduleFirst(recs.byId[id], now))])
  }

  /** With the correction, a recorded practice answer always leaves a next
      review set, and the record counts the answer as before. */
  lemma AfterOutcomeSchedulingSchedules(bank: map<string, seq<Question>>, ud: UserData, m: string, text: string,
                                        isCorrect: bool, now: int)
    requires m in bank && m in ud.progress
    ensures var r := AfterOutcomeScheduling(bank, ud, m, text, isCorrect, now);
            var index := FindIndex(bank[m], text);
      index >= 0 ==>
        var id := QuestionId(m, index);
        && id in r.progress[m].byId
        && r.progress[m].byId[id].nextReview.Some?
        && r.progress[m].byId[id].(nextReview := None)
           == AfterOutcome(bank, ud, m, text, isCorrect, now).progress[m].byId[id].(nextReview := None)
        && !NoneScheduled(r.progress)
  {
  }

  lemma AtipicosScheduledShape(q: Question, now: int)
    ensures var bank := AtipicosBank(q);
            var progress := AfterOutcomeScheduling(bank, ClearedUserData, "ATIPICOS", q.question, true, now).progress;
            var id := QuestionId(Modules[3], 0);
      && (forall m :: m in Modules ==> m in progress)
      && (forall j :: 0 <= j < |Modules| && j != 3 ==> progress[Modules[j]].ids == [])
      && progress[Modules[3]].ids == [id] && progress[Modules[3]].byId.Keys == {id}
      && IsDue(progress[Modules[3]].byId[id], now + 3600000)
      && Modules[3] in bank && bank[Modules[3]] == [q]
  {
    var bank := AtipicosBank(q);
    assert Modules[3] == "ATIPICOS";
    assert bank["ATIPICOS"] == [q];
    assert FindIndex(bank["ATIPICOS"], q.question) == 0;
    assert ClearedUserData.progress["ATIPICOS"] == EmptyRecords;
  }

  lemma AtipicosReadBack()
    ensures ReadKey(QuestionId(Modules[3], 0), FirstTwoFields) == (Modules[3], Some(0))
  {
    assert '_' !in Modules[3];
    ReadKeyFirstTwoFields(Modules[3], 0);
  }

  /** With the correction, the concrete case reaches the review: an hour
      after the first right answer the question is due. */
  lemma FirstAnswerDueWhenScheduled(q: Question, now: int)
    ensures var bank := AtipicosBank(q);
      DueQuestions(bank, AfterOutcomeScheduling(bank, ClearedUserData, "ATIPICOS", q.question, true, now).progress,
                   Modules, now + 3600000, FirstTwoFields) == [q]
  {
    var bank := AtipicosBank(q);
    var progress := AfterOutcomeScheduling(bank, ClearedUserData, "ATIPICOS", q.question, true, now).progress;
    AtipicosScheduledShape(q, now);
    AtipicosReadBack();
    OnlyModuleDue(bank, progress, 3, 0, now + 3600000, FirstTwoFields);
  }
}
