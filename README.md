# Farmacologia quiz: a verified model of its core

The application is a browser quiz for a pharmacology course. Its questions
are grouped into five modules: AINES_E_AIES, Anestesicos_Gerais,
Anestesicos_Locais, ATIPICOS and Opioides. The store keeps a progress record
for each question and the user's answers update it. A spaced-repetition
scheduler picks which questions come back for review. This project models
the three script files that hold that logic:

- `spaced_repetition.dfy` (module `SpacedRepetition`) covers
  `js/spaced-repetition.js`. It holds the SM-2 style interval and ease
  computation and the helpers that show an interval, a remaining time, a
  difficulty colour and a learning status. All of these are pure functions.
- `data.dfy` (module `Data`) holds the values behind `js/data.js`:
  - questions and progress records;
  - per-module progress objects, keeping the insertion order a `for ... in`
    visits;
  - the user data.

  For every store operation it defines a function that says what the
  operation does, and it proves lemmas about what those functions mean.
- `data_store.dfy` (module `DataStore`) is the store itself. Class `Store`
  has the fields `questionsData` and `userData`, and one method per function
  of `js/data.js`. Each method is a loop or an in-place update, proved
  against its function from `Data`.
- `app.dfy` (module `App`) covers the computations of `js/app.js` that do not
  touch the session:
  - the timer text;
  - the results score;
  - the progress colour band;
  - `shuffleArray`, which shuffles an `array` in place. The random draws are
    given as a sequence of choices.
- `quiz.dfy` (module `Quiz`) is the quiz session. Class `Session` turns the
  module-level variables of `js/app.js` into fields. Its methods are the
  handlers that start a quiz or a review, answer, rate, advance and quit.
- `builtins.dfy` (module `Builtins`) models the JavaScript built-ins that the
  code depends on:
  - `Math.round`;
  - number-to-string conversion;
  - the digit prefix `parseInt` reads;
  - `split`, `indexOf` and `lastIndexOf` on single characters.

Timestamps are whole milliseconds and `now` is a parameter wherever the
source reads the clock. Intervals are in hours. Numbers that the source
keeps as doubles are `real`s, except the stored `interval`. The store only
ever writes a whole number of hours into `interval`, so it is an `int`.

## Model

| member | source | states |
|---|---|---|
| Builtins.Round | js/data.js:288 | Math.round: the integer r with x - 1/2 < r <= x + 1/2 |
| Builtins.ParseIntOfNatToString | js/data.js:314 | parseInt reads back the decimal text of every index |
| SpacedRepetition.CalculateNextReview | js/spaced-repetition.js:18-66 | the interval stays within 1..720 hours and the ease never falls below 1.3; a correct answer waits at least 6 hours; a wrong one resets the interval by difficulty and lowers the ease by 0.2; a correct one moves the ease by the SM-2 change for quality difficulty - 1 |
| SpacedRepetition.IncorrectResets | js/spaced-repetition.js:28-33 | a wrong answer gives 2 hours for difficulty 1 and 1 hour for difficulties 2 to 5, whatever the current interval |
| SpacedRepetition.CorrectGraduates | js/spaced-repetition.js:40-45 | the first success after an interval of 1 hour gives 6 hours; any other interval up to 6 hours gives 24 |
| SpacedRepetition.CorrectNeverRaisesEase | js/spaced-repetition.js:36-37 | for ratings 1..5 and any ease, a correct answer gives at most the larger of the old ease and 1.3: an ease at or above the floor never rises, one below it rises to exactly 1.3; rating 5 keeps an ease at or above the floor as it is |
| SpacedRepetition.EaseChangeValues | js/spaced-repetition.js:36 | the ease change for ratings 1..5 is -0.8, -0.54, -0.32, -0.14 and 0 |
| SpacedRepetition.StoreEaseIsOneStepEasier | js/data.js:270-295 | the ease formula of calculateNextInterval is that of calculateNextReview for a rating one step higher |
| SpacedRepetition.CorrectGrowsInterval | js/spaced-repetition.js:47-60 | past 6 hours, a success rated medium or easier gives a longer interval or the 720-hour cap |
| SpacedRepetition.GrowthExceeds | js/spaced-repetition.js:48 | an interval past 6 hours, grown by an ease of 1.3 or more and rounded, is longer |
| SpacedRepetition.GraduatedPastSix | js/spaced-repetition.js:47-55 | the review after a correct answer past 6 hours, by rating band: hard ratings give half the interval grown by the new ease and rounded, but at least a day; medium gives the grown interval; easy adds a fifth to it; all under the 720-hour cap |
| SpacedRepetition.GrowthPastSix | js/spaced-repetition.js:47-55 | an interval past 6 hours grows to at least 8 hours under every rating |
| SpacedRepetition.HardRatingCanShorten | js/spaced-repetition.js:48-52 | 100 hours with ease 2.5 rated 2 comes back as 98 hours, so a success can shorten the interval |
| SpacedRepetition.FormatInterval | js/spaced-repetition.js:74-84 | the unit follows the range: minutes below an hour, hours below a day, days from a day on |
| SpacedRepetition.FormatIntervalMinutes | js/spaced-repetition.js:74-77 | under an hour the text is the rounded minutes, 0..60 of them, and the number reads back |
| SpacedRepetition.FormatIntervalHours | js/spaced-repetition.js:78-79 | whole hours from 1 to 23 read "1 hora" or "h horas" |
| SpacedRepetition.FormatIntervalDays | js/spaced-repetition.js:80-83 | from 24 hours the text is whole days; "1 dia" exactly below 48 hours; the number reads back |
| SpacedRepetition.GetTimeUntilNextReview | js/spaced-repetition.js:91-104 | the text is either "Disponível agora" or "Em " followed by the time left |
| SpacedRepetition.AvailableExactlyWhenDue | js/spaced-repetition.js:91-104 | "Disponível agora" exactly when no date is set or the date has passed; otherwise "Em " and the time left |
| SpacedRepetition.ScheduledReadsBack | js/spaced-repetition.js:91-104 | right after the store schedules a review n hours ahead, the time left shown is n hours |
| SpacedRepetition.GetDifficultyColor | js/spaced-repetition.js:112-122 | ratings 1..5 get their colour, and any other value gets the medium grey |
| SpacedRepetition.DifficultyColorsDistinct | js/spaced-repetition.js:112-122 | different ratings in 1..5 get different colours; 0 and 6 look like 3 |
| SpacedRepetition.GetLearningStatus | js/spaced-repetition.js:130-150 | the status is one of the seven labels, and a missing record is "Não estudada" |
| SpacedRepetition.LearningStatusByCounts | js/spaced-repetition.js:130-150 | the ratio thresholds equal whole-number comparisons: correct against 4/5, 3/5 and 2/5 of seen |
| SpacedRepetition.LearningStatusExamples | js/spaced-repetition.js:130-150 | all correct once or twice is nearly mastered; 3 of 5 is learning well; unseen or missing is not studied |
| SpacedRepetition.LearningStatusEnds | js/spaced-repetition.js:130-150 | seen with no correct answer is exactly "not learned"; mastered is exactly three or more presentations, all correct |
| Data.Records.Put | js/data.js:195-217 | assigning obj[id] stores the record under id; an existing id keeps its place in the key order and a new id goes last; the order stays duplicate-free and in step with the records |
| Data.ClearedIsWellFormed | js/data.js:418-433 | the cleared user data has an empty progress object per module and no schedule |
| Data.FindIndex | js/data.js:185 | findIndex gives the first question with the text, or -1 when none has it |
| Data.Locate | js/data.js:233-241 | the first module in declaration order whose list holds the text, with its index there; None exactly when no module holds it |
| Data.FirstHit | js/data.js:233-241 | the position of the first module from start on whose list holds the text |
| Data.PutWellFormed | js/data.js:195-217 | storing a sound record under an id of the module keeps its progress object well formed |
| Data.UpdateWellFormed | js/data.js:184-221 | replacing one module's progress object by a well-formed one keeps the user data well formed |
| Data.InitializeRecords | js/data.js:96-115 | initialisation keeps every existing id and leaves every existing record as it was |
| Data.InitializeRecordsSpec | js/data.js:96-115 | after initialisation every index below n has a record; old records are untouched; new records are defaults for an index below n |
| Data.InitializeRecordsWellFormed | js/data.js:96-115 | initialisation keeps the progress object well formed and adds no schedule |
| Data.InitializeRecordsSound | js/data.js:96-115 | after initialisation every record is sound and stored under an id of the module |
| Data.InitializeRecordsUnscheduled | js/data.js:96-115 | initialisation adds no next review |
| Data.InitializeWellFormed | js/data.js:96-115 | initializeQuestionProgress keeps the user data well formed |
| Data.InitializeRecordsValid | js/data.js:96-115 | initialisation keeps the id order duplicate-free and in step with the records |
| Data.RecordOutcome | js/data.js:209-217 | seen rises by one and exactly one of correct and incorrect rises, correct exactly when the answer was right; lastSeen is now; scheduling fields stay; soundness is kept |
| Data.OutcomeRecords | js/data.js:195-217 | a missing record is created with the defaults, then counted; the object stays valid |
| Data.OutcomeRecordsWellFormed | js/data.js:195-217 | recording an outcome under an id of the module keeps the object well formed |
| Data.AfterOutcome | js/data.js:184-221 | nothing changes when the module does not list the text; only that module's progress object can change; the username and last session stay |
| Data.AfterOutcomeSpec | js/data.js:184-221 | nothing changes when the module does not list the text; otherwise only the record of the first question with it gains one presentation |
| Data.AfterOutcomeWellFormed | js/data.js:184-221 | updateQuestionProgress keeps the user data well formed |
| Data.AfterOutcomeSchedules | js/data.js:184-221 | updateQuestionProgress sets no next review and clears none |
| Data.PutKeepsSchedules | js/data.js:195-217 | storing a record that keeps the old next review leaves unchanged whether any schedule exists |
| Data.ReplaceKeepsSchedules | js/data.js:184-221 | replacing a module's object by one with the same schedule status only keeps the overall status |
| Data.AdjustedEase | js/data.js:274-278 | the new ease is at least 1.3 and at least the SM-2 update with the difficulty fed in directly |
| Data.CalculateNextInterval | js/data.js:270-295 | the record changes only in its ease, which stays at 1.3 or above; the interval is 1 hour up to one presentation, 6 hours at two, then the old interval times the ease, rounded; it stays at 1 or above and never shrinks |
| Data.GrowthAtLeastInterval | js/data.js:287-289 | an interval of at least one hour, times an ease of at least 1.3 and rounded, does not shrink |
| Data.NoIntervalCeiling | js/data.js:270-295 | calculateNextInterval has no cap: 720 hours at three presentations grows past 720 |
| Data.Reschedule | js/data.js:250-259 | the rescheduled record takes the rating and has a next review; its counters and last presentation stay |
| Data.RescheduleSpec | js/data.js:250-259 | the record takes the rating, calculateNextInterval's ease and interval, and a next review that many hours after now; the counters stay; a sound record stays sound and is due in the future |
| Data.AfterDifficulty | js/data.js:228-263 | NotFound exactly when no module holds the text; nothing changes unless Scheduled; the username, last session and modules stay |
| Data.AfterDifficultySpec | js/data.js:228-263 | NotFound exactly when no module holds the text; nothing changes unless Scheduled; then only the located record is replaced by its rescheduled version |
| Data.AfterDifficultySchedules | js/data.js:228-263 | a stored rating leaves a next review set |
| Data.AfterDifficultyWellFormed | js/data.js:228-263 | updateQuestionDifficulty keeps the user data well formed |
| Data.AfterReviewOutcome | js/data.js:332-354 | nothing changes when no module holds the text; the username, last session and modules stay |
| Data.AfterReviewOutcomeSpec | js/data.js:332-354 | nothing changes when no module holds the text; otherwise the updateQuestionProgress of the first module holding it; well-formedness and schedules are kept |
| Data.QuestionId | js/data.js:99 | the id `${module}_${index}` (also built at js/data.js:192, 248 and 372): the module name, then '_', then only digits; ReadKeyAtLastSeparator reads it back |
| Data.IsDue | js/data.js:312 | the guard of getQuestionsForReview: seen at least once, with a next review not after now; DueInSound and DueListed tie the review list to it in both directions |
| Data.Pick | js/data.js:309-319 | at most one question is pushed per id, and only for a record that exists and is due |
| Data.ReadKey | js/data.js:313-314 | as the source reads an id, the module part never holds a '_'; read at the last '_', it is the id up to that '_' |
| Data.DueIn | js/data.js:308-321 | one progress object pushes at most one question per id, each a question of the bank; DueInSound adds that each comes from a due record |
| Data.DueInSound | js/data.js:308-321 | every question pushed while visiting ids is the question read back from one of those ids whose record exists and is due |
| Data.DueQuestions | js/data.js:301-325 | every question on the review list is a question of the bank; DueQuestionsSound adds that each comes from a due record |
| Data.DueQuestionsSound | js/data.js:301-325 | every question on the review list is the question read back from a due record (seen, with a next review not after now) of one of the visited modules |
| Data.DueQuestionsOverModules | js/data.js:301-325 | the review list is the five modules' contributions in declaration order |
| Data.ReadKeyFirstTwoFields | js/data.js:313-314 | split('_') reads back an id whose module name has no '_' |
| Data.ReadKeyFirstTwoFieldsCut | js/data.js:313 | split('_') reads only the part of an underscore-named module before its first '_' |
| Data.ReadKeyAtLastSeparator | js/data.js:313-314 | read at its last '_', every id gives back its module and index |
| Data.UnderscoreModuleKeysMiss | js/data.js:313-317 | the first field of every id of an underscore-named module is no module name |
| Data.DueQuestionsSkipsUnderscoreModules | js/data.js:301-325 | as written, the review list is made only of ATIPICOS and Opioides questions |
| Data.UnderscoreModuleDueEmpty | js/data.js:301-325 | as written, an underscore-named module contributes nothing to the review list |
| Data.DueQuestionsCounterexample | js/data.js:313-317 | as written, one due Anestesicos_Gerais record gives an empty review list |
| Data.DueQuestionsCounterexampleFixed | js/data.js:313-317 | read at the last '_', the same record gives its question |
| Data.OnlyModuleDue | js/data.js:301-325 | under a reading that gives its id back, one due record in one module gives exactly its question |
| Data.SingleDue | js/data.js:308-321 | under a reading that gives its id back, a progress object with one due record gives exactly its question |
| Data.DueListed | js/data.js:301-325 | under any reading that gives a question's id back as its module and index, a due record puts that question on the review list |
| Data.DueListedAsWritten | js/data.js:313-318 | as written, with split('_'), every due question of ATIPICOS and Opioides, whose names hold no '_', is on the review list |
| Data.DueQuestionsComplete | js/data.js:301-325 | read at the last '_', every due question of every module is on the review list |
| Data.NothingDueNoReview | js/data.js:301-325 | when no record is due, the review list is empty under either reading |
| Data.NoneScheduledNoReview | js/data.js:301-325 | with no next review set anywhere, the review list is empty |
| Data.PracticeNeverSchedules | js/data.js:195-217 | as written, an answer recorded in user data without any next review leaves none, so the review list stays empty at every later time |
| Data.FirstAnswerNeverDue | js/data.js:195-217 | as written, from cleared data a right answer to the only ATIPICOS question leaves the review list empty |
| Data.ScheduleFirst | js/data.js:259 | corrected: a record without a next review gets one; a scheduled record stays as it is; no other field changes |
| Data.AfterOutcomeScheduling | js/data.js:184-221 | corrected updateQuestionProgress: nothing changes when the module does not list the text; the username, last session and modules stay |
| Data.AfterOutcomeSchedulingSchedules | js/data.js:195-217 | corrected: a recorded answer leaves a next review set, and the record's other fields are those updateQuestionProgress writes |
| Data.AtipicosScheduledShape | js/data.js:195-217 | corrected: after that first answer ATIPICOS holds exactly one record, due an hour later, and the other modules none |
| Data.FirstAnswerDueWhenScheduled | js/app.js:546-549 | corrected: an hour after that first answer the review list is exactly that question |
| Data.Percent | js/data.js:381 | Math.round(k / n * 100) is the whole percentage nearest k of n, a half going up, within 0..100; 0 of n is 0; n of n is 100 |
| Data.PercentScaled | js/data.js:381 | the rounded ratio lies within half of n of 100 k, in 0..100 |
| Data.CountCorrect | js/data.js:370-379 | at most n of the first n questions count as answered correctly |
| Data.ModuleProgress | js/data.js:361-382 | 0 for an unknown or empty module, otherwise the nearest percentage of questions answered correctly at least once |
| Data.TotalCorrect | js/data.js:388-413 | the pooled correct count never exceeds the pooled question count |
| Data.OverallProgress | js/data.js:388-413 | 0 with no questions, otherwise the whole percentage nearest the pooled correct count over the pooled question count, in 0..100 |
| Data.OverallPoolsCounts | js/data.js:388-413 | overall progress pools counts: modules at 1 of 2 and 3 of 3 give 80, although their percentages 50 and 100 average 75 |
| Data.CountCorrectMonotone | js/data.js:370-379 | more records with a correct answer never lower the count |
| Data.PercentMonotone | js/data.js:381 | a higher count never lowers the percentage |
| Data.OutcomeNeverLowersProgress | js/data.js:184-221 | recording an answer, right or wrong, never lowers any module's progress |
| Data.OutcomeKeepsCorrect | js/data.js:209-217 | after an answer every record that had a correct answer still has one |
| Data.ProgressMonotone | js/data.js:361-382 | a module's progress only grows when its correct records do |
| DataStore.Store.constructor | js/data.js:11-30 | every module starts with an empty list and the cleared user data, well formed |
| DataStore.Store.Commit | js/data.js:425-432 | the write step of every store update: the whole user data is replaced, as clearUserData reassigns it, and the question bank stays |
| DataStore.Store.LoadModule | js/data.js:36-95 | a loaded module's list becomes the data and its progress is initialised; well-formedness is kept |
| DataStore.Store.SetModuleQuestions | js/app.js:506-512 | the write of the shuffle into the bank's own list: only that module's list changes |
| DataStore.Store.InitializeQuestionProgress | js/data.js:96-115 | the loop leaves the module's progress as InitializeRecords says; nothing else changes; well-formedness is kept |
| DataStore.Store.SetUsername | js/data.js:156-159 | the username is set and the data saved at now |
| DataStore.Store.GetUsername | js/data.js:165-167 | the stored username |
| DataStore.Store.FindIndexIn | js/data.js:185 | the findIndex loop gives FindIndex |
| DataStore.Store.FindModule | js/data.js:233-241 | the module search loop gives Locate |
| DataStore.Store.UpdateQuestionProgress | js/data.js:184-221 | the user data becomes SavedOutcome: unchanged and unsaved when the module does not list the question, otherwise counted and saved; well-formedness is kept |
| DataStore.Store.UpdateQuestionDifficulty | js/data.js:228-263 | the outcome and new user data are AfterDifficulty's, saved only when Scheduled; a missing record is the source's TypeError and changes nothing |
| DataStore.Store.RateAt | js/data.js:248-262 | once the question is located, the write is AfterDifficulty's, and the outcome is never NotFound |
| DataStore.Store.RescheduleRecord | js/data.js:251-259 | the writes into the located record give Reschedule |
| DataStore.Store.UpdateReviewProgress | js/data.js:332-354 | the user data becomes SavedReviewOutcome: the outcome is recorded in the first module listing the question, or nowhere |
| DataStore.Store.GetQuestionsForReview | js/data.js:301-325 | the loop over the modules gives DueQuestions under the given reading of ids, and every question it returns comes from a due record (FromDueRecord) |
| DataStore.Store.DueInRecords | js/data.js:308-321 | the loop over one progress object, in key order, gives DueIn, and every question it returns comes from a due record of that object (FromDueId) |
| DataStore.Store.PickIn | js/data.js:309-319 | the body of that loop for one id pushes exactly Pick's question: none unless the record exists, is due and its id reads back to a question of the bank |
| DataStore.Store.CalculateModuleProgress | js/data.js:361-382 | the result is ModuleProgress |
| DataStore.Store.CountCorrectIn | js/data.js:370-379 | the forEach count gives CountCorrect |
| DataStore.Store.CalculateOverallProgress | js/data.js:388-413 | the loop gives OverallProgress |
| DataStore.Store.ClearUserData | js/data.js:418-433 | the user data is the cleared one again; the question bank stays |
| DataStore.Saved | js/data.js:120-126 | saving sets the last session to now and changes nothing else |
| DataStore.SavedOutcomeSchedules | js/data.js:184-221 | the saved answer update neither sets nor clears a schedule, and keeps well-formedness |
| DataStore.SavedReviewOutcomeSchedules | js/data.js:332-354 | the same for updateReviewProgress |
| DataStore.FindIndexIs | js/data.js:185 | the index the search stops at is FindIndex |
| DataStore.LocateFirst | js/data.js:233-241 | the module the search stops at is Locate's |
| App.SecondsFieldDigits | js/app.js:740-744 | the seconds field always has two digits and reads back as the remainder |
| App.FormatTimeReadsBack | js/app.js:740-744 | formatTime is minutes, ':' and a two-digit seconds field below 60; 60 times the minutes plus the seconds gives the input |
| App.FormatTime | js/app.js:740-744 | the text ends in ':' and two digits, after the digits of the minutes |
| App.Score | js/app.js:686-703 | the score is 0 with no answers, otherwise the nearest whole percentage correct; 0 with no correct answer; 100 with no wrong answer |
| App.ScoreMonotone | js/app.js:691-692 | one more correct answer never lowers the score, and one more wrong answer never raises it |
| App.PercentShift | js/app.js:692 | k of n rounds between k of n + 1 and k + 1 of n + 1 |
| App.ProgressBand | js/app.js:184-193 | the badge gets exactly one of the success, warning and primary classes |
| App.ProgressBandRanges | js/app.js:184-193 | success exactly from 80, warning exactly from 40 below 80, primary exactly below 40 |
| App.Swap | js/app.js:776 | the destructuring swap exchanges positions i and j and leaves all others |
| App.SwapPermutes | js/app.js:776 | a swap is a permutation |
| App.ShuffleFromPermutes | js/app.js:773-778 | any run of the shuffle's steps is a permutation |
| App.Shuffle | js/app.js:773-778 | the shuffled order has the input's length and is a permutation of it |
| App.ShufflePermutes | js/app.js:773-778 | shuffleArray leaves a permutation of the same length |
| App.StayingChoicesKeepOrder | js/app.js:773-778 | when every draw picks the position itself, the order stays |
| App.ShuffleArray | js/app.js:773-778 | the in-place loop leaves the array as Shuffle of its old contents, a permutation of them |
| Quiz.Session.constructor | js/app.js:11-23 | the session starts on module selection with empty lists and zero counters |
| Quiz.Session.Counted | js/app.js:12-23 | the session invariant every handler keeps: on the quiz screen correct + incorrect answers equal the index, plus one once answered; on the results screen they equal the number of questions and the score is theirs; a marked difficulty implies shown buttons, and shown buttons an answer |
| Quiz.Session.Dormant | js/app.js:542-558 | no record has a next review and no review runs; every handler keeps it, because only a review schedules and a review needs a due question |
| Quiz.Session.FinishQuiz | js/app.js:686-703 | the results screen shows the score of the counters and nothing else changes |
| Quiz.Session.LoadQuestion | js/app.js:563-608 | past the last question the results show with their score; otherwise the marks are cleared and the difficulty buttons hidden |
| Quiz.Session.StartQuizFlow | js/app.js:518-537 | outside a review the list is shuffled in place, the index and counters are zeroed, and the first question loads |
| Quiz.Session.BeginQuiz | js/app.js:519-536 | the index and counters are zeroed, the quiz screen shows, and the first question loads |
| Quiz.Session.StartQuizOnCopy | js/app.js:216-513 | corrected startQuiz: the quiz runs on a shuffled copy and the bank stays; a module with no questions returns to module selection |
| Quiz.Session.StartOn | js/app.js:506-509 | the flow starts on a fresh array holding the list |
| Quiz.Session.Offered | js/app.js:503-512 | startQuiz starts a quiz for Opioides or for a bank module with questions, and otherwise goes back to module selection; StartQuiz and StartQuizOnCopy branch on it |
| Quiz.Session.StartQuiz | js/app.js:216-513 | startQuiz as written: the same session, but for a bank module the bank's list is replaced by the shuffled order, a permutation of it; dormant data stays dormant |
| Quiz.Session.StartSpacedRepetition | js/app.js:542-558 | the due list is DueQuestions read at the last '_'; an empty list changes nothing else; otherwise a review session on the list, unshuffled, begins; review mode starts only with a non-empty list, so dormant data stays dormant |
| Quiz.Session.StartReview | js/app.js:550-557 | a review session starts on the due questions in their order |
| Quiz.Session.SelectOption | js/app.js:615-654 | a second selection is ignored; otherwise exactly one counter rises, and the difficulty buttons show and the outcome is reported unless a missing correct option throws first; dormant data stays dormant |
| Quiz.Session.Answer | js/app.js:620-653 | exactly one counter rises; unless the throw comes first, the difficulty buttons show and the store records the outcome by module or, in a review, by search; dormant data stays dormant |
| Quiz.Session.Mark | js/app.js:624-638 | the option is marked and exactly one counter rises |
| Quiz.Session.ReportOutcome | js/app.js:648-653 | the outcome goes to updateReviewProgress in a review and to updateQuestionProgress otherwise |
| Quiz.Session.SelectDifficulty | js/app.js:83-96 | clickable only on the quiz screen while the difficulty buttons show (js/app.js:646); the difficulty is marked and kept |
| Quiz.Session.NextQuestion | js/app.js:659-681 | refused until an option and a difficulty are marked, so never after an answer that threw; in a review the rating reaches the store and a missing record stops the move; outside a review the store is untouched; otherwise the next question loads, or the results after the last; dormant data stays dormant |
| Quiz.Session.RateQuestion | js/app.js:674-676 | the kept difficulty of the current question goes to updateQuestionDifficulty |
| Quiz.Session.Advance | js/app.js:678-680 | the index moves on by one and the next question loads; the results count every question |
| Quiz.Session.QuitQuiz | js/app.js:708-713 | on confirmation the session returns to module selection and nothing else changes |
| Quiz.OneDueAtipicosShape | js/data.js:301-325 | the fixture has exactly one due record, in ATIPICOS |
| Quiz.SharedShuffleMovesProgress | js/app.js:506-512 | as written, with ids read by split('_'), a shuffle that swaps the two ATIPICOS questions makes q0's due record bring back q1 |

## Left out

- Storage and loading are not modelled: `localStorage`, `loadUserData` and the `fetch` calls of `loadAllQuestions`. Saving is modelled only as the `lastSession` timestamp it writes (`DataStore.Saved`). A successful fetch is `Store.LoadModule`; a failed fetch and its alert are not modelled.
- The DOM, the timer (`startTimer`, `stopTimer`, `quizSeconds`), `alert` and `confirm` are not modelled. The answer of the confirmation dialog is a parameter of `QuitQuiz`. The screens, the selected-option mark, the visibility of the difficulty buttons and the selected-difficulty mark are the fields `screen`, `answered`, `shown` and `rated`. A click on a hidden difficulty button cannot happen, so `SelectDifficulty` requires the quiz screen and `shown`.
- `init`, `setupEventListeners`, `handleLogin`, `handleLogout`, `resetAllProgress` and the `show…Screen` helpers are not modelled. They are UI wiring around the modelled operations.
- `getQuestions(module)` has no member of its own. Its lookup is the `Session.ListFor` fallback to an empty list.
- Math.random is replaced by draws given as `choices` (`ValidChoices`).
- Dates are whole milliseconds, not ISO strings.
- Doubles are exact `real`s, so floating-point rounding is not modelled.
- `formatInterval` prints a non-whole number through a caller-given `showFraction`. The shortest round-trip decimal rendering is not modelled.
- `parseInt` is modelled for a leading run of decimal digits only. Signs, whitespace and other radixes are left out; the store only parses ids it built itself.
- Every `requires screen == QuizScreen` stands for the UI invariant that the handler is only reachable from the quiz screen.
- Quiz.Session.StartQuiz: `currentQuestions` is the bank's own array in the source. The model gives the session a fresh array and writes the shuffled order back with `Store.SetModuleQuestions`. That leaves the same bank, but aliasing later writes is not modelled.
- The inline Opioides question list of `startQuiz` is a parameter `opioides`. Its 40-odd literal questions are not copied.
- calculateNextInterval writes the ease into its argument in place. `CalculateNextInterval` returns the changed record beside the interval instead.
- The TypeError of `updateQuestionDifficulty` when the located question has no record is the outcome `MissingRecord`, which changes nothing.
- The TypeError of `selectOption` when `correctIndex` names no option is the `Highlightable` test. The counter has already risen, and the store is not told.
- Quiz.Session.StartSpacedRepetition uses the corrected reading of ids (`AtLastSeparator`) rather than the source's `split('_')`; see Findings. `Store.GetQuestionsForReview` takes the reading as a parameter, so both are modelled.
- `Progress.interval` is an integer because the store only writes whole numbers into it. `calculateNextReview`'s own interval stays a `real`.
- The session records practice answers with the source's `updateQuestionProgress`, so that the model keeps the source's behaviour and its `Dormant` invariant. The corrected `Data.AfterOutcomeScheduling` of the third finding is stated and proved beside it, not wired into `Store`.
- Data.Locate and Store.FindModule search the modules in the declaration order of `questionsData`; that object's keys are fixed, so the order is too.

## Findings

| source | as written | input that shows it | evidently intended | confidence | as-written member | corrected member |
|---|---|---|---|---|---|---|
| js/data.js:313 | `getQuestionsForReview` reads a progress id `${module}_${index}` with `split('_')` and keeps the first two fields. For AINES_E_AIES, Anestesicos_Gerais and Anestesicos_Locais the first field is not a module name, so their due questions never reach the review list. | one due, correctly answered record `Anestesicos_Gerais_0` and nothing else: the review list is empty | read the module as everything before the last '_'; every due question of every module is then listed | not executed | Data.DueQuestionsSkipsUnderscoreModules, Data.DueQuestionsCounterexample | Data.DueQuestionsComplete, Data.DueQuestionsCounterexampleFixed |
| js/app.js:507 | `startQuiz` sets `currentQuestions = questionsData[module]`, and `startQuizFlow` (js/app.js:526) shuffles that same array in place. The bank is reordered, so the ids `${module}_${index}` of the stored progress now name other questions. | ATIPICOS holds [q0, q1], q0 was answered and is due, and a shuffle draw of 0 swaps the two: the review then brings back q1 instead of q0 | shuffle a copy and leave the bank's order, and so the meaning of every progress id, untouched | not executed | Quiz.Session.StartQuiz, Quiz.SharedShuffleMovesProgress | Quiz.Session.StartQuizOnCopy |
| js/data.js:259 | Only `updateQuestionDifficulty` writes `nextReview`, and `nextQuestion` calls it only in review mode (js/app.js:674-676). `startSpacedRepetition` enters review mode only when the due list is non-empty (js/app.js:546-548), and `updateQuestionProgress` (js/data.js:195-217) never schedules. From fresh user data no question ever becomes due, although the alert at js/app.js:547 says practising the modules adds questions to the review. | cleared user data, one right answer to the only ATIPICOS question: the review list is empty at every later time | a practice answer schedules a first review `interval` hours later when the record has none | not executed | Data.PracticeNeverSchedules, Data.FirstAnswerNeverDue, Quiz.Session.StartSpacedRepetition | Data.AfterOutcomeScheduling, Data.AfterOutcomeSchedulingSchedules, Data.FirstAnswerDueWhenScheduled |
