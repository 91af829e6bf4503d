# FinaLearn learning core in Dafny

FinaLearn is a forex-trading education app. A learner walks through
generated lessons step by step under a per-step countdown, ticks off chart
practice tasks, takes multiple-choice module assessments, and reviews a
progress page. The backend records per-lesson progress in a `user_progress`
table. This project models the sequential logic behind those screens and the
progress service, and proves what each piece promises.

- `wrappers.dfy`: `Option`.
- `maps.dfy`: a shared fact about removing a key from a finite map.
- `rounding.dfy`: JavaScript's `Math.round(p / q * 100)` in exact integer
  arithmetic. Round-half-up of a ratio is `(2a + b) / (2b)` for `b > 0`.
- `decimal.dfy`: the decimal rendering of a natural number, `padStart`, and
  reading digit runs back. The two time formatters are proved against these.
- `lesson_player.dfy`: the lesson session as a class. It holds the step
  index, the 300-second countdown, the pause flag and the captured answers.
  It also has the JavaScript sparse-array answer update, the blank test
  (`trim`), the completion-rate quiz score and the `m:ss` formatter.
- `chart_view.dfy`: the chart checklist as a class over an `array<bool>`.
  Loading is a fill loop; toggling is a copy loop followed by a flip.
- `assessment_view.dfy`: the assessment session as a class. It has answer
  selection, the `canSubmit` guard, the scoring loop, the rounded percentage
  and the 70 % pass mark.
- `progress.dfy`: the progress record as the backend returns it.
- `progress_view.dfy`: the progress page's pure folds. These are overall
  stats, the distinct-module list, the module filter, per-module stats, the
  `Hh Mm` formatter and the insight thresholds.
- `progress_service.dfy`: the `user_progress` table as a map from the unique
  key (user, module, week, day) to the other columns. It has the
  insert-or-update as a method on a store class, and the per-user query
  ordered by week and day.

Rows with the same week and day may come back in any order, because
`ORDER BY week, day` does not fix it. The query is therefore specified by
what any valid answer satisfies: it is sorted, and it is a permutation of
the user's rows. The ordered list is built by repeatedly taking some row of
least (week, day).

## Model

| member | source | states |
|---|---|---|
| Rounding.RoundDiv | frontend/src/components/AssessmentView.tsx:57 | the result r is the nearest integer to a/b with halves rounded up: 2br <= 2a+b < 2b(r+1) |
| Rounding.RoundPercent | frontend/src/components/LessonPlayer.tsx:94 | `Math.round(p/q*100)` is the r with 2qr <= 200p+q < 2q(r+1), and at most 100 when p <= q |
| Rounding.PercentIsFull | frontend/src/components/AssessmentView.tsx:57 | the rounded percentage is 100 exactly when 200p >= 199q |
| Rounding.PercentIsZero | frontend/src/components/AssessmentView.tsx:57 | the rounded percentage is 0 exactly when 200p < q |
| Rounding.PercentExtremes | frontend/src/components/AssessmentView.tsx:57 | below 200 items, 100 % means p == q and 0 % means p == 0 |
| Decimal.NatToString | frontend/src/components/LessonPlayer.tsx:128 | `toString` of a natural number: non-empty digits, no leading zero, one digit below 10, two digits from 10 to 99 |
| Decimal.ValueOfNatToString | frontend/src/components/LessonPlayer.tsx:128 | reading the printed digits back gives the number |
| Decimal.PadStart | frontend/src/components/LessonPlayer.tsx:128 | `padStart(width, fill)`: length max(width, \|s\|), s as suffix, fill characters before it |
| Decimal.ValueIgnoresLeadingZeros | frontend/src/components/LessonPlayer.tsx:128 | leading zeros do not change a digit string's value |
| Decimal.SpanDigitsOf | frontend/src/components/ProgressView.tsx:87 | a digit run followed by a non-digit splits at the non-digit |
| LessonPlayer.SetSlot | frontend/src/components/LessonPlayer.tsx:78-79 | `stepAnswers[q] = answer`: slot q holds the answer, every other slot is unchanged, and growing the array leaves holes |
| LessonPlayer.TrimEmptyIffBlank | frontend/src/components/LessonPlayer.tsx:92 | `answer.trim()` is empty exactly when every character is JavaScript white space or a line terminator |
| LessonPlayer.TrimStart | frontend/src/components/LessonPlayer.tsx:92 | a suffix of the answer that is empty or starts with a non-space; the prefix it drops is all white space (TrimStartDropsBlank) |
| LessonPlayer.TrimStartDropsBlank | frontend/src/components/LessonPlayer.tsx:92 | every character `trimStart` removes is white space |
| LessonPlayer.TrimEnd | frontend/src/components/LessonPlayer.tsx:92 | a prefix of the answer that is empty or ends with a non-space; the suffix it drops is all white space (TrimEndDropsBlank) |
| LessonPlayer.TrimEndDropsBlank | frontend/src/components/LessonPlayer.tsx:92 | every character `trimEnd` removes is white space |
| LessonPlayer.Trim | frontend/src/components/LessonPlayer.tsx:92 | `answer.trim()`: no longer than the answer, and neither starting nor ending with white space; empty exactly for blank answers (TrimEmptyIffBlank) |
| LessonPlayer.TrimDropsBlank | frontend/src/components/LessonPlayer.tsx:92 | `answer.trim()` is the slice s[i..j] of the answer, with only white space before i and after j |
| LessonPlayer.AnsweredCount | frontend/src/components/LessonPlayer.tsx:92 | the length of `Object.values(quizAnswers).flat().filter(a => a.trim())`: non-blank answers summed over the steps, holes skipped; its order-independence is AnsweredCountRemove |
| LessonPlayer.QuizSteps | frontend/src/components/LessonPlayer.tsx:88 | `steps.filter(step => step.type === 'quiz')`: every kept step is a quiz step of the lesson, every quiz step of the lesson is kept, and the list is empty exactly when the lesson has no quiz step |
| LessonPlayer.QuizStepsMembers | frontend/src/components/LessonPlayer.tsx:88 | a step is kept exactly when it is a step of the lesson of kind quiz |
| LessonPlayer.QuizStepsAppend | frontend/src/components/LessonPlayer.tsx:88 | the filter distributes over concatenation, so it keeps every quiz step in its original order |
| LessonPlayer.TotalQuestions | frontend/src/components/LessonPlayer.tsx:91 | the sum over the quiz steps of their question counts, a missing list counting 0; one more step adds its count exactly when it is a quiz step (TotalQuestionsStep) |
| LessonPlayer.TotalQuestionsStep | frontend/src/components/LessonPlayer.tsx:88-91 | extending the lesson by one step adds that step's question count to the total exactly when it is a quiz step |
| LessonPlayer.QuizScore | frontend/src/components/LessonPlayer.tsx:86-95 | 100 without quiz steps; otherwise the non-blank answers as a rounded percentage of the quiz questions; needs at least one question |
| LessonPlayer.AnsweredCountRemove | frontend/src/components/LessonPlayer.tsx:92 | counting over `Object.values(..).flat()` is the count of one step plus the count of the rest, for any step |
| LessonPlayer.AnsweredWithin | frontend/src/components/LessonPlayer.tsx:91-92 | answers sitting in displayed quiz slots never exceed the total question count |
| LessonPlayer.QuestionsBeforeIsTotal | frontend/src/components/LessonPlayer.tsx:88-91 | the step-by-step question count of the first n steps equals the total over their quiz steps |
| LessonPlayer.AnsweredWithinPrefix | frontend/src/components/LessonPlayer.tsx:91-92 | answers in displayed quiz slots of the first n steps never exceed those steps' question count |
| LessonPlayer.AnsweredStepWithin | frontend/src/components/LessonPlayer.tsx:92 | an answered step is a displayed quiz step, and its answers add at most its question count |
| LessonPlayer.QuizScoreInRange | frontend/src/components/LessonPlayer.tsx:86-95 | with answers only in displayed quiz slots, the score lies in 0..100 |
| LessonPlayer.RecordAnswerKeepsFit | frontend/src/components/LessonPlayer.tsx:252-261 | answering a displayed quiz question keeps every answer inside displayed slots |
| LessonPlayer.RecordAnswerCount | frontend/src/components/LessonPlayer.tsx:77-84 | one answer changes the answered count by what the slot held before and what it holds after |
| LessonPlayer.FormatTime | frontend/src/components/LessonPlayer.tsx:125-129 | the display is a digit run, a colon and exactly two digits, and the part before the colon is `mins.toString()` itself |
| LessonPlayer.FormatTimeRoundTrip | frontend/src/components/LessonPlayer.tsx:125-129 | the display reads back as (seconds / 60, seconds % 60), and mins*60 + secs == seconds with secs < 60 |
| LessonPlayer.ClockRoundTrip | frontend/src/components/LessonPlayer.tsx:128 | minutes and zero-padded seconds below 60 read back as themselves |
| LessonPlayer.LessonSession.constructor | frontend/src/components/LessonPlayer.tsx:13-20 | no lesson, step 0, a 300-second window, running, no answers |
| LessonPlayer.LessonSession.Load | frontend/src/components/LessonPlayer.tsx:49-51 | the loaded lesson restarts at step 0 with a full window; pause flag and answers kept |
| LessonPlayer.LessonSession.HasNextStep | frontend/src/components/LessonPlayer.tsx:61 | `lesson && currentStepIndex < lesson.steps.length - 1`; Next advances exactly when it holds |
| LessonPlayer.LessonSession.Next | frontend/src/components/LessonPlayer.tsx:60-68 | before the last step: the index goes up by one and the window resets to 300; on the last step or with no lesson: completion is reported and nothing changes; the index stays in range |
| LessonPlayer.LessonSession.Prev | frontend/src/components/LessonPlayer.tsx:70-75 | no-op at step 0; otherwise the index goes down by one and the window resets to 300; the index stays in range |
| LessonPlayer.LessonSession.Tick | frontend/src/components/LessonPlayer.tsx:28-42 | paused or at 0: nothing changes; above 1: the countdown drops by one; at 1: Next, then a fresh 300 |
| LessonPlayer.LessonSession.TogglePause | frontend/src/components/LessonPlayer.tsx:121-123 | the pause flag flips, nothing else changes |
| LessonPlayer.LessonSession.RecordAnswer | frontend/src/components/LessonPlayer.tsx:77-84 | only the current step's answer array changes, and within it only slot q |
| ChartView.CountTrue | frontend/src/components/ChartView.tsx:39 | `filter(Boolean).length` is at most the length |
| ChartView.Flip | frontend/src/components/ChartView.tsx:34-35 | entry index is negated and every other entry is kept; an index past the end grows the array with unticked holes |
| ChartView.FlipTwice | frontend/src/components/ChartView.tsx:35 | flipping the same task twice restores the checklist |
| ChartView.CountAfterFlip | frontend/src/components/ChartView.tsx:33-39 | ticking an unticked task raises the count by one; unticking lowers it by one |
| ChartView.CountTrueFull | frontend/src/components/ChartView.tsx:39 | the count equals the length exactly when every task is ticked |
| ChartView.AllCompleteIffAllTicked | frontend/src/components/ChartView.tsx:90 | the completion message shows exactly when there is a task and all are ticked, so an empty list is never complete |
| ChartView.IsAllComplete | frontend/src/components/ChartView.tsx:90 | `completedCount === totalTasks && totalTasks > 0`; over a checklist it means a non-empty list with every box ticked (AllCompleteIffAllTicked) |
| ChartView.LastTickCompletes | frontend/src/components/ChartView.tsx:33-90 | with N-1 of N ticked, ticking the last one completes the checklist |
| ChartView.ChecklistTracker.constructor | frontend/src/components/ChartView.tsx:7-10 | no tasks and an empty checklist, one box per task (none) |
| ChartView.ChecklistTracker.Load | frontend/src/components/ChartView.tsx:23-24 | a new checklist, one unticked entry per task, so the box count is the task count |
| ChartView.ChecklistTracker.Toggle | frontend/src/components/ChartView.tsx:33-37 | the stored checklist is a new array equal to the old one with entry index flipped; for a displayed box the box count stays the task count, the completed count moves by exactly one, and ticking the last unticked box shows the completion message |
| ChartView.ChecklistTracker.CompletedCount | frontend/src/components/ChartView.tsx:39-40 | at most the number of entries, and so at most `totalTasks` while one box per task is kept; equal to the entry count exactly when all are ticked |
| ChartView.ChecklistTracker.TotalTasks | frontend/src/components/ChartView.tsx:40 | `chartTasks?.chart_tasks.length \|\| 0`: the task count, 0 before loading |
| ChartView.ChecklistTracker.AllComplete | frontend/src/components/ChartView.tsx:90 | with one box per task, the completion message shows exactly when there is a box and every box is ticked |
| AssessmentView.CorrectUpTo | frontend/src/components/AssessmentView.tsx:51-55 | the exact matches among the first n questions are at most n |
| AssessmentView.IsCorrect | frontend/src/components/AssessmentView.tsx:118-120 | `userAnswers[index] === question.answer`: an unanswered question is never correct |
| AssessmentView.CorrectCount | frontend/src/components/AssessmentView.tsx:49-55 | the final `correctCount`, at most the question count and equal to the number of questions the review marks correct |
| AssessmentView.CorrectCountIsTicks | frontend/src/components/AssessmentView.tsx:118-120 | the counter equals the number of questions the review marks correct |
| AssessmentView.CorrectUpToExtremes | frontend/src/components/AssessmentView.tsx:51-55 | the counter is n exactly when all are correct and 0 exactly when none are |
| AssessmentView.Score | frontend/src/components/AssessmentView.tsx:57 | the rounded percentage characterization, at most 100 when correct <= total |
| AssessmentView.ScoreExtremes | frontend/src/components/AssessmentView.tsx:48-57 | for 1..199 questions, the score is 100 exactly when all answers match and 0 exactly when none do |
| AssessmentView.PassedIffRatio | frontend/src/components/AssessmentView.tsx:106 | a score >= 70 holds exactly when 200*correct >= 139*total |
| AssessmentView.Passed | frontend/src/components/AssessmentView.tsx:106 | `score >= 70`; in terms of answers it is 200*correct >= 139*total (PassedIffRatio) |
| AssessmentView.Below | frontend/src/components/AssessmentView.tsx:118 | the question indices 0..n-1, n of them |
| AssessmentView.CanSubmitIffAllAnswered | frontend/src/components/AssessmentView.tsx:70-72 | with answers only to displayed questions, `canSubmit` holds exactly when every question is answered |
| AssessmentView.CanSubmit | frontend/src/components/AssessmentView.tsx:70-72 | `canSubmit`: false without an assessment; otherwise the answered count equals the question count, which means every question is answered (CanSubmitIffAllAnswered) |
| AssessmentView.AssessmentSession.ReadyToSubmit | frontend/src/components/AssessmentView.tsx:70-72 | the session's guard: false without an assessment; with answers only to displayed questions, true exactly when every question is answered |
| AssessmentView.AssessmentSession.constructor | frontend/src/components/AssessmentView.tsx:11-14 | no assessment, no answers, not submitted, no score |
| AssessmentView.AssessmentSession.Load | frontend/src/components/AssessmentView.tsx:28-29 | the assessment is stored; answers and results are kept |
| AssessmentView.AssessmentSession.SelectAnswer | frontend/src/components/AssessmentView.tsx:38-43 | only that question's answer is overwritten |
| AssessmentView.AssessmentSession.Submit | frontend/src/components/AssessmentView.tsx:45-59 | no assessment: nothing changes; otherwise submitted, with the score of the exact-match count |
| ProgressView.CompletedCount | frontend/src/components/ProgressView.tsx:54 | the completed records are at most all records |
| ProgressView.ScoredCount | frontend/src/components/ProgressView.tsx:57 | the number of records with a quiz score, at most the record count |
| ProgressView.ScoreSum | frontend/src/components/ProgressView.tsx:56-58 | the sum of the present quiz scores; between 0 and 100 per score when scores are percentages (ScoreSumWithin) |
| ProgressView.TotalTime | frontend/src/components/ProgressView.tsx:59-61 | the sum of the present time-spent values, never negative when none of them is |
| ProgressView.OverallStatsOf | frontend/src/components/ProgressView.tsx:53-70 | totals are the record count and completed count; completion rate 0 for no records, else the rounded percentage, in 0..100; average 0 with no scores, else the rounded mean; hours rounded to tenths |
| ProgressView.ScoreSumWithin | frontend/src/components/ProgressView.tsx:56-58 | scores in 0..100 sum to at most 100 per scored record |
| ProgressView.AverageScoreInRange | frontend/src/components/ProgressView.tsx:56-65 | with scores in 0..100, the average score is in 0..100 |
| ProgressView.AllCompletedCount | frontend/src/components/ProgressView.tsx:54 | when every lesson is completed, the completed count is the record count |
| ProgressView.FirstIndex | frontend/src/components/ProgressView.tsx:46 | the position of the first occurrence |
| ProgressView.Dedup | frontend/src/components/ProgressView.tsx:46 | `Array.from(new Set(..))`: no duplicates, the same elements, first-occurrence order |
| ProgressView.Modules | frontend/src/components/ProgressView.tsx:45 | the module of each record, in order |
| ProgressView.UniqueModules | frontend/src/components/ProgressView.tsx:44-47 | `'all'` first, then the distinct modules |
| ProgressView.FilterByModule | frontend/src/components/ProgressView.tsx:51 | exactly the records of that module |
| ProgressView.FilterAppend | frontend/src/components/ProgressView.tsx:51 | the filter distributes over concatenation, so it keeps the original order |
| ProgressView.FilteredProgress | frontend/src/components/ProgressView.tsx:49-51 | `'all'` gives the list unchanged; any other module gives exactly its records |
| ProgressView.ModuleStatsOf | frontend/src/components/ProgressView.tsx:72-82 | total is that module's record count; completed is its completed-record count, at most total; the rate is 0 for an empty module and otherwise the rounded percentage completed/total, in 0..100 |
| ProgressView.OccurrencesOnce | frontend/src/components/ProgressView.tsx:46 | in a duplicate-free list, every value occurs once or not at all |
| ProgressView.ModuleTotalsCover | frontend/src/components/ProgressView.tsx:72-81 | per-module totals over a duplicate-free cover of the modules sum to the record count |
| ProgressView.ModuleCardsCoverRecords | frontend/src/components/ProgressView.tsx:156 | the module cards' totals sum to the record count |
| ProgressView.HoursMinutes | frontend/src/components/ProgressView.tsx:84-86 | minutes < 60 and h*3600 + m*60 <= seconds < h*3600 + m*60 + 60 |
| ProgressView.FormatTimeRoundTrip | frontend/src/components/ProgressView.tsx:84-88 | `Hh Mm` reads back as the hours and minutes |
| ProgressView.FormatTime | frontend/src/components/ProgressView.tsx:84-88 | `${hours}h ${minutes}m`: starts with `hours.toString()` followed by `h `, ends with `minutes.toString()` followed by `m`; it reads back as HoursMinutes (FormatTimeRoundTrip) |
| ProgressView.DurationRoundTrip | frontend/src/components/ProgressView.tsx:87 | any hours and minutes printed as `Hh Mm` read back as themselves |
| ProgressView.ScoreInsightMonotone | frontend/src/components/ProgressView.tsx:225-240 | a higher average never gives a lower insight: 80 for excellent, 60 for good |
| ProgressView.ScoreInsightFor | frontend/src/components/ProgressView.tsx:225-240 | the score card: excellent from 80, good from 60, keep learning below; ordered by ScoreInsightMonotone |
| ProgressView.ConsistencyInsightFor | frontend/src/components/ProgressView.tsx:242-252 | the consistency card: great consistency from a completion rate of 80, stay consistent below |
| ProgressView.AllCompletedIsConsistent | frontend/src/components/ProgressView.tsx:242 | all lessons completed gives 100 % and the consistency card (threshold 80) |
| ProgressService.Upsert | backend/app/services/progress_service.py:26-39 | key set becomes old keys plus the request's key; a new key adds one row with topic ""; an existing key keeps its topic and gets the four new columns; completed_at is now exactly when completed, else null; other rows unchanged |
| ProgressService.UpsertIdempotent | backend/app/services/progress_service.py:30-34 | the same update twice at the same moment equals it once |
| ProgressService.MinKeyExists | backend/app/services/progress_service.py:61 | a non-empty table has a row of least (week, day) |
| ProgressService.RecordsOfRemove | backend/app/utils/database.py:86 | removing a key removes exactly its record, since the key determines the row |
| ProgressService.Ordered | backend/app/services/progress_service.py:61 | sorted by (week, day) and a permutation of the table's records |
| ProgressService.MinHeadFirst | backend/app/services/progress_service.py:61 | the row of least (week, day) is no later than any other row's record |
| ProgressService.ConsSorted | backend/app/services/progress_service.py:61 | putting a record that precedes a sorted list at its front keeps it sorted |
| ProgressService.ConsRecords | backend/app/services/progress_service.py:61 | one row's record followed by the others' is the table's whole multiset of records |
| ProgressService.SortedByWeekDay | backend/app/services/progress_service.py:61 | `ORDER BY week, day`: every earlier record has a smaller week, or the same week and a day no later |
| ProgressService.UserRows | backend/app/services/progress_service.py:60 | exactly the rows of that user |
| ProgressService.GetUserProgress | backend/app/services/progress_service.py:58-64 | sorted by (week, day), each of the user's rows exactly once, and only the user's rows |
| ProgressService.UpdateIsVisible | backend/app/services/progress_service.py:26-63 | after an update, the user's query contains the row just written |
| ProgressService.UpdateKeepsOtherUsers | backend/app/services/progress_service.py:26-39 | an update leaves every other user's rows as they were |
| ProgressService.ProgressStore.constructor | backend/app/utils/database.py:70-90 | an empty table |
| ProgressService.ProgressStore.UpdateUserProgress | backend/app/services/progress_service.py:18-41 | the table becomes the upsert of the old table; the reply is status "success", message "Progress updated" |

## Left out

- Timers: `setInterval`, `clearInterval` and the effect lifecycle are left out because they are runtime machinery. One tick is a method call, `Tick`.
- Wall-clock time: `Date.now()` and `datetime.now()` are left out because clocks are I/O. The server time is the parameter `now`, and the lesson's time-spent computation is not modelled.
- The completion report: `handleLessonComplete` calls the API with a hard-coded module, week and day, and then navigates. `Next` and `Tick` only return `completed`.
- Lesson and content generation: loading failures and the generation calls are left out because they are network calls. `Load` takes the content that arrived.
- Rendering: routing, URI decoding, JSX and `toLocaleDateString` are left out because they are UI.
- Database plumbing: connection failures and the HTTP 500 replies are left out because they are I/O errors. `UpdateUserProgress` is the committed path.
- Database columns: the foreign key to `users`, the text-to-INT coercion of `user_id`, and the `id`, `created_at` and `updated_at` columns are left out. They are database behaviour outside the upsert's logic. User ids are compared as strings.
- ProgressService.Upsert: module names in the key are compared exactly. MySQL compares them under the server's default collation, which ignores case, so there "Forex" and "forex" are one key and the second request updates the first row; the model keeps two rows.
- The `save_*` logging inserts are left out because they do no upsert or query logic.
- Logging and integer width: the `console.log` of an assessment result and the `logger.error` calls on database errors are left out as output side effects. The `week`, `day`, `quiz_score` and `time_spent` columns are 32-bit `INT` in MySQL, so an out-of-range value makes the insert fail. The model's integers are unbounded and it always inserts.
- The AI service, its canned payloads and the route that calls a missing function are left out because they are a foreign service and static data.
- Rounding: `Math.round` of floating-point ratios is modelled exactly. Floating-point results that land a hair below a half may round differently in JavaScript.
- OverallStatsOf: the average adds score/count per element in floating point; the model uses the exact mean, rounded.
- NaN and Infinity: a lesson with quiz steps but zero questions divides by zero. The result is NaN when no answers are held, and Infinity when answers from an earlier lesson are still held, because loading a lesson keeps them. An assessment with zero questions yields NaN. `QuizScore` and `AssessmentSession.Submit` require these cases away.
- LessonPlayer.FormatTime: the argument is a natural number, because the countdown is never negative.
- ProgressView.HoursMinutes: the argument is a natural number, but a stored `time_spent` may be any integer. JavaScript prints a negative one as, for example, `-1h -1m`, and the model does not cover that case. ProgressView.FormatTime has the same limit.
- AssessmentView.ScoreExtremes: "100 % exactly when all answers are correct" holds only below 200 questions. With 199 of 200 correct the rounded score is already 100, so the lemma is stated for 1..199 questions. For any count, Rounding.PercentIsFull gives the exact condition for 100 % (200*correct >= 199*total) and Rounding.PercentIsZero the one for 0 % (200*correct < total).
- LessonPlayer.LessonSession.RecordAnswer: the source mutates the stored step array in place before copying the map; the model updates the array as a value, so aliasing with the previous state is not captured.
- ChartView.Flip: a checkbox index past the end makes JavaScript grow the array with holes; the model grows it with unticked entries, which reads the same for the count.
- ProgressView.FilteredProgress: a module literally named "all" cannot be selected on its own; the model shows this as the source does.
- ProgressService.GetUserProgress: the order among rows with equal (week, day) is fixed by an arbitrary choice; the contract allows any order, as SQL does.
