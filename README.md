# CAT CPNS exam core in Dafny

A model of the core of a computer-based test (CAT) for the Indonesian civil
service entrance exam (CPNS). The back end is a Laravel API and the front end
a React page. Questions belong to three categories:

- TWK: national insight;
- TIU: general intelligence;
- TKP: personal characteristics.

The model covers:

- **Catalog** (`catalog.dfy`): the `questions` table and its validation rules.
  - `index` lists every active question without its answer key.
  - The admin-only operations are `store`, `update` (a partial update) and
    `destroy`, behind the `admin` middleware.
  - The table is a class: a sequence of rows in id order, plus the next
    auto-increment id.
- **Scoring** (`scoring.dfy`): `calculateResults`.
  - One loop keeps seven counters.
  - After the loop come the percentage and the pass flag (pass mark 65).
- **Exams** (`exams.dfy`): the `exams` table, as a class.
  - `start` inserts an exam in progress.
  - `submit` moves an exam from in progress to submitted, exactly once and
    only for its owner.
  - `history` and `detail` are read views.
- **Client** (`client.dfy`): the parts of the React page that stand on their
  own.
  - `formatTime`.
  - The exam page state as a class: answer selection, previous/next/jump
    navigation, the countdown with auto-submit, the submit guard, and the
    resets on start and logout.
  - The unanswered-question warning and the answer review.
- **Common** (`common.dfy`): shared types.
  - `Option` stands for null/undefined.
  - `ApiError` lists the error responses.
  - `User` is the authenticated caller, and `IsAdmin` is the middleware
    check.

The model makes these choices:

- Request handling is a function or method of the stored rows and the
  request. The caller (`$request->user()`) and the time (`now()`) are
  parameters.
- A `Result` carries either the response data or the error the controller or
  middleware returns instead.
- A percentage is an exact natural number of hundredths: 6667 stands for
  66.67.
- A clock value is integer seconds.

## Model

| member | source | states |
|---|---|---|
| Catalog.Created | app/Http/Controllers/Api/QuestionController.php:31-39 | the row `store` inserts is well formed, carries the new id and the validated fields, and is active (column default) |
| Catalog.Patch | app/Http/Controllers/Api/QuestionController.php:50-59 | `update` replaces exactly the supplied fields and keeps every other field and the id |
| Catalog.PatchKeepsWellFormed | app/Http/Controllers/Api/QuestionController.php:50-59 | a validated partial update of a well-formed question is well formed |
| Catalog.PatchIdempotent | app/Http/Controllers/Api/QuestionController.php:59 | sending the same update twice equals sending it once |
| Catalog.Active | app/Http/Controllers/Api/QuestionController.php:13 | `active()` keeps exactly the active rows and no more rows than the table |
| Catalog.AllActive | app/Http/Controllers/Api/QuestionController.php:13 | with no deactivated row, `active()` returns the whole table in order |
| Catalog.Lookup | app/Http/Controllers/Api/QuestionController.php:48 | route-model binding finds a row with that id, or reports that none exists |
| Catalog.Index | app/Http/Controllers/Api/QuestionController.php:11-27 | the listing has one entry per active question, shows every active question and nothing else, with only id, category, text and options |
| Catalog.ActiveSameButAnswers | app/Http/Controllers/Api/QuestionController.php:13 | filtering on `is_active` does not look at the answer key |
| Catalog.IndexHidesAnswers | app/Http/Controllers/Api/QuestionController.php:13-20 | the listing is identical for any two tables that differ only in correct answers |
| Catalog.InactiveNotListed | app/Http/Controllers/Api/QuestionController.php:13 | a deactivated question stays in the table but no listed entry has its id |
| Catalog.RemoveRow | app/Http/Controllers/Api/QuestionController.php:70 | deleting a row keeps the table invariant, removes that id and keeps every other row |
| Catalog.QuestionTable.constructor | database/migrations/0001_01_01_000003_create_question_table.php:10-18 | an empty table whose first id is 1 |
| Catalog.QuestionTable.Store | app/Http/Controllers/Api/QuestionController.php:29-46 | a non-admin gets Forbidden; invalid input gets ValidationError with the table unchanged; otherwise exactly one new active row is appended with the next id |
| Catalog.QuestionTable.Update | app/Http/Controllers/Api/QuestionController.php:48-66 | Forbidden for a non-admin, NotFound for an unknown id, ValidationError for invalid fields, otherwise only the addressed row is replaced by its patch |
| Catalog.QuestionTable.Destroy | app/Http/Controllers/Api/QuestionController.php:68-76 | Forbidden for a non-admin; NotFound exactly when the id is unknown; an admin naming a known id always succeeds, and then the row is removed and every other row kept |
| Scoring.Percentage | app/Http/Controllers/Api/ExamController.php:125-132 | 0 without questions; otherwise the nearest hundredth of the exact ratio, halves up; never above 100.00 |
| Scoring.CalculateResults | app/Http/Controllers/Api/ExamController.php:89-138 | the loop's seven counters equal the per-category totals, per-category scores and overall count of the independent recursive counts |
| Scoring.ScoresSumToCorrect | app/Http/Controllers/Api/ExamController.php:104-122 | the three category scores add up to the correct count |
| Scoring.ScoreWithinTotal | app/Http/Controllers/Api/ExamController.php:104-122 | no category scores more than it has questions |
| Scoring.TotalsCoverQuestions | app/Http/Controllers/Api/ExamController.php:104-125 | the category totals never exceed the question count, and equal it exactly when every category is in the enum |
| Scoring.CorrectWithinTotal | app/Http/Controllers/Api/ExamController.php:101-125 | the correct count never exceeds the question count |
| Scoring.ReportConsistent | app/Http/Controllers/Api/ExamController.php:89-138 | every numeric promise of the report at once: sums, bounds, 0% and a fail without questions |
| Scoring.TotalsMatchCatalog | app/Http/Controllers/Api/ExamController.php:101-125 | with the catalog's enum categories, the three totals add up to the number of active questions |
| Scoring.NoAnswersNoScore | app/Http/Controllers/Api/ExamController.php:102-106 | a missing answer is null, which never equals a key: no answers score 0 and fail |
| Scoring.OutOfRangeAnswerIsWrong | app/Http/Controllers/Api/ExamController.php:106 | an answer outside 0..3 never matches a stored key |
| Scoring.PassShowsAtLeastMark | app/Http/Controllers/Api/ExamController.php:126-132 | a pass always shows at least 65.00, and a shown value below 65.00 is a fail |
| Scoring.RoundedMarkIsNotAPass | app/Http/Controllers/Api/ExamController.php:126-132 | 661 of 1017 shows 65.00 but fails, since the flag uses the unrounded ratio |
| Scoring.TwoOfThreeExample | app/Http/Controllers/Api/ExamController.php:89-138 | two of three right gives 66.67 and a pass |
| Scoring.EmptyAnswersExample | app/Http/Controllers/Api/ExamController.php:89-138 | no answers against two questions gives 0, 0.00 and a fail |
| Scoring.ByCategoryExample | app/Http/Controllers/Api/ExamController.php:89-138 | per-category tallies 2/2, 0/1, 1/1 give 3 of 4, 75.00 and a pass |
| Exams.ScoredColumnsAddUp | app/Http/Controllers/Api/ExamController.php:60-76 | the score columns `submit` writes from a computed report add up: category scores sum to the correct count, none exceeds its total, the percentage is at most 100.00 and a pass shows at least 65.00 |
| Exams.Started | app/Http/Controllers/Api/ExamController.php:16-21 | the new exam belongs to the caller, starts now, has no answers, is in progress and records the active-question count |
| Exams.Finished | app/Http/Controllers/Api/ExamController.php:63-76 | the finish time, the duration since start, the answers and the scores are all set together; identity and start stay |
| Exams.FindExam | app/Http/Controllers/Api/ExamController.php:41 | finds a row with that id, or reports that none exists |
| Exams.FindExamUnique | app/Http/Controllers/Api/ExamController.php:41 | with auto-increment ids each stored exam is found at its own position |
| Exams.ExamTable.constructor | database/migrations/0001_01_01_000004_create_exam_table.php:11-29 | an empty table whose first id is 1 |
| Exams.ExamTable.Start | app/Http/Controllers/Api/ExamController.php:14-31 | appends an in-progress exam for the caller and returns its id and start time |
| Exams.ExamTable.Submit | app/Http/Controllers/Api/ExamController.php:33-87 | ValidationError or an unknown id, Unauthorized for another owner, AlreadySubmitted for a finished exam, each leaving the table unchanged; otherwise only that exam is finished with the report of the current catalog; a submitted exam never changes, and every stored score keeps the promises of `ScoredColumnsAddUp` |
| Exams.OwnSubmitted | app/Http/Controllers/Api/ExamController.php:142-143 | exactly the caller's exams that have a finish time |
| Exams.History | app/Http/Controllers/Api/ExamController.php:140-151 | exactly the caller's submitted exams, each as often as stored, latest finish first |
| Exams.Reviews | app/Http/Controllers/Api/ExamController.php:166-178 | one review per active question in order, with its id, category, text, options and key, the user's answer or null, and a correct mark exactly when they are equal |
| Exams.Detail | app/Http/Controllers/Api/ExamController.php:153-187 | NotFound exactly for an unknown id, Unauthorized exactly for another owner, and the owner of a found exam always gets the exam with the review of every question the catalog holds active now |
| Exams.ReviewsAgreeWithScore | app/Http/Controllers/Api/ExamController.php:101-123 | the review marks as many questions correct in the three categories as the scoring counts |
| Exams.DetailMatchesStoredScore | app/Http/Controllers/Api/ExamController.php:166-177 | against the catalog the exam was scored with, the review agrees with the stored correct count |
| Exams.DetailBeforeSubmitRevealsKey | app/Http/Controllers/Api/ExamController.php:153-177 | for an exam still in progress (no answers stored yet), `detail` already returns every correct answer and marks nothing correct |
| Exams.SubmittedDetail | app/Http/Controllers/Api/ExamController.php:153-187 | the corrected `detail` answers only for a submitted exam, refuses an exam in progress, and otherwise gives `detail`'s own answer or refusal |
| Exams.SubmittedDetailHidesKey | app/Http/Controllers/Api/ExamController.php:153-187 | the corrected `detail` gives no key before submission and behaves like `detail` after it |
| Exams.StoreBetweenStartAndSubmit | app/Http/Controllers/Api/ExamController.php:20 | a question stored between start and submit is scored, but was not counted in the recorded total |
| Exams.RepeatedSubmitExample | app/Http/Controllers/Api/ExamController.php:43-57 | a second submit is refused as already submitted, and a submit by another user as unauthorized |
| Client.Decimal | resources/js/app.jsx:311 | `toString()` produces a non-empty string of decimal digits with no leading zero |
| Client.ValueOfDecimal | resources/js/app.jsx:311 | the printed digits read back as the number |
| Client.Pad2 | resources/js/app.jsx:311 | `padStart(2, '0')` keeps the value; exactly two digits below 100, and from 100 on the unpadded digits |
| Client.Fields | resources/js/app.jsx:308-310 | hours, minutes and seconds recombine to the input, with minutes and seconds below 60 |
| Client.FieldsUnique | resources/js/app.jsx:308-310 | those are the only such fields |
| Client.FormatTimeShape | resources/js/app.jsx:307-312 | the display has two colons, two-digit minutes and seconds, and is 8 characters exactly below 100 hours |
| Client.FormatTimeRoundTrip | resources/js/app.jsx:307-312 | reading the display back gives the number of seconds: no two times share a display |
| Client.FormatTimeExamples | resources/js/app.jsx:307-312 | 3600 shows `01:00:00`, 0 shows `00:00:00`, 360000 shows `100:00:00` |
| Client.CountAnsweredIsOverlap | resources/js/app.jsx:683 | with distinct ids, the answered questions number as many as the answer keys that are question ids |
| Client.UnansweredShownIsExact | resources/js/app.jsx:683-834 | when only displayed questions were answered, the warning's count is exactly the unanswered questions and never negative |
| Client.ReviewMarkAsWritten | resources/js/app.jsx:985-987 | the review as written marks a question correct exactly when it is unanswered |
| Client.ReviewAsWrittenInverts | resources/js/app.jsx:985-987 | a right answer is shown wrong and a missing answer shown right |
| Client.ReviewMark | resources/js/app.jsx:985-987 | the corrected mark: correct exactly when the chosen option equals the key |
| Client.ReviewMarksAgreeWithServer | resources/js/app.jsx:985-987 | the corrected marks equal the `is_correct` marks of the server's `detail` |
| Client.ExamPage.constructor | resources/js/app.jsx:109-116 | the initial exam state: inactive, no exam, question 0, no answers, 3600 s, no start |
| Client.ExamPage.StartExam | resources/js/app.jsx:217-248 | loaded questions and a fresh active state for the new exam |
| Client.ExamPage.HandleAnswerSelect | resources/js/app.jsx:250-258 | sets the answer of a question on the page and keeps every other answer |
| Client.ExamPage.Previous | resources/js/app.jsx:780-783 | steps back one question, never below 0 |
| Client.ExamPage.Next | resources/js/app.jsx:807-812 | steps forward one question, never past the last |
| Client.ExamPage.JumpTo | resources/js/app.jsx:792-794 | moves to the chosen question |
| Client.ExamPage.Tick | resources/js/app.jsx:143-156 | one second off while active with time left; submit triggered exactly when active at zero; the timer never goes negative |
| Client.ExamPage.SubmitRequest | resources/js/app.jsx:260-267 | no request without a (truthy) exam id, otherwise one carrying the id and the answers |
| Client.ExamPage.SubmitSucceeded | resources/js/app.jsx:269-271 | the exam is no longer active |
| Client.ExamPage.Logout | resources/js/app.jsx:283-305 | the exam state is back to its initial values |
| Client.ExamPage.AnsweredCount | resources/js/app.jsx:683 | zero exactly when no answer was given |
| Client.ExamPage.UnansweredCount | resources/js/app.jsx:828-834 | the warning's count on the page: exactly the unanswered questions and never negative, given distinct question ids |
| Client.ExamPage.Review | resources/js/app.jsx:981-987 | the page's review uses the corrected mark, matching the server's review question by question |

## Left out

- HTTP, JSON, and the routing and authentication stack (Sanctum tokens) are
  not modelled. Requests are calls with the caller as a parameter.
- Status codes are reduced to `ApiError`: 422 ValidationError, 403
  Unauthorized or Forbidden, 400 AlreadySubmitted, 404 NotFound.
- `now()` is a parameter. The duration is stored as finish minus start in
  seconds. The sign convention of Carbon's `diffInSeconds`, which differs
  between Carbon versions, is not modelled.
- Percentages are exact hundredths, not PHP floats. PHP's `round` of a float
  can differ from exact half-up rounding when a value lies within one ulp of
  a half. The `decimal(5,2)` column holds the same hundredths.
- Validation is reduced to the rules:
  - a missing field is `None`;
  - an empty string is rejected: under `store`'s `required` it counts as
    missing, and under `update`'s `sometimes|string` it arrives as null
    after Laravel's empty-string conversion and fails `string`;
  - Laravel's trimming of input strings is not modelled.
- A numeric string accepted by the `integer` rule is taken to arrive as the
  integer. As a string it would never be `===` to a key; the model does not
  capture that.
- The strict comparisons of `user_id` (ExamController.php lines 44 and 158)
  and of `correct_answer` (lines 106, 112, 118 and 176) are taken to compare integers.
  The `Exam` model casts neither column and the `Question` model is not part
  of this model, so this assumes the database driver returns them as PHP
  integers; as strings, every owner check would refuse and no answer would
  count as correct.
- `update` and `destroy` are modelled with the `admin` check before the
  route-model binding, so Forbidden comes before NotFound. This is an
  assumption: the application's middleware configuration is not part of this
  model, and in a stock Laravel application `SubstituteBindings` runs first,
  so a non-admin asking for an unknown id would get NotFound instead.
- Concurrency is not modelled. Two `submit` calls for the same exam cannot
  race in the model, because each method is atomic.
- `setInterval` and React's effect scheduling are left out. One `Tick` is one
  run of the countdown effect. While time is left the effect runs once per
  second; at 0 the source runs it once, calls `handleSubmitExam` and sets no
  further interval, so only the first `Tick` at 0 stands for something the
  page does.
- Rendering, page switching, the loading and error flags, `localStorage`,
  `examResults` and `examHistory` are not modelled.
- The failing paths of `handleStartExam` and `handleSubmitExam` are not
  modelled; they leave the exam state unchanged.
- The page reads an `examQuestions` list that `app.jsx` never defines. The
  model takes it to be the loaded `questions`.
- The `Question` model is not part of this model. Its `active()` scope is
  taken to select the rows with `is_active` true, in table order. `store` and
  `update` are taken to write every validated field, so `category`,
  `question`, `options`, `correct_answer` and `is_active` are assumed
  fillable, and `options` is assumed cast to an array.
- resources/js/appzz.jsx, the seeder and the `User` and `Question` models are
  not part of this model.
- A table is a sequence of rows in id order, not a database. Queries without
  an order keep table order, which is the insertion order of auto-increment
  ids.
- The cascade delete of exams with their user is not modelled.
- `submit` rejects an empty answers object: `required` fails on an empty
  array, so an exam with no answer at all cannot be submitted.
  `calculateResults` itself would give 0 and a fail for an empty map;
  `NoAnswersNoScore` states that.
- `submit` rejects an unknown exam id through its `exists` rule (422), so
  `findOrFail` never fails there.
- The pass flag is taken on the unrounded ratio, not on the stored
  two-decimal value; `RoundedMarkIsNotAPass` shows where the two differ.
- `Exams.ExamTable.Start` counts the questions active at start. That total
  can differ from the total `submit` scores against; see
  `StoreBetweenStartAndSubmit`.

## Findings

| source | as written | input that shows it | evidently intended | confidence | as-written member | corrected member |
|---|---|---|---|---|---|---|
| resources/js/app.jsx:985-987 | the review compares the answer with `q.correctAnswer`, a field the question listing never sends, so both are `undefined` exactly for unanswered questions | question 1 with key 2, answered 2: shown wrong; left unanswered: shown right | mark a question correct when the chosen option equals its answer key, taken from `detail` | high, not executed | Client.ReviewAsWrittenInverts | Client.ReviewMarksAgreeWithServer |
| app/Http/Controllers/Api/ExamController.php:153-177 | `detail` never checks that the exam is finished, so it returns every correct answer while the exam is running; `index` deliberately withholds them | start an exam, then request `/exam/{id}` before submitting | answer `detail` only for submitted exams | medium, not executed | Exams.DetailBeforeSubmitRevealsKey | Exams.SubmittedDetailHidesKey |
