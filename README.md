# Quiz application: scoring and table operations

This project models the core of a small Flask quiz application (`app.py`).
Students submit answers to multiple-choice questions and get a score. The
application keeps every score and offers a screen to manage the questions.
The model covers five things:

- the scoring pass of the quiz handler. A submission earns one point for every
  stored question whose answer field, named `str(id)`, holds exactly that
  question's `correct_option`;
- the append of one score row per submission;
- the result page's lookup of the first score row with a given name;
- the reset of the score table;
- the add, edit and delete actions on the question table, and the start-up
  seeding of five sample questions.

The database is replaced by a store class `QuizApp.QuizStore` with two fields:

- `questions`: a map from id to a six-field `Question` row;
- `scores`: a sequence of `StudentScore` rows in insertion order.

A submitted form is a map from field name to the first value sent under that
name. Every way the modelled handlers can raise becomes a `Failure` value:
- a missing form field (`KeyError`);
- a question id that `int()` rejects (`ValueError`). This includes a digit
  string longer than Python's default limit of 4300 digits;
- a question id outside SQLite's signed 64-bit INTEGER range, which raises
  `OverflowError` when `Query.get` binds it;
- an absent question (`Query.get` gives `None`, which is then used);
- an absent result row.

A failing request commits nothing, so the store is unchanged after it.

Modules:

- `QuizData` (quiz_data.dfy): the row types, forms, failures and `Option`/`Result`.
- `Decimal` (decimal.dfy): `str()` of an int and the part of `int()` used to
  read question ids back, with their round trip.
- `Scoring` (scoring.dfy): the score as a set cardinality. Also the scoring
  loop, an order-independent list fold, and lemmas about bounds, full marks
  and zero.
- `Tables` (tables.dfy): reading a question, an edit request and a delete
  request out of a form. Also the three table changes stated as relations
  between the table before and after, their effect on later scores, and the
  first-by-name lookup.
- `QuizApp` (app.dfy): the store class and its handlers, SQLite's choice of a
  new id, the sample questions and the Alice scenario.

## Model

| member | source | states |
|---|---|---|
| Decimal.Digits | app.py:35 | the decimal digits of a natural number are all digits, with no leading zero, and the first is `0` only for zero |
| Decimal.IntToString | app.py:35 | `str(n)` begins with `-` exactly when n is negative, and otherwise consists of digits only |
| Decimal.ParseInt | app.py:85 | `int()` of the empty string fails, and so does a digit string of more than 4300 digits. A negative result comes only from a string starting with `-`, and a string of k characters gives a number of absolute value below 10^k. A result is produced only for an optional sign followed by at least one digit, so any other text, such as `abc`, fails; every digit string of 1 to 4300 digits is read |
| Decimal.ParseIntRoundTrip | app.py:85 | applying `int()` to what `str()` wrote gives back the same number, for every int of at most 4300 digits |
| Decimal.RowIdRoundTrip | app.py:85 | for every id SQLite can store, applying `int()` to what `str()` wrote gives back the same id |
| Decimal.IntToStringInjective | app.py:35 | distinct question ids get distinct answer field names |
| QuizData.Get | app.py:35 | `form.get(field)` is a value exactly when the field was sent, and then it is the sent value |
| Scoring.EarnsPoint | app.py:35-36 | a question earns its point exactly when its `str(id)` field was sent and holds exactly its correct option; a missing field earns nothing |
| Scoring.CorrectIds | app.py:34-37 | only stored questions can earn a point |
| Scoring.ScoreSubmission | app.py:33-37 | the loop's count equals the number of stored questions whose `str(id)` field holds exactly their correct option, whatever order the table is visited in |
| Scoring.ScoreIndependentOfOrder | app.py:34-37 | counting along any duplicate-free listing of the table gives the same score, so no row order the database yields can change a score |
| Scoring.Score | app.py:33-37 | the number of stored questions whose `str(id)` field holds exactly their correct option; it never exceeds the number of questions stored at submission |
| Scoring.ScoreAlong | app.py:34-37 | the same count taken row by row along a listing such as `Question.query.all()`, never more than the listing's length; Scoring.ScoreIndependentOfOrder proves it equals Scoring.Score |
| Scoring.FullMarksIffAllCorrect | app.py:33-37 | the score equals the question count if and only if every stored question is answered correctly |
| Scoring.ZeroIffNoneCorrect | app.py:33-37 | the score is 0 if and only if no stored question is answered correctly, so an empty table always scores 0 |
| Scoring.NameOnlyScoresZero | app.py:32-37 | a submission with no answer fields scores 0 against any table |
| Scoring.PointDependsOnOwnField | app.py:35-36 | changing the answer field of one question never changes whether another question earns its point |
| Tables.QuestionFromForm | app.py:68-81 | a row is built exactly when all six fields are present, and its six values are the submitted ones; otherwise the failure names a field the form lacks |
| Tables.QuestionFromFormReportsFirstMissing | app.py:68-73 | the failure names the first missing field in the order the handler reads them |
| Tables.ActionOf | app.py:66-67 | the action is add, edit or delete exactly when the `action` field holds that name; a missing field selects no action |
| Tables.RequestedId | app.py:85 | the only failures are a missing `question_id` and a text `int()` rejects, which includes an over-long digit string. A text of k characters gives an id of absolute value below 10^k. A text with a non-digit after its first character, such as `abc`, is a not-an-integer failure |
| Tables.RequestedIdOfListedId | app.py:85 | an id SQLite can store, written into the form with `str()`, is the id the handler looks up |
| Tables.ShortIdTextIsRowId | app.py:85-86 | an id text of at most 18 characters always gives an id SQLite can bind, so only longer texts overflow |
| Tables.EditRequest | app.py:84-92 | edit succeeds exactly when the id parses, fits 64 bits, is stored and all six fields are present, and then yields that id and the submitted row. An id outside 64 bits fails next, at the lookup, once the id has parsed. A missing `question_text` comes next, because it is read before the `None` row is used, and an absent id after that. For a stored id, the failure is that of reading the six fields, so it names the first missing field in read order (Tables.QuestionFromFormReportsFirstMissing) |
| Tables.DeleteRequest | app.py:94-97 | delete succeeds exactly when the id parses, fits 64 bits and is stored. An id outside 64 bits is an out-of-range failure and an absent id a no-such-question failure |
| Tables.InsertedIff | app.py:74-83 | an insertion is exactly an update at an id not in use; it adds one row, and the next listing shows the new row |
| Tables.OverwrittenIff | app.py:86-93 | an edit is exactly an update at an id in use; it keeps the number of rows and the id |
| Tables.RemovedIff | app.py:95-98 | a deletion is exactly the removal of an id in use; it takes away one row, and the next listing no longer has that id |
| Tables.RemovalLowersScoreByAtMostOne | app.py:94-98 | after a deletion, any later submission scores at most its old score and at least one less |
| Tables.InsertionRaisesScoreByAtMostOne | app.py:67-83 | after an addition, any later submission scores at least its old score and at most one more |
| Tables.EditMovesScoreByAtMostOne | app.py:84-93 | after an edit, any later score moves by at most one, and does not move when the correct option stays the same |
| Tables.FirstWithName | app.py:49 | the position found is the first row with that name in table order; there is none exactly when no row has the name |
| Tables.ResultFor | app.py:48-50 | the result page shows the first row with the name. A missing name, or a name no row has, is a no-such-result failure and shows no row |
| Tables.FirstWithNameAfterAppend | app.py:38-40 | appending a row never changes which row is first for a name; the new row is found only for a name no earlier row has |
| Tables.ResultAfterSubmission | app.py:38-50 | after a submission under a name, the result page shows the earliest submission under that name, and shows the new one only when it is the first |
| QuizApp.NextId | app.py:82 | a new row gets exactly one more than the largest id in use, whatever its sign, or 1 in an empty table, so the id is fresh |
| QuizApp.QuizStore.constructor | app.py:109 | a newly created database has both tables empty |
| QuizApp.QuizStore.SeedIfEmpty | app.py:110-119 | an empty question table becomes the five sample questions with ids 1 to 5; a non-empty one and the score table are unchanged |
| QuizApp.QuizStore.SubmitQuiz | app.py:31-41 | a submission with a name appends exactly one row holding that name and the computed score. Earlier rows and all questions are unchanged. Without a name it fails and changes nothing |
| QuizApp.QuizStore.PostScores | app.py:54-58 | with `reset` in the form the score table becomes empty; without it nothing changes; the question table is never touched |
| QuizApp.QuizStore.ManageQuestions | app.py:64-99 | add inserts the submitted row under a fresh id; edit overwrites exactly the requested row; delete removes exactly the requested row. Each failure, and any other action, leaves the table unchanged; the score table is never touched |
| QuizApp.SampleQuestions | app.py:111-117 | the start-up block stores five questions with ids 1 to 5, each with a correct option from A to D |
| QuizApp.SampleSubmissionScoresFive | app.py:111-117 | answering B, C, B, A, C to the five sample questions scores 5 |
| QuizApp.AliceScenario | app.py:31-50 | on a new seeded database, Alice's correct submission makes her result page show 5, and an unknown name has no result |

## Left out

- Flask routing, `render_template`, `redirect`/`url_for`, the static file route and `home()` with its `admin` flag (app.py:24-27, 103-105). These are presentation with no logic to state.
- The GET branches that list questions or scores (app.py:43-44, 60-61, 100-101). They render the current table; in the model they are the store's `questions` and `scores` fields.
- SQLAlchemy sessions, commits and `create_all`. Each handler's change is modelled as one atomic update. A request that raises commits nothing, because the uncommitted session is discarded when the request ends.
- The HTTP status a failure becomes (400 for a missing field, 500 for the rest). The model returns the `Failure` and does not model HTTP.
- Column length limits `String(200)`/`String(100)`. SQLite does not enforce them.
- Checking that `correct_option` is one of A to D. The source does not do it, so neither does the model. A row whose correct option is, say, `"b"` or `"E"` is stored, and no submission of `"B"` earns its point.
- Decimal.ParseInt: the 4300-digit limit is that of current Python versions; older versions have no limit, and a deployment can change it. `str()` has the same limit, which no id SQLite can store comes near, so `Decimal.IntToString` does not model it.
- Decimal.ParseInt: handles an optional sign followed by ASCII digits only. Python's `int()` also accepts surrounding whitespace, single underscores between digits and non-ASCII decimal digits. The model reports those strings as not-an-integer, where the source would parse them.
- Repeated form fields. A form here holds only the first value sent under each name, which is the value `request.form[...]` and `.get` return.
- Row order of the score table. SQL guarantees no order without `ORDER BY`. The model takes insertion order, which is what SQLite returns for this table, and "first by name" means first in that order, not most recent.
- QuizApp.NextId: ids are unbounded integers. SQLite's fallback at the 64-bit maximum id is not modelled: there it picks an unused id at random. Before that point, an empty table gets 1, as the model has it.
- The exception types behind the out-of-range failure. `sqlite3` raises `OverflowError`, and the model does not say whether SQLAlchemy wraps it. Either way the request fails and commits nothing.
- `app.run` and debug mode (app.py:120), and any concurrency between requests.
- A score never exceeds the question count only at submission time (Scoring.Score). Later deletions can bring the table below an old score, and Tables.RemovalLowersScoreByAtMostOne states what a deletion does to later scores only.
