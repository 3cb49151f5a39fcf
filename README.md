# t-wordle rules engine, in Dafny

This project models the game logic of the t-wordle backend, a Wordle-style HTTP service written in Go. It covers two parts.

- **The hint engine.** `Word.CheckSubmission` compares a five-letter submission with the answer. It makes two passes over a scratch copy of the answer. The first pass codes exact letters 2 and consumes them with `'-'`. The second pass visits every position again and codes 1 any letter still present in the copy, consuming the leftmost copy. A third loop sums the codes, and the guess is solved when the sum is 10.
- **The attempt and guess life cycle.** A user's game on a word is an attempt row (open, solved) plus the guesses recorded for it. Three handlers act on it:
  - submit a guess;
  - expire the attempt;
  - fetch the board.

  Each handler first loads the game state in three steps: look up the word, look up or create the attempt, then list its guesses. The board it answers with holds one hint per recorded guess.

## How it is modelled

- `outcomes.dfy` (`Outcomes`) holds the shared value types:
  - `Option`;
  - `Result`;
  - the errors that reach the handlers;
  - `Faults`, which says which storage call of a request fails.
- `words.dfy` (`Words`) holds `CheckSubmission`. It fills a hint `array` in place in three loops, as the Go code does. Each loop is proved equal to a fold that runs one step per position: `ExactUpTo` for the first pass and `PresentUpTo` for the second. `Evaluate` is the hint the two folds produce. The lemmas state what the passes promise.
- `attempts.dfy` (`Attempts`) and `guesses.dfy` (`Guesses`) hold the two tables:
  - each is a `class` whose `rows` field is a sequence in insertion order, with serial ids;
  - each storage call is a method that changes `rows`;
  - the functions `SetFlags` and `GetOrCreate` give the effect of an update and of a lookup-or-create on the attempts table;
  - `ForAttempt` gives the rows a guess listing returns.
- `helpers.dfy` (`Helpers`) holds:
  - the id rule of `readNumericParam`;
  - the hint list of `writeBoardJson`, as `WriteBoard` and its specification `HintsFor`;
  - the three steps of `getGameState`, as `GetGameState` and its specification `GameStateOf`.
- `handlers.dfy` (`Handlers`) holds the three handlers. Each handler's effect after loading is a function, `SubmitOutcome` or `ExpireOutcome`. The lemmas state the game's rules about these effects:
  - the guess limit, over `Replay`, a run of accepted submissions, and how a failed attempt update lets a sixth guess in;
  - what a recorded submission makes the next request load;
  - what expiring does to the stored flags, and that expiring twice is expiring once;
  - that a fetch creates at most the missing attempt.

Behaviour follows the Go code as written, including these points:

- **The second pass revisits exact positions.** A letter coded 2 is recoded 1 when another unconsumed copy of it remains. Answer `SPEED` and submission `SPEND` give `2,2,1,0,2` (`Words.ExactMatchDowngraded`). Answer `SPEED` and submission `ERASE` give `1,0,0,1,1` (`Words.BothCopiesCredited`): both E's of the submission find an E in the answer.
- **Solving does not close an attempt.** An accepted guess closes the attempt only when at least four guesses were recorded before it. So, when every accepted guess's attempt update succeeds, the fifth guess closes the attempt and a sixth is answered with the unchanged board. If the fifth guess's update fails, the guess is stored but the row stays open, and the next request records a sixth guess (`Handlers.LostUpdateAdmitsSixthGuess`).
- **`GetFromWordId` does not select `is_solved`.** A loaded attempt therefore always has `IsSolved == false`. Expire writes that value back, so expiring a solved attempt stores it as unsolved (`Handlers.ExpireClearsSolved`).
- **The validator's verdict is tested inverted.** A submission is rejected with a failed-validation response exactly when the validator reports it valid. The validator is an input here.
- **A failed attempt update is not reported.** The submit handler discards the result of `Attempts.Update` and tests the guess insert's error again, so it answers with the board either way.
- **The submit and fetch handlers ignore `getGameState`'s error.**
  - For submit, a failed load would go on with a nil attempt. The model requires the load to succeed.
  - For fetch, a failed load writes the error response and then a board with no hints and a null attempt. The model returns both writes.
- **Expire does not return after a bad id.** It answers 400 and then goes on with the id 0 that `readNumericParam` returned, writing a second response. The model returns both writes.

## Model

| member | source | states |
|---|---|---|
| Words.IndexOf | backend/internal/data/words.go:49-51 | the position is -1 exactly when the letter is absent, and otherwise the leftmost position holding it |
| Words.ReplaceFirst | backend/internal/data/words.go:51 | the replacement keeps the length, and leaves a string without the letter as it was |
| Words.ReplaceFirstTakesOne | backend/internal/data/words.go:51 | replacing a present letter turns exactly one copy of it into '-' and touches no other letter |
| Words.CheckSubmission | backend/internal/data/words.go:31-64 | the hint is the result of the two passes (Evaluate), and the solved flag holds iff every check is 2 |
| Words.MarkExactMatches | backend/internal/data/words.go:36-45 | after the first loop each entry holds the submitted letter, and the checks and the scratch copy are those of the first pass |
| Words.MarkPresentLetters | backend/internal/data/words.go:47-53 | after the second loop the checks and the scratch copy are those of the second pass, started from the first pass's state |
| Words.SumChecks | backend/internal/data/words.go:55-59 | the checksum is the sum of the hint's checks |
| Words.ExactUpToPositional | backend/internal/data/words.go:37-45 | after the first pass a position holds 2 and a consumed scratch letter exactly when the submission and the answer agree there, and otherwise 0 and the answer's letter |
| Words.PresentUpToAt | backend/internal/data/words.go:48-53 | the second pass codes 1 exactly the positions whose letter is still unconsumed when they are visited, and leaves every other position's code |
| Words.SecondPassRevisitsExact | backend/internal/data/words.go:39-52 | a position's final code is 1 if its letter is still unconsumed when the second pass visits it, even when it was exact; otherwise 2 if exact, else 0 |
| Words.EvaluateShape | backend/internal/data/words.go:29-52 | the hint has 5 entries, each holding the submitted letter with a check in {0,1,2}; 2 only where the letters agree, and never 0 where they agree |
| Words.ExactUpToConserves | backend/internal/data/words.go:39-44 | the first pass conserves every letter: the copies in the scratch plus the positions coded 2 for it equal its copies in the answer |
| Words.PresentUpToNonIncreasing | backend/internal/data/words.go:48-53 | the second pass never increases, for any letter, the scratch copies plus the positions credited to it |
| Words.CreditedWithinAnswer | backend/internal/data/words.go:49-51 | for every letter, the positions with a non-zero check for it are at most its copies in the answer |
| Words.ChecksumBound | backend/internal/data/words.go:55-62 | for checks in 0..2 the sum lies in [0, 2n], and equals 2n iff every check is 2 |
| Words.ChecksumTen | backend/internal/data/words.go:60-62 | for five entries in {0,1,2} the sum is 10 iff every check is 2 |
| Words.PresentUpToIdle | backend/internal/data/words.go:48-53 | a second pass over a scratch copy holding none of the submitted letters changes nothing |
| Words.AnswerSolvesItself | backend/internal/data/words.go:37-62 | submitting the answer itself gives every check 2 and the checksum 10 |
| Words.ExactMatchDowngraded | backend/internal/data/words.go:48-52 | answer SPEED, submission SPEND gives 2,2,1,0,2: the exact E at position 2 is downgraded to 1 |
| Words.BothCopiesCredited | backend/internal/data/words.go:47-53 | answer SPEED, submission ERASE gives 1,0,0,1,1 |
| Words.DuplicateLettersBounded | backend/internal/data/words.go:47-53 | answer ALLOY, submission LOLLY gives 1,1,2,0,2: three L's submitted, two credited |
| Attempts.FirstWithWord | backend/internal/data/attempt.go:46-59 | no index exactly when no row has the word, and otherwise the first row that has it |
| Attempts.AttemptModel.Insert | backend/internal/data/attempt.go:22-30 | a new row for the word with the next serial id, the column defaults and the creation time, copied back into the attempt; a failed insert writes nothing |
| Attempts.AttemptModel.Update | backend/internal/data/attempt.go:32-42 | the table becomes SetFlags of it, or stays on failure, and the error is returned |
| Attempts.AttemptModel.GetFromWordId | backend/internal/data/attempt.go:44-71 | a storage error is returned; no row for the word is ErrRecordNotFound; otherwise the first row for the word, with IsSolved false |
| Attempts.AttemptModel.GetFromWordIdOrCreate | backend/internal/data/attempt.go:73-89 | the result and the new table are GetOrCreate of the old table |
| Attempts.FirstWithWordAppend | backend/internal/data/attempt.go:78-81 | once a row is added for a word that had none, a lookup finds that row |
| Attempts.SetFlagsKeepsLookup | backend/internal/data/attempt.go:32-42 | an update keeps the table's length and the row a lookup finds for every word |
| Attempts.SetFlagsInvariants | backend/internal/data/attempt.go:32-42 | an update keeps serial ids and one attempt per word, and applying it twice is applying it once |
| Attempts.GetOrCreateOutcomes | backend/internal/data/attempt.go:74-89 | an existing attempt is returned with no insert; with no attempt and a successful lookup, exactly one row for the word is appended iff the insert succeeds; every error leaves the table and is never not-found |
| Attempts.GetOrCreateIdempotent | backend/internal/data/attempt.go:74-89 | a second call for the word returns the attempt the first call returned, with IsSolved false, and inserts nothing |
| Attempts.GetOrCreateKeepsUnique | backend/internal/data/attempt.go:74-89 | one attempt per word is kept, and after a success the word has exactly one row |
| Guesses.ForAttempt | backend/internal/data/guess.go:35-65 | the listing holds only rows of the table that belong to the attempt, and no more of them than the table has |
| Guesses.ForAttemptComplete | backend/internal/data/guess.go:36-40 | every row of the attempt is in its listing |
| Guesses.ForAttemptAppend | backend/internal/data/guess.go:35-74 | storing a guess for the attempt extends its listing by exactly that guess at the end; a guess for another attempt leaves the listing |
| Guesses.GuessModel.Insert | backend/internal/data/guess.go:67-74 | the guess is stored with the next serial id and the creation time, both copied back; a failed insert writes nothing |
| Guesses.GuessModel.GetGuessesFromAttemptId | backend/internal/data/guess.go:35-65 | a storage error is returned, and otherwise exactly the attempt's rows in table order |
| Helpers.ReadNumericParam | backend/cmd/api/helpers.go:17-26 | accepted iff the id parsed and is at least 1, and then unchanged; otherwise the invalid-id error |
| Helpers.HintsFor | backend/cmd/api/helpers.go:101-105 | one hint per guess |
| Helpers.HintsForAppend | backend/cmd/api/helpers.go:101-105 | one more guess adds exactly its hint at the end of the list |
| Helpers.WriteBoard | backend/cmd/api/helpers.go:100-113 | a 201 board whose hint k is the hint of guess k, carrying guess k's letters, with the solved flag dropped, and the attempt passed in |
| Helpers.GetGameState | backend/cmd/api/helpers.go:116-144 | the load and the new attempts table are GameStateOf of the old tables |
| Helpers.GameStateSteps | backend/cmd/api/helpers.go:116-144 | a failed word lookup writes no row and answers 404 iff the word is missing; a failed attempt step writes no row and answers 500; the load succeeds iff all three steps do, and then yields the word, the attempt for the word id and exactly that attempt's guesses |
| Handlers.AfterGuess | backend/cmd/api/words.go:86-91 | IsSolved becomes the guess's flag, and the attempt stays open iff it was open and fewer than four guesses came before |
| Handlers.ApplySubmission | backend/cmd/api/words.go:65-105 | the response and both tables are SubmitOutcome of the loaded state and the old tables |
| Handlers.SubmitGuess | backend/cmd/api/words.go:40-106 | a bad body or a bad id answers 400 and writes nothing; otherwise the effect is getGameState followed by SubmitOutcome, for any submission to a closed attempt |
| Handlers.ExpireAttempt | backend/cmd/api/words.go:13-35 | a bad id answers 400 and then carries on with id 0; a failed load writes its error; otherwise the effect is ExpireOutcome |
| Handlers.GetAttempt | backend/cmd/api/words.go:110-126 | a bad id answers 400; otherwise the load's table; a failed load writes its error and then an empty board; a loaded state writes its board |
| Handlers.SubmitRules | backend/cmd/api/words.go:65-105 | a closed attempt, a flagged submission and a failed guess insert change no table; an accepted one appends exactly one guess with the word id, attempt id, text and time, sets the flags by AfterGuess, and answers with the board grown by its hint, even when the update fails |
| Handlers.SubmitIsReloaded | backend/cmd/api/words.go:86-102 | after a submission without failures, the next request loads the same attempt with the flags written (IsSolved read back false) and the guesses with the new one at the end |
| Handlers.GuessLimit | backend/cmd/api/words.go:65-91 | a closed attempt takes no guess; an open one has taken every submission and at most four; starting from at most four it ends with at most five, and closes once more than four are recorded |
| Handlers.FifthGuessCloses | backend/cmd/api/words.go:86-91 | a solving fourth guess leaves the attempt open; the fifth guess closes it; a sixth changes nothing |
| Handlers.LostUpdateAdmitsSixthGuess | backend/cmd/api/words.go:89-102 | when the fifth guess is stored but its attempt update fails, the response shows the attempt closed while its row stays unchanged; the next request loads it open, and a sixth guess is stored |
| Handlers.ExpireClearsSolved | backend/cmd/api/words.go:20-31 | expiring leaves the attempt's row closed and unsolved, even when it was solved, and every other row as it was |
| Handlers.ExpireIdempotent | backend/cmd/api/words.go:20-31 | expiring twice stores what expiring once stores, when a new attempt starts unsolved or the attempt existed |
| Handlers.FetchOnlyCreates | backend/cmd/api/words.go:110-126 | a fetch changes no attempt row; at most it appends the attempt it creates for a word that had none |

## Left out

- Startup and wiring are not part of this model: `main.go`, `routes.go`, `healthcheck.go` and `models.go`. `expireAttemptHandler` is modelled although no route reaches it.
- HTTP and JSON are not modelled: `readJSON`, `writeJson`, `errors.go` and `charHint.MarshalJSON`. A request body is either decoded or not (`None`), and responses are values.
- `solveTime.go` is left out. It is floating-point formatting that the core does not use.
- The validator package is not part of this model. `ValidateGuessRequest`'s verdict is a boolean input of the submit handler.
- The word lookup (`WordModel.Get`) is an input, a word or an error. `getGameState` never copies the word id into the word it looks up, so where the answer comes from is out of scope.
- SQL is replaced by sequences of rows. A single-row `SELECT` yields the first matching row, and a listing yields rows in insertion order; PostgreSQL promises neither without `ORDER BY`. Ids are serial from 1. Creation times are the `now` parameter.
- The schema's defaults for `is_open` and `is_solved` are not shown in the source, so they are the `Defaults` parameter of the attempt store.
- Storage failures are the `Faults` parameter. A failed call writes nothing.
- Attempts.AttemptModel.Update: an `UPDATE` without `RETURNING`, scanned with `QueryRow(...).Scan()`, makes the driver report `sql.ErrNoRows` even when a row changed. The model treats Update's outcome as the fault parameter only.
- Handlers.ExpireAttempt: because of that `sql.ErrNoRows`, the handler as written answers 500 after the row has already been closed. No `Faults` value gives this combination, since a failing update in the model writes nothing; the model's successful expire answers with the board.
- Concurrency is not modelled. Two first requests for a word could both create an attempt, since the code has no uniqueness handling.
- Handlers.SubmitGuess: the handler ignores `getGameState`'s error and would dereference a nil attempt after a failed load. The model requires the load to succeed and does not model the crash.
- Handlers.SubmitGuess: wherever the inverted validator check lets a submission through to CheckSubmission, the model requires it to be five ASCII characters other than `'-'`, and `Playable` on the guess table relies on that. The source does not guarantee it: a submission of another length is stored and later hinted by code written for five letters, and a longer one indexes past the hint array.
- Words.CheckSubmission: the source indexes the answer by byte but walks the submission by rune. The model requires both to be five ASCII characters other than `'-'`. A hint entry's letter is a `char` where the source holds a one-character string.
- Handlers.GuessLimit: the lemma is stated over `Replay`, the attempt's in-memory flags across accepted submissions. It holds for the tables only when every accepted guess's attempt update succeeds: a failed update leaves the row open while the guess is stored (`Handlers.LostUpdateAdmitsSixthGuess`). `SubmitIsReloaded` connects one request to the next in the tables when nothing fails; the composition over whole request sequences against the tables is not stated.
