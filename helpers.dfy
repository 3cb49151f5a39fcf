/** The handler helpers of backend/cmd/api/helpers.go that carry logic: the
    id-parameter rule of readNumericParam, the hint list of writeBoardJson and
    the three loading steps of getGameState. Responses are values; the JSON
    encoding and the writing of them are not modelled. */
module Helpers {
  import opened Outcomes
  import opened Words
  import opened Attempts
  import opened Guesses

  /** The "data" envelope of writeBoardJson. The attempt is None where the
      handler passes a nil attempt. */
  datatype Board = Board(hints: seq<Hint>, attempt: Option<Attempt>)

  /** What a handler writes: 201 with a board, or one of the error responses. */
  datatype Response =
    | Created(board: Board)
    | BadRequest(error: Error)
    | NotFound
    | ServerError(error: Error)
    | FailedValidation

  /** readNumericParam: the URL's id, given as what strconv.ParseInt made of
      it (None when parsing fails), is accepted only when at least 1. */
  function ReadNumericParam(parsed: Option<int>): (r: Result<int>)
    ensures r.Ok? <==> parsed.Some? && parsed.value >= 1
    ensures r.Ok? ==> r.value == parsed.value
    ensures r.Err? ==> r.error == InvalidIdParameter
  {
    if parsed.None? || parsed.value < 1 then Err(InvalidIdParameter) else Ok(parsed.value)
  }

  /** The hints of a board: the hint of each guess, in guess order. */
  function HintsFor(answer: string, guesses: seq<Guess>): (hints: seq<Hint>)
    requires IsWord(answer) && Playable(guesses)
    ensures |hints| == |guesses|
  {
    seq(|guesses|, k requires 0 <= k < |guesses| => Evaluate(answer, guesses[k].submission))
  }

  /** Recording one more guess adds exactly its hint at the end of the board. */
  lemma HintsForAppend(answer: string, guesses: seq<Guess>, g: Guess)
    requires IsWord(answer) && Playable(guesses) && IsWord(g.submission)
    ensures Playable(guesses + [g])
    ensures HintsFor(answer, guesses + [g]) == HintsFor(answer, guesses) + [Evaluate(answer, g.submission)]
  {
  }

  /** writeBoardJson: CheckSubmission on every guess, keeping the hint and
      dropping the solved flag, answered with 201. */
  method WriteBoard(word: Word, attempt: Option<Attempt>, guesses: seq<Guess>) returns (resp: Response)
    requires IsWord(word.answer) && Playable(guesses)
    ensures resp == Created(Board(HintsFor(word.answer, guesses), attempt))
    ensures forall k :: 0 <= k < |guesses| ==>
      |resp.board.hints[k]| == WordLength &&
      forall i :: 0 <= i < WordLength ==> resp.board.hints[k][i].ch == guesses[k].submission[i]
  {
    var hints: seq<Hint> := [];
    for j := 0 to |guesses|
      invariant hints == HintsFor(word.answer, guesses[..j])
    {
      var _, hint := CheckSubmission(word, guesses[j].submission);
      assert guesses[..j + 1] == guesses[..j] + [guesses[j]];
      HintsForAppend(word.answer, guesses[..j], guesses[j]);
      hints := hints + [hint];
    }
    assert guesses[..|guesses|] == guesses;
    resp := Created(Board(hints, attempt));
    forall k | 0 <= k < |guesses|
      ensures |hints[k]| == WordLength && forall i :: 0 <= i < WordLength ==> hints[k][i].ch == guesses[k].submission[i]
    {
      EvaluateShape(word.answer, guesses[k].submission);
    }
  }

  /** What getGameState loaded, or the error it stopped at and the response it
      wrote for it. */
  datatype GameState = GameState(word: Word, attempt: Attempt, guesses: seq<Guess>)
  datatype Load = Loaded(state: GameState) | Failed(error: Error, response: Response)

  /** The outcome of getGameState and the attempts table after it: the word
      lookup, then lookup-or-create of the attempt, then the guess listing,
      each run only when the ones before it succeeded. */
  function GameStateOf(attemptRows: seq<Attempt>, guessRows: seq<Guess>, wordLookup: Result<Word>, wordId: int,
                       now: int, f: Faults, d: Defaults): (Load, seq<Attempt>)
  {
    if wordLookup.Err? then
      var e := wordLookup.error;
      (Failed(e, if e == RecordNotFound then NotFound else ServerError(e)), attemptRows)
    else
      var (got, rows') := GetOrCreate(attemptRows, wordId, now, f.attemptLookup, f.attemptInsert, d);
      if got.Err? then (Failed(got.error, ServerError(got.error)), rows')
      else if f.guessList.Some? then
        (Failed(DbFailure(f.guessList.value), ServerError(DbFailure(f.guessList.value))), rows')
      else (Loaded(GameState(wordLookup.value, got.value, ForAttempt(guessRows, got.value.id))), rows')
  }

  /** getGameState, run against the two tables. */
  method GetGameState(wordLookup: Result<Word>, wordId: int, now: int, f: Faults,
                      attempts: AttemptModel, guessModel: GuessModel) returns (load: Load)
    requires attempts.Valid()
    modifies attempts
    ensures attempts.Valid()
    ensures (load, attempts.rows) ==
      GameStateOf(old(attempts.rows), guessModel.rows, wordLookup, wordId, now, f, attempts.defaults)
  {
    if wordLookup.Err? {
      var e := wordLookup.error;
      return Failed(e, if e == RecordNotFound then NotFound else ServerError(e));
    }
    var got := attempts.GetFromWordIdOrCreate(wordId, now, f.attemptLookup, f.attemptInsert);
    if got.Err? {
      return Failed(got.error, ServerError(got.error));
    }
    var listed := guessModel.GetGuessesFromAttemptId(got.value.id, f.guessList);
    if listed.Err? {
      return Failed(listed.error, ServerError(listed.error));
    }
    load := Loaded(GameState(wordLookup.value, got.value, listed.value));
  }

  /** The steps run in order and the first failure stops the rest: a failed
      word lookup touches no table and a missing word is answered 404; a
      failed attempt step writes no row; loading succeeds exactly when every
      step does, and then yields the attempt for the word together with
      exactly that attempt's guesses. */
  lemma GameStateSteps(attemptRows: seq<Attempt>, guessRows: seq<Guess>, wordLookup: Result<Word>, wordId: int,
                       now: int, f: Faults, d: Defaults)
    requires Attempts.SerialIds(attemptRows)
    ensures var (load, rows') := GameStateOf(attemptRows, guessRows, wordLookup, wordId, now, f, d);
      Attempts.SerialIds(rows') &&
      (wordLookup.Err? ==>
         rows' == attemptRows && load.Failed? &&
         (load.response == NotFound <==> wordLookup.error == RecordNotFound)) &&
      (wordLookup.Ok? && GetOrCreate(attemptRows, wordId, now, f.attemptLookup, f.attemptInsert, d).0.Err? ==>
         rows' == attemptRows && load.Failed? && load.response.ServerError?) &&
      (load.Loaded? <==>
         wordLookup.Ok? && GetOrCreate(attemptRows, wordId, now, f.attemptLookup, f.attemptInsert, d).0.Ok? &&
         f.guessList.None?) &&
      (load.Loaded? ==>
         load.state.word == wordLookup.value && load.state.attempt.wordId == wordId &&
         rows'[load.state.attempt.id - 1].wordId == wordId &&
         forall g :: g in guessRows && g.attemptId == load.state.attempt.id <==> g in load.state.guesses)
  {
    var (load, rows') := GameStateOf(attemptRows, guessRows, wordLookup, wordId, now, f, d);
    GetOrCreateOutcomes(attemptRows, wordId, now, f.attemptLookup, f.attemptInsert, d);
    if load.Loaded? {
      var id := load.state.attempt.id;
      forall g | g in guessRows && g.attemptId == id
        ensures g in load.state.guesses
      {
        var k :| 0 <= k < |guessRows| && guessRows[k] == g;
        ForAttemptComplete(guessRows, id, k);
      }
    }
  }
}
