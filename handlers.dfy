/** The three game handlers of backend/cmd/api/words.go, with HTTP reduced to
    their inputs (the decoded body, the parsed id, the validator's verdict, the
    word lookup's outcome, the clock, the storage faults) and to the responses
    they write, in order.

    Each handler's effect after loading is a function (SubmitOutcome,
    ExpireOutcome); the methods run the steps against the two tables and are
    proved to have that effect, and the lemmas state the game's rules about
    it: the guess limit, solving without closing, what expiring does, and
    that a recorded submission is what the next request loads. */
module Handlers {
  import opened Outcomes
  import opened Words
  import opened Attempts
  import opened Guesses
  import opened Helpers

  /** The body of a submission, as readJSON decodes it. */
  datatype GuessInput = GuessInput(submission: string, submissionTime: int)

  /** The number of earlier guesses at which an accepted guess closes the
      attempt. */
  const PriorGuessLimit := 4

  const NoFaults := Faults(None, None, None, None, None)

  /** The in-memory attempt after an accepted guess: the guess's solved flag
      replaces the old one, and the attempt closes when at least four guesses
      were recorded before this one; solving alone does not close it. */
  function AfterGuess(a: Attempt, prior: nat, solved: bool): (r: Attempt)
    ensures r.id == a.id && r.wordId == a.wordId && r.createdAt == a.createdAt
    ensures r.isSolved == solved
    ensures r.isOpen <==> a.isOpen && prior < PriorGuessLimit
  {
    var a' := a.(isSolved := solved);
    if prior >= PriorGuessLimit then a'.(isOpen := false) else a'
  }

  /** submitGuessHandler once the game state is loaded: the response and both
      tables afterwards. The guess is inserted before the attempt is updated,
      and a failed update is not reported. */
  function SubmitOutcome(st: GameState, wordId: int, input: GuessInput, validatorValid: bool, now: int, f: Faults,
                         attemptRows: seq<Attempt>, guessRows: seq<Guess>): (Response, seq<Attempt>, seq<Guess>)
    requires IsWord(st.word.answer) && Playable(st.guesses)
    requires st.attempt.isOpen && !validatorValid ==> IsWord(input.submission)
  {
    if !st.attempt.isOpen then
      (Created(Board(HintsFor(st.word.answer, st.guesses), Some(st.attempt))), attemptRows, guessRows)
    else if validatorValid then (FailedValidation, attemptRows, guessRows)
    else if f.guessInsert.Some? then (ServerError(DbFailure(f.guessInsert.value)), attemptRows, guessRows)
    else
      var next := AfterGuess(st.attempt, |st.guesses|, AllExact(Evaluate(st.word.answer, input.submission)));
      var g := Guess(|guessRows| + 1, wordId, st.attempt.id, input.submission, now, input.submissionTime);
      HintsForAppend(st.word.answer, st.guesses, g);
      (Created(Board(HintsFor(st.word.answer, st.guesses + [g]), Some(next))),
       if f.attemptUpdate.None? then SetFlags(attemptRows, next) else attemptRows,
       guessRows + [g])
  }

  /** expireAttemptHandler once the game state is loaded: the attempt is
      closed and written back with the IsSolved it was loaded with. */
  function ExpireOutcome(st: GameState, f: Faults, attemptRows: seq<Attempt>): (Response, seq<Attempt>)
    requires IsWord(st.word.answer) && Playable(st.guesses)
  {
    var closed := st.attempt.(isOpen := false);
    if f.attemptUpdate.Some? then (ServerError(DbFailure(f.attemptUpdate.value)), attemptRows)
    else (Created(Board(HintsFor(st.word.answer, st.guesses), Some(closed))), SetFlags(attemptRows, closed))
  }

  /** The steps of submitGuessHandler after getGameState. */
  method ApplySubmission(st: GameState, wordId: int, input: GuessInput, validatorValid: bool, now: int, f: Faults,
                         attempts: AttemptModel, guessModel: GuessModel) returns (resp: Response)
    requires attempts.Valid() && guessModel.Valid()
    requires IsWord(st.word.answer) && Playable(st.guesses)
    requires st.attempt.isOpen && !validatorValid ==> IsWord(input.submission)
    modifies attempts, guessModel
    ensures attempts.Valid() && guessModel.Valid()
    ensures (resp, attempts.rows, guessModel.rows) ==
      SubmitOutcome(st, wordId, input, validatorValid, now, f, old(attempts.rows), old(guessModel.rows))
  {
    // a closed attempt: answer with the board as it is
    if !st.attempt.isOpen {
      resp := WriteBoard(st.word, Some(st.attempt), st.guesses);
      return;
    }
    var guess := Guess(0, wordId, st.attempt.id, input.submission, 0, input.submissionTime);
    // the validator's verdict is tested the wrong way round
    if validatorValid {
      return FailedValidation;
    }
    var isSolved, _ := CheckSubmission(st.word, guess.submission);
    var attempt := st.attempt.(isSolved := isSolved);
    if |st.guesses| >= PriorGuessLimit {
      attempt := attempt.(isOpen := false);
    }
    var inserted, err := guessModel.Insert(guess, now, f.guessInsert);
    if err.Some? {
      return ServerError(err.value);
    }
    // the update's error is discarded; the test after it sees the insert's
    var _ := attempts.Update(attempt, f.attemptUpdate);
    HintsForAppend(st.word.answer, st.guesses, inserted);
    resp := WriteBoard(st.word, Some(attempt), st.guesses + [inserted]);
  }

  /** submitGuessHandler. Its getGameState error is ignored, so a failed load
      would go on with no attempt; the handler is specified for loads that
      succeed. */
  method SubmitGuess(input: Option<GuessInput>, idParam: Option<int>, wordLookup: Result<Word>, validatorValid: bool,
                     now: int, f: Faults, attempts: AttemptModel, guessModel: GuessModel) returns (writes: seq<Response>)
    requires attempts.Valid() && guessModel.Valid() && Playable(guessModel.rows)
    requires wordLookup.Ok? ==> IsWord(wordLookup.value.answer)
    requires input.Some? && ReadNumericParam(idParam).Ok? ==>
      GameStateOf(attempts.rows, guessModel.rows, wordLookup, ReadNumericParam(idParam).value, now, f,
                  attempts.defaults).0.Loaded?
    requires (input.Some? && ReadNumericParam(idParam).Ok? && !validatorValid &&
              GameStateOf(attempts.rows, guessModel.rows, wordLookup, ReadNumericParam(idParam).value, now, f,
                          attempts.defaults).0.state.attempt.isOpen) ==>
      IsWord(input.value.submission)
    modifies attempts, guessModel
    ensures attempts.Valid() && guessModel.Valid() && Playable(guessModel.rows)
    ensures input.None? ==>
      writes == [BadRequest(MalformedBody)] &&
      attempts.rows == old(attempts.rows) && guessModel.rows == old(guessModel.rows)
    ensures input.Some? && ReadNumericParam(idParam).Err? ==>
      writes == [BadRequest(InvalidIdParameter)] &&
      attempts.rows == old(attempts.rows) && guessModel.rows == old(guessModel.rows)
    ensures input.Some? && ReadNumericParam(idParam).Ok? ==>
      var wordId := ReadNumericParam(idParam).value;
      var (load, rows1) := GameStateOf(old(attempts.rows), old(guessModel.rows), wordLookup, wordId, now, f,
                                       attempts.defaults);
      var (resp, rows2, guessRows2) := SubmitOutcome(load.state, wordId, input.value, validatorValid, now, f,
                                                     rows1, old(guessModel.rows));
      writes == [resp] && attempts.rows == rows2 && guessModel.rows == guessRows2
  {
    if input.None? {
      return [BadRequest(MalformedBody)];
    }
    var id := ReadNumericParam(idParam);
    if id.Err? {
      return [BadRequest(id.error)];
    }
    var load := GetGameState(wordLookup, id.value, now, f, attempts, guessModel);
    ForAttemptPlayable(guessModel.rows, load.state.attempt.id);
    var resp := ApplySubmission(load.state, id.value, input.value, validatorValid, now, f, attempts, guessModel);
    writes := [resp];
  }

  /** expireAttemptHandler. A bad id is answered with 400, but the handler
      does not return: it goes on with the id 0 that readNumericParam gave
      back, and writes a second response. */
  method ExpireAttempt(idParam: Option<int>, wordLookup: Result<Word>, now: int, f: Faults,
                       attempts: AttemptModel, guessModel: GuessModel) returns (writes: seq<Response>)
    requires attempts.Valid() && Playable(guessModel.rows)
    requires wordLookup.Ok? ==> IsWord(wordLookup.value.answer)
    modifies attempts
    ensures attempts.Valid()
    ensures
      var wordId := if ReadNumericParam(idParam).Ok? then ReadNumericParam(idParam).value else 0;
      var first := if ReadNumericParam(idParam).Ok? then [] else [BadRequest(InvalidIdParameter)];
      var (load, rows1) := GameStateOf(old(attempts.rows), guessModel.rows, wordLookup, wordId, now, f,
                                       attempts.defaults);
      if load.Failed? then writes == first + [load.response] && attempts.rows == rows1
      else
        var (resp, rows2) := ExpireOutcome(load.state, f, rows1);
        writes == first + [resp] && attempts.rows == rows2
  {
    var id := ReadNumericParam(idParam);
    var wordId := 0;
    writes := [];
    if id.Err? {
      writes := [BadRequest(id.error)];
    } else {
      wordId := id.value;
    }
    var load := GetGameState(wordLookup, wordId, now, f, attempts, guessModel);
    if load.Failed? {
      writes := writes + [load.response];
      return;
    }
    var attempt := load.state.attempt.(isOpen := false);
    var err := attempts.Update(attempt, f.attemptUpdate);
    if err.Some? {
      writes := writes + [ServerError(err.value)];
      return;
    }
    ForAttemptPlayable(guessModel.rows, load.state.attempt.id);
    var resp := WriteBoard(load.state.word, Some(attempt), load.state.guesses);
    writes := writes + [resp];
  }

  /** getAttemptHandler. Its getGameState error is ignored too, but here a
      failed load does not crash: the board is written after the error
      response, with no hints (there are no guesses to loop over) and a null
      attempt. */
  method GetAttempt(idParam: Option<int>, wordLookup: Result<Word>, now: int, f: Faults,
                    attempts: AttemptModel, guessModel: GuessModel) returns (writes: seq<Response>)
    requires attempts.Valid() && Playable(guessModel.rows)
    requires wordLookup.Ok? ==> IsWord(wordLookup.value.answer)
    modifies attempts
    ensures attempts.Valid()
    ensures ReadNumericParam(idParam).Err? ==>
      writes == [BadRequest(InvalidIdParameter)] && attempts.rows == old(attempts.rows)
    ensures ReadNumericParam(idParam).Ok? ==>
      var (load, rows1) := GameStateOf(old(attempts.rows), guessModel.rows, wordLookup,
                                       ReadNumericParam(idParam).value, now, f, attempts.defaults);
      attempts.rows == rows1 &&
      if load.Failed? then writes == [load.response, Created(Board([], None))]
      else
        writes == [Created(Board(HintsFor(load.state.word.answer, load.state.guesses), Some(load.state.attempt)))]
  {
    var id := ReadNumericParam(idParam);
    if id.Err? {
      return [BadRequest(id.error)];
    }
    var load := GetGameState(wordLookup, id.value, now, f, attempts, guessModel);
    if load.Failed? {
      writes := [load.response, Created(Board([], None))];
      return;
    }
    ForAttemptPlayable(guessModel.rows, load.state.attempt.id);
    var resp := WriteBoard(load.state.word, Some(load.state.attempt), load.state.guesses);
    writes := [resp];
  }

  // ---------------------------------------------------------------------
  // The game's rules

  /** What one submission does, once loaded: a closed attempt, a submission
      the validator flags and a failed guess insert leave both tables as they
      were; an accepted submission appends exactly one guess carrying the word
      id, the attempt id and the submitted text and time, sets the attempt's
      flags by AfterGuess, and answers with the board grown by that guess's
      hint, even when the attempt update fails. */
  lemma SubmitRules(st: GameState, wordId: int, input: GuessInput, validatorValid: bool, now: int, f: Faults,
                    attemptRows: seq<Attempt>, guessRows: seq<Guess>)
    requires IsWord(st.word.answer) && Playable(st.guesses)
    requires st.attempt.isOpen && !validatorValid ==> IsWord(input.submission)
    ensures var (resp, rows', guessRows') := SubmitOutcome(st, wordId, input, validatorValid, now, f,
                                                           attemptRows, guessRows);
      var accepted := st.attempt.isOpen && !validatorValid && f.guessInsert.None?;
      (!accepted ==> rows' == attemptRows && guessRows' == guessRows) &&
      (!st.attempt.isOpen ==>
         resp.Created? && resp.board.attempt == Some(st.attempt) && |resp.board.hints| == |st.guesses|) &&
      (st.attempt.isOpen && validatorValid ==> resp == FailedValidation) &&
      (st.attempt.isOpen && !validatorValid && f.guessInsert.Some? ==> resp.ServerError?) &&
      (accepted ==>
         resp.Created? && resp.board.attempt.Some? &&
         |guessRows'| == |guessRows| + 1 && guessRows'[..|guessRows|] == guessRows &&
         guessRows'[|guessRows|].wordId == wordId && guessRows'[|guessRows|].attemptId == st.attempt.id &&
         guessRows'[|guessRows|].submission == input.submission &&
         guessRows'[|guessRows|].submissionTime == input.submissionTime &&
         |resp.board.hints| == |st.guesses| + 1 &&
         resp.board.hints[|st.guesses|] == Evaluate(st.word.answer, input.submission) &&
         resp.board.attempt.value.isSolved == AllExact(Evaluate(st.word.answer, input.submission)) &&
         (resp.board.attempt.value.isOpen <==> |st.guesses| < PriorGuessLimit) &&
         rows' == (if f.attemptUpdate.None? then SetFlags(attemptRows, resp.board.attempt.value) else attemptRows))
  {
    if st.attempt.isOpen && !validatorValid && f.guessInsert.None? {
      var g := Guess(|guessRows| + 1, wordId, st.attempt.id, input.submission, now, input.submissionTime);
      assert (guessRows + [g])[..|guessRows|] == guessRows;
    }
  }

  /** A submission recorded without failures is what the next request for
      the word loads: the same attempt with the flags the submission wrote
      (IsSolved read back as false), and the guesses with the new one
      appended. */
  lemma SubmitIsReloaded(attemptRows: seq<Attempt>, guessRows: seq<Guess>, word: Word, wordId: int, now: int,
                         now2: int, input: GuessInput, d: Defaults)
    requires Attempts.SerialIds(attemptRows) && IsWord(word.answer) && Playable(guessRows)
    requires IsWord(input.submission)
    ensures var (load, rows1) := GameStateOf(attemptRows, guessRows, Ok(word), wordId, now, NoFaults, d);
      var (resp, rows2, guessRows2) := SubmitOutcome(load.state, wordId, input, false, now, NoFaults, rows1, guessRows);
      load.state.attempt.isOpen ==>
        GameStateOf(rows2, guessRows2, Ok(word), wordId, now2, NoFaults, d) ==
          (Loaded(GameState(word, resp.board.attempt.value.(isSolved := false),
                            load.state.guesses + [guessRows2[|guessRows|]])), rows2)
  {
    var (load, rows1) := GameStateOf(attemptRows, guessRows, Ok(word), wordId, now, NoFaults, d);
    var st := load.state;
    GetOrCreateOutcomes(attemptRows, wordId, now, None, None, d);
    if st.attempt.isOpen {
      var (resp, rows2, guessRows2) := SubmitOutcome(st, wordId, input, false, now, NoFaults, rows1, guessRows);
      var next := resp.board.attempt.value;
      var g := guessRows2[|guessRows|];
      GetOrCreateIdempotent(attemptRows, wordId, now, now2, None, None, d);
      var k := FirstWithWord(rows1, wordId).value;
      SetFlagsKeepsLookup(rows1, next, wordId);
      assert rows2[k] == rows1[k].(isSolved := next.isSolved, isOpen := next.isOpen);
      ForAttemptAppend(guessRows, g, st.attempt.id);
    }
  }

  /** The update's error is discarded, so the guess limit rests on the update
      succeeding: when the fifth guess is stored but its attempt update fails,
      the response shows the attempt closed while its row stays open, the next
      request loads it open with five guesses, and a sixth guess is stored. */
  lemma LostUpdateAdmitsSixthGuess(attemptRows: seq<Attempt>, guessRows: seq<Guess>, word: Word, wordId: int,
                                   now: int, now2: int, in1: GuessInput, in2: GuessInput, reason: string, d: Defaults)
    requires Attempts.SerialIds(attemptRows) && IsWord(word.answer) && Playable(guessRows)
    requires IsWord(in1.submission) && IsWord(in2.submission)
    requires var st := GameStateOf(attemptRows, guessRows, Ok(word), wordId, now, NoFaults, d).0.state;
      st.attempt.isOpen && |st.guesses| == PriorGuessLimit
    ensures var (load, rows1) := GameStateOf(attemptRows, guessRows, Ok(word), wordId, now, NoFaults, d);
      var id := load.state.attempt.id;
      var (resp, rows2, guessRows2) := SubmitOutcome(load.state, wordId, in1, false, now,
                                                     NoFaults.(attemptUpdate := Some(reason)), rows1, guessRows);
      resp.Created? && !resp.board.attempt.value.isOpen && rows2 == rows1 &&
      |ForAttempt(guessRows2, id)| == PriorGuessLimit + 1 &&
      var (load2, rows3) := GameStateOf(rows2, guessRows2, Ok(word), wordId, now2, NoFaults, d);
      load2.Loaded? && load2.state.attempt.id == id && load2.state.attempt.isOpen &&
      var (resp2, rows4, guessRows4) := SubmitOutcome(load2.state, wordId, in2, false, now2, NoFaults, rows3, guessRows2);
      resp2.Created? && |ForAttempt(guessRows4, id)| == PriorGuessLimit + 2
  {
    var (load, rows1) := GameStateOf(attemptRows, guessRows, Ok(word), wordId, now, NoFaults, d);
    var st := load.state;
    var id := st.attempt.id;
    GetOrCreateOutcomes(attemptRows, wordId, now, None, None, d);
    var (resp, rows2, guessRows2) := SubmitOutcome(st, wordId, in1, false, now,
                                                   NoFaults.(attemptUpdate := Some(reason)), rows1, guessRows);
    ForAttemptAppend(guessRows, guessRows2[|guessRows|], id);
    GetOrCreateIdempotent(attemptRows, wordId, now, now2, None, None, d);
    var (load2, rows3) := GameStateOf(rows2, guessRows2, Ok(word), wordId, now2, NoFaults, d);
    assert load2.state.attempt == st.attempt.(isSolved := false);
    assert load2.state.guesses == ForAttempt(guessRows2, id);
    var (resp2, rows4, guessRows4) := SubmitOutcome(load2.state, wordId, in2, false, now2, NoFaults, rows3, guessRows2);
    ForAttemptAppend(guessRows2, guessRows4[|guessRows2|], id);
  }

  /** The attempt and its guess count after a run of accepted submissions,
      given by their solved flags, each made on the attempt as the previous
      one left it; a submission to a closed attempt changes nothing. */
  function Replay(a: Attempt, count: nat, solved: seq<bool>): (Attempt, nat)
    decreases |solved|
  {
    if solved == [] then (a, count)
    else if !a.isOpen then Replay(a, count, solved[1..])
    else Replay(AfterGuess(a, count, solved[0]), count + 1, solved[1..])
  }

  /** The guess limit: a closed attempt stays closed and takes no guess; an
      attempt still open has taken every submission and at most four; one
      opened with at most four guesses ends with at most five, and closes as
      soon as more than four have been recorded in all. */
  lemma {:induction false} GuessLimit(a: Attempt, count: nat, solved: seq<bool>)
    ensures var (a', n) := Replay(a, count, solved);
      a'.id == a.id && a'.wordId == a.wordId && count <= n <= count + |solved| &&
      (!a.isOpen ==> a' == a && n == count) &&
      (a'.isOpen ==> n == count + |solved| && (solved != [] ==> n <= PriorGuessLimit)) &&
      (a.isOpen && count <= PriorGuessLimit ==> n <= PriorGuessLimit + 1) &&
      (a.isOpen && solved != [] && count + |solved| > PriorGuessLimit ==> !a'.isOpen)
    decreases |solved|
  {
    if solved != [] {
      if !a.isOpen {
        GuessLimit(a, count, solved[1..]);
      } else {
        var next := AfterGuess(a, count, solved[0]);
        assert Replay(a, count, solved) == Replay(next, count + 1, solved[1..]);
        GuessLimit(next, count + 1, solved[1..]);
      }
    }
  }

  /** On a fresh attempt: a solving fourth guess leaves it open, the fifth
      guess closes it, and a sixth is ignored. */
  lemma FifthGuessCloses(a: Attempt)
    requires a.isOpen
    ensures Replay(a, 0, [false, false, false, true]).0.isOpen
    ensures Replay(a, 0, [false, false, false, true]).0.isSolved
    ensures Replay(a, 0, [false, false, false, false, false]) == (a.(isSolved := false, isOpen := false), 5)
    ensures Replay(a, 0, [false, false, false, false, false, true]) == Replay(a, 0, [false, false, false, false, false])
  {
  }

  /** The attempts table after an expire request that meets no failure. */
  function ExpireRequest(attemptRows: seq<Attempt>, guessRows: seq<Guess>, word: Word, wordId: int, now: int,
                         d: Defaults): seq<Attempt>
    requires IsWord(word.answer) && Playable(guessRows)
  {
    var (load, rows1) := GameStateOf(attemptRows, guessRows, Ok(word), wordId, now, NoFaults, d);
    ExpireOutcome(load.state, NoFaults, rows1).1
  }

  /** Expiring writes back the IsSolved the attempt was loaded with, and the
      lookup never reads it: the attempt's row ends closed and unsolved even
      when it was solved, and every other row stays. */
  lemma ExpireClearsSolved(attemptRows: seq<Attempt>, guessRows: seq<Guess>, word: Word, wordId: int, now: int,
                           d: Defaults, k: nat)
    requires Attempts.SerialIds(attemptRows) && IsWord(word.answer) && Playable(guessRows)
    requires FirstWithWord(attemptRows, wordId) == Some(k)
    ensures var rows' := ExpireRequest(attemptRows, guessRows, word, wordId, now, d);
      |rows'| == |attemptRows| && rows'[k] == attemptRows[k].(isOpen := false, isSolved := false) &&
      forall j :: 0 <= j < |rows'| && j != k ==> rows'[j] == attemptRows[j]
  {
  }

  /** Expiring twice leaves the table as expiring once, provided a freshly
      created attempt starts unsolved or the attempt already existed. */
  lemma ExpireIdempotent(attemptRows: seq<Attempt>, guessRows: seq<Guess>, word: Word, wordId: int, now: int,
                         now2: int, d: Defaults)
    requires Attempts.SerialIds(attemptRows) && IsWord(word.answer) && Playable(guessRows)
    requires !d.isSolved || FirstWithWord(attemptRows, wordId).Some?
    ensures var rows' := ExpireRequest(attemptRows, guessRows, word, wordId, now, d);
      ExpireRequest(rows', guessRows, word, wordId, now2, d) == rows'
  {
    var (load, rows1) := GameStateOf(attemptRows, guessRows, Ok(word), wordId, now, NoFaults, d);
    var closed := load.state.attempt.(isOpen := false);
    GetOrCreateOutcomes(attemptRows, wordId, now, None, None, d);
    GetOrCreateIdempotent(attemptRows, wordId, now, now2, None, None, d);
    var k := FirstWithWord(rows1, wordId).value;
    SetFlagsKeepsLookup(rows1, closed, wordId);
    SetFlagsInvariants(rows1, closed);
    var rows' := SetFlags(rows1, closed);
    assert rows'[k] == closed;
  }

  /** A fetch writes no guess (the handler cannot reach the guesses table) and
      changes no attempt row; at most it adds the attempt it creates for a
      word that had none. */
  lemma FetchOnlyCreates(attemptRows: seq<Attempt>, guessRows: seq<Guess>, wordLookup: Result<Word>, wordId: int,
                         now: int, f: Faults, d: Defaults)
    requires Attempts.SerialIds(attemptRows)
    ensures var rows' := GameStateOf(attemptRows, guessRows, wordLookup, wordId, now, f, d).1;
      rows' == attemptRows ||
      (FirstWithWord(attemptRows, wordId).None? && |rows'| == |attemptRows| + 1 &&
       rows'[..|attemptRows|] == attemptRows && rows'[|attemptRows|].wordId == wordId)
  {
    var rows' := GameStateOf(attemptRows, guessRows, wordLookup, wordId, now, f, d).1;
    GetOrCreateOutcomes(attemptRows, wordId, now, f.attemptLookup, f.attemptInsert, d);
    if rows' != attemptRows {
      assert rows'[..|attemptRows|] == attemptRows;
    }
  }
}
