/** The guesses table and GuessModel of backend/internal/data/guess.go: the
    two storage calls the handlers make. Rows are kept in insertion order with
    serial ids, and a listing returns them in that order. */
module Guesses {
  import opened Outcomes
  import opened Words

  datatype Guess = Guess(id: int, wordId: int, attemptId: int, submission: string, createdAt: int, submissionTime: int)

  /** The rows of one attempt, in table order. */
  function ForAttempt(rows: seq<Guess>, attemptId: int): (r: seq<Guess>)
    ensures |r| <= |rows|
    ensures forall k :: 0 <= k < |r| ==> r[k].attemptId == attemptId && r[k] in rows
  {
    if rows == [] then []
    else
      var last := rows[|rows| - 1];
      ForAttempt(rows[..|rows| - 1], attemptId) + (if last.attemptId == attemptId then [last] else [])
  }

  /** Serial ids: row k has id k + 1. */
  predicate SerialIds(rows: seq<Guess>)
  {
    forall k :: 0 <= k < |rows| ==> rows[k].id == k + 1
  }

  /** Every stored submission is a five-letter word the hint engine accepts. */
  predicate Playable(rows: seq<Guess>)
  {
    forall k :: 0 <= k < |rows| ==> IsWord(rows[k].submission)
  }

  class GuessModel {
    var rows: seq<Guess>

    predicate Valid()
      reads this
    {
      SerialIds(rows)
    }

    constructor ()
      ensures Valid() && rows == []
    {
      rows := [];
    }

    /** INSERT INTO guesses ... RETURNING id, created_at: the guess is stored
        and its generated columns are copied back into it. */
    method Insert(guess: Guess, now: int, fault: Option<string>) returns (inserted: Guess, err: Option<Error>)
      requires Valid()
      modifies this
      ensures Valid()
      ensures fault.Some? ==> err == Some(DbFailure(fault.value)) && inserted == guess && rows == old(rows)
      ensures fault.None? ==>
        err.None? && inserted == guess.(id := |old(rows)| + 1, createdAt := now) &&
        rows == old(rows) + [inserted]
    {
      if fault.Some? {
        return guess, Some(DbFailure(fault.value));
      }
      inserted := guess.(id := |rows| + 1, createdAt := now);
      rows := rows + [inserted];
      err := None;
    }

    /** SELECT ... FROM guesses WHERE attempt_id = $1, scanned row by row. */
    method GetGuessesFromAttemptId(attemptId: int, fault: Option<string>) returns (r: Result<seq<Guess>>)
      ensures fault.Some? ==> r == Err(DbFailure(fault.value))
      ensures fault.None? ==> r.Ok? && r.value == ForAttempt(rows, attemptId)
    {
      if fault.Some? {
        return Err(DbFailure(fault.value));
      }
      var guesses: seq<Guess> := [];
      var i := 0;
      while i < |rows|
        invariant 0 <= i <= |rows|
        invariant guesses == ForAttempt(rows[..i], attemptId)
      {
        assert rows[..i + 1][..i] == rows[..i];
        if rows[i].attemptId == attemptId {
          guesses := guesses + [rows[i]];
        }
        i := i + 1;
      }
      assert rows[..|rows|] == rows;
      r := Ok(guesses);
    }
  }

  /** Every row of the attempt is listed: ForAttempt is exactly the rows whose
      attempt_id matches, and their order is the table's. */
  lemma {:induction false} ForAttemptComplete(rows: seq<Guess>, attemptId: int, k: int)
    requires 0 <= k < |rows| && rows[k].attemptId == attemptId
    ensures rows[k] in ForAttempt(rows, attemptId)
  {
    if k < |rows| - 1 {
      ForAttemptComplete(rows[..|rows| - 1], attemptId, k);
    }
  }

  /** Storing a guess for the attempt extends the attempt's listing by exactly
      that guess, at the end; storing one for another attempt leaves it. */
  lemma ForAttemptAppend(rows: seq<Guess>, g: Guess, attemptId: int)
    ensures g.attemptId == attemptId ==> ForAttempt(rows + [g], attemptId) == ForAttempt(rows, attemptId) + [g]
    ensures g.attemptId != attemptId ==> ForAttempt(rows + [g], attemptId) == ForAttempt(rows, attemptId)
  {
    assert (rows + [g])[..|rows|] == rows;
  }

  /** A listing of playable rows is playable. */
  lemma {:induction false} ForAttemptPlayable(rows: seq<Guess>, attemptId: int)
    requires Playable(rows)
    ensures Playable(ForAttempt(rows, attemptId))
  {
    if rows != [] {
      ForAttemptPlayable(rows[..|rows| - 1], attemptId);
    }
  }
}
