/** The attempts table and AttemptModel of backend/internal/data/attempt.go.

    The table is a sequence of rows in insertion order; the id column is a
    serial, so row k has id k + 1. Storage failures are parameters. The
    functions GetOrCreate and SetFlags give the effect of the lookup-or-create
    and update operations on the table; the methods of AttemptModel are proved
    to have exactly that effect, and the lemmas state what the effect
    promises. */
module Attempts {
  import opened Outcomes

  datatype Attempt = Attempt(id: int, wordId: int, isOpen: bool, isSolved: bool, createdAt: int)

  /** The column defaults the INSERT's RETURNING clause reads back; the schema
      that sets them is not part of this model. */
  datatype Defaults = Defaults(isOpen: bool, isSolved: bool)

  /** The row a single-row SELECT ... WHERE word_id = $1 yields: the first one
      in table order. */
  function FirstWithWord(rows: seq<Attempt>, wordId: int): (r: Option<nat>)
    ensures r.None? <==> forall k :: 0 <= k < |rows| ==> rows[k].wordId != wordId
    ensures r.Some? ==>
      r.value < |rows| && rows[r.value].wordId == wordId &&
      forall k :: 0 <= k < r.value ==> rows[k].wordId != wordId
  {
    if rows == [] then None
    else if rows[0].wordId == wordId then Some(0)
    else match FirstWithWord(rows[1..], wordId)
      case None => None
      case Some(k) => Some(k + 1)
  }

  /** Serial ids: row k has id k + 1. */
  predicate SerialIds(rows: seq<Attempt>)
  {
    forall k :: 0 <= k < |rows| ==> rows[k].id == k + 1
  }

  /** At most one attempt per word. */
  predicate UniqueWords(rows: seq<Attempt>)
  {
    forall i, j :: 0 <= i < j < |rows| ==> rows[i].wordId != rows[j].wordId
  }

  /** The effect of Update: the row whose id is a.id takes a's is_solved and
      is_open; every other column and row stays. */
  function SetFlags(rows: seq<Attempt>, a: Attempt): seq<Attempt>
  {
    seq(|rows|, k requires 0 <= k < |rows| =>
      if rows[k].id == a.id then rows[k].(isSolved := a.isSolved, isOpen := a.isOpen) else rows[k])
  }

  /** The result and the new table of GetFromWordIdOrCreate. A found row comes
      back with IsSolved false, because the lookup does not select is_solved;
      a created one comes back with the column defaults. */
  function GetOrCreate(rows: seq<Attempt>, wordId: int, now: int, lookupFault: Option<string>,
                       insertFault: Option<string>, defaults: Defaults): (Result<Attempt>, seq<Attempt>)
  {
    if lookupFault.Some? then (Err(DbFailure(lookupFault.value)), rows)
    else match FirstWithWord(rows, wordId)
      case Some(k) => (Ok(rows[k].(isSolved := false)), rows)
      case None =>
        if insertFault.Some? then (Err(DbFailure(insertFault.value)), rows)
        else
          var a := Attempt(|rows| + 1, wordId, defaults.isOpen, defaults.isSolved, now);
          (Ok(a), rows + [a])
  }

  class AttemptModel {
    var rows: seq<Attempt>
    const defaults: Defaults

    predicate Valid()
      reads this
    {
      SerialIds(rows)
    }

    constructor (defaults: Defaults)
      ensures Valid() && rows == [] && this.defaults == defaults
    {
      this.rows := [];
      this.defaults := defaults;
    }

    /** INSERT INTO attempts (word_id) ... RETURNING id, created_at, is_solved,
        is_open: a new row for attempt.wordId, whose generated columns are
        copied back into the attempt. */
    method Insert(attempt: Attempt, now: int, fault: Option<string>) returns (inserted: Attempt, err: Option<Error>)
      requires Valid()
      modifies this
      ensures Valid()
      ensures fault.Some? ==> err == Some(DbFailure(fault.value)) && inserted == attempt && rows == old(rows)
      ensures fault.None? ==>
        err.None? &&
        inserted == Attempt(|old(rows)| + 1, attempt.wordId, defaults.isOpen, defaults.isSolved, now) &&
        rows == old(rows) + [inserted]
    {
      if fault.Some? {
        return attempt, Some(DbFailure(fault.value));
      }
      inserted := attempt.(id := |rows| + 1, createdAt := now, isSolved := defaults.isSolved, isOpen := defaults.isOpen);
      rows := rows + [inserted];
      err := None;
    }

    /** UPDATE attempts SET is_solved, is_open WHERE id = attempt.id. */
    method Update(attempt: Attempt, fault: Option<string>) returns (err: Option<Error>)
      requires Valid()
      modifies this
      ensures Valid()
      ensures fault.Some? ==> err == Some(DbFailure(fault.value)) && rows == old(rows)
      ensures fault.None? ==> err.None? && rows == SetFlags(old(rows), attempt)
    {
      if fault.Some? {
        return Some(DbFailure(fault.value));
      }
      rows := SetFlags(rows, attempt);
      err := None;
    }

    /** SELECT id, word_id, is_open, created_at ... WHERE word_id = $1: the
        first row for the word, with IsSolved left at false; no row is
        ErrRecordNotFound. */
    method GetFromWordId(wordId: int, fault: Option<string>) returns (r: Result<Attempt>)
      requires Valid()
      ensures fault.Some? ==> r == Err(DbFailure(fault.value))
      ensures fault.None? ==> (r.Ok? <==> exists k :: 0 <= k < |rows| && rows[k].wordId == wordId)
      ensures r.Err? && fault.None? ==> r.error == RecordNotFound
      ensures r.Ok? ==>
        var k := r.value.id - 1;
        0 <= k < |rows| && rows[k].wordId == wordId && r.value == rows[k].(isSolved := false) &&
        forall j :: 0 <= j < k ==> rows[j].wordId != wordId
    {
      if fault.Some? {
        return Err(DbFailure(fault.value));
      }
      match FirstWithWord(rows, wordId)
      case None =>
        r := Err(RecordNotFound);
      case Some(k) =>
        var row := rows[k];
        r := Ok(Attempt(row.id, row.wordId, row.isOpen, false, row.createdAt));
    }

    /** Look the attempt up; on ErrRecordNotFound insert a new one for the
        word; any other error, of the lookup or of the insert, is returned. */
    method GetFromWordIdOrCreate(wordId: int, now: int, lookupFault: Option<string>, insertFault: Option<string>)
      returns (r: Result<Attempt>)
      requires Valid()
      modifies this
      ensures Valid()
      ensures (r, rows) == GetOrCreate(old(rows), wordId, now, lookupFault, insertFault, defaults)
    {
      r := GetFromWordId(wordId, lookupFault);
      if r.Err? && r.error == RecordNotFound {
        var attempt := Attempt(0, wordId, false, false, 0);
        var inserted, err := Insert(attempt, now, insertFault);
        r := if err.Some? then Err(err.value) else Ok(inserted);
      }
    }
  }

  // ---------------------------------------------------------------------
  // What the table operations promise

  lemma {:induction false} FirstWithWordAppend(rows: seq<Attempt>, a: Attempt)
    requires FirstWithWord(rows, a.wordId).None?
    ensures FirstWithWord(rows + [a], a.wordId) == Some(|rows|)
  {
    if rows != [] {
      assert (rows + [a])[1..] == rows[1..] + [a];
      FirstWithWordAppend(rows[1..], a);
    }
  }

  /** Update never moves the row a lookup finds for any word. */
  lemma {:induction false} SetFlagsKeepsLookup(rows: seq<Attempt>, a: Attempt, wordId: int)
    ensures |SetFlags(rows, a)| == |rows|
    ensures FirstWithWord(SetFlags(rows, a), wordId) == FirstWithWord(rows, wordId)
  {
    if rows != [] {
      assert SetFlags(rows, a)[1..] == SetFlags(rows[1..], a);
      SetFlagsKeepsLookup(rows[1..], a, wordId);
    }
  }

  /** Update keeps the ids and the one-attempt-per-word property, and writing
      the same flags twice is writing them once. */
  lemma SetFlagsInvariants(rows: seq<Attempt>, a: Attempt)
    ensures SerialIds(rows) ==> SerialIds(SetFlags(rows, a))
    ensures UniqueWords(rows) ==> UniqueWords(SetFlags(rows, a))
    ensures SetFlags(SetFlags(rows, a), a) == SetFlags(rows, a)
  {
  }

  /** If an attempt exists for the word, GetFromWordIdOrCreate returns it and
      inserts nothing; if none exists and the lookup succeeds, it inserts
      exactly one row for the word; every error leaves the table as it was. */
  lemma GetOrCreateOutcomes(rows: seq<Attempt>, wordId: int, now: int, lookupFault: Option<string>,
                            insertFault: Option<string>, d: Defaults)
    requires SerialIds(rows)
    ensures var (r, rows') := GetOrCreate(rows, wordId, now, lookupFault, insertFault, d);
      SerialIds(rows') &&
      (r.Err? ==> rows' == rows && r.error != RecordNotFound) &&
      (lookupFault.Some? ==> r == Err(DbFailure(lookupFault.value))) &&
      ((exists k :: 0 <= k < |rows| && rows[k].wordId == wordId) && lookupFault.None? ==>
         rows' == rows && r.Ok? && rows[r.value.id - 1].wordId == wordId) &&
      ((forall k :: 0 <= k < |rows| ==> rows[k].wordId != wordId) && lookupFault.None? ==>
         (insertFault.None? <==> r.Ok?) && (r.Ok? ==> rows' == rows + [r.value] && r.value.wordId == wordId))
  {
  }

  /** A second lookup-or-create for the same word returns the attempt the
      first one returned (same id, row, and IsSolved false) and inserts
      nothing, whatever the insert would have done. */
  lemma GetOrCreateIdempotent(rows: seq<Attempt>, wordId: int, now: int, now2: int, insertFault: Option<string>,
                              insertFault2: Option<string>, d: Defaults)
    requires SerialIds(rows)
    ensures var (r, rows') := GetOrCreate(rows, wordId, now, None, insertFault, d);
      r.Ok? ==>
        var (r2, rows'') := GetOrCreate(rows', wordId, now2, None, insertFault2, d);
        rows'' == rows' && r2 == Ok(r.value.(isSolved := false))
  {
    var (r, rows') := GetOrCreate(rows, wordId, now, None, insertFault, d);
    if r.Ok? && FirstWithWord(rows, wordId).None? {
      FirstWithWordAppend(rows, r.value);
    }
  }

  /** Lookup-or-create keeps one attempt per word, and after a success the
      table holds exactly one row for the word. */
  lemma GetOrCreateKeepsUnique(rows: seq<Attempt>, wordId: int, now: int, lookupFault: Option<string>,
                               insertFault: Option<string>, d: Defaults)
    requires UniqueWords(rows)
    ensures var (r, rows') := GetOrCreate(rows, wordId, now, lookupFault, insertFault, d);
      UniqueWords(rows') &&
      (r.Ok? ==> exists k :: 0 <= k < |rows'| && rows'[k].wordId == wordId &&
                   forall j :: 0 <= j < |rows'| && j != k ==> rows'[j].wordId != wordId)
  {
    var (r, rows') := GetOrCreate(rows, wordId, now, lookupFault, insertFault, d);
    if r.Ok? {
      if FirstWithWord(rows, wordId).Some? {
        var k := FirstWithWord(rows, wordId).value;
        assert rows'[k].wordId == wordId;
      } else {
        assert rows'[|rows|].wordId == wordId;
      }
    }
  }
}
