/** The hint engine: Word.CheckSubmission of backend/internal/data/words.go.

    The source fills a five-entry hint array in two passes over the
    submission, consuming letters of a scratch copy of the answer by
    overwriting them with '-', then adds up the check codes. The method
    CheckSubmission keeps that shape (an array, a rewritten local string, three
    loops); the functions ExactUpTo and PresentUpTo are the same two passes
    written as folds over the positions, and the lemmas below state what the
    passes promise. */
module Words {

  const WordLength := 5
  /** The sentinel written over a consumed answer letter. */
  const Consumed := '-'

  const Absent := 0
  const Misplaced := 1
  const Exact := 2

  datatype Word = Word(id: int, answer: string, solveCount: int, solveTime: int)

  /** One entry of a hint: the submitted letter (a one-rune string in the
      source) and its check code. */
  datatype CharHint = CharHint(ch: char, check: int)

  /** The source's Hint is a [5]charHint array, returned by value. */
  type Hint = seq<CharHint>

  /** The inputs CheckSubmission is specified for: five ASCII characters, none
      of them the sentinel. */
  predicate IsWord(s: string)
  {
    |s| == WordLength && forall i :: 0 <= i < |s| ==> s[i] != Consumed && (s[i] as int) < 128
  }

  /** strings.Index for a one-character pattern: the leftmost position of c. */
  function IndexOf(s: string, c: char): (r: int)
    ensures -1 <= r < |s|
    ensures r < 0 <==> c !in s
    ensures r >= 0 ==> s[r] == c && forall k :: 0 <= k < r ==> s[k] != c
  {
    if s == [] then -1
    else if s[0] == c then 0
    else
      var k := IndexOf(s[1..], c);
      if k < 0 then -1 else k + 1
  }

  /** strings.Replace(s, c, "-", 1): the leftmost c, if any, becomes the
      sentinel. */
  function ReplaceFirst(s: string, c: char): (r: string)
    ensures |r| == |s|
    ensures c !in s ==> r == s
  {
    var k := IndexOf(s, c);
    if k < 0 then s else s[k := Consumed]
  }

  /** Replacing takes exactly one copy of c out and puts one sentinel in. */
  lemma ReplaceFirstTakesOne(s: string, c: char)
    requires c in s
    ensures multiset(ReplaceFirst(s, c)) == multiset(s) - multiset{c} + multiset{Consumed}
  {
  }

  /** The state the two passes thread through the positions: the check codes
      written so far and the scratch copy of the answer. */
  datatype Scratch = Scratch(checks: seq<int>, work: string)

  predicate Shaped(s: Scratch)
  {
    |s.checks| == WordLength && |s.work| == WordLength
  }

  /** Before the first pass: every check is 0 and the scratch copy is the
      answer. */
  function Start(answer: string): (s: Scratch)
    requires |answer| == WordLength
    ensures Shaped(s)
  {
    Scratch(seq(WordLength, _ => Absent), answer)
  }

  /** Iteration i of the first loop: compare with the scratch copy (not the
      stored answer) and, on a match, code 2 and consume. */
  function ExactStep(sub: string, s: Scratch, i: nat): (r: Scratch)
    requires |sub| == WordLength && Shaped(s) && i < WordLength
    ensures Shaped(r)
  {
    if s.work[i] == sub[i] then Scratch(s.checks[i := Exact], s.work[i := Consumed]) else s
  }

  /** The first n iterations of the first loop. */
  function ExactUpTo(sub: string, s0: Scratch, n: nat): (s: Scratch)
    requires |sub| == WordLength && Shaped(s0) && n <= WordLength
    ensures Shaped(s)
  {
    if n == 0 then s0 else ExactStep(sub, ExactUpTo(sub, s0, n - 1), n - 1)
  }

  /** Iteration i of the second loop: it runs at every position, exact ones
      included; a letter still present in the scratch copy gets code 1 and its
      leftmost copy is consumed. */
  function PresentStep(sub: string, s: Scratch, i: nat): (r: Scratch)
    requires |sub| == WordLength && Shaped(s) && i < WordLength
    ensures Shaped(r)
  {
    if sub[i] in s.work then Scratch(s.checks[i := Misplaced], ReplaceFirst(s.work, sub[i])) else s
  }

  /** The first n iterations of the second loop. */
  function PresentUpTo(sub: string, s0: Scratch, n: nat): (s: Scratch)
    requires |sub| == WordLength && Shaped(s0) && n <= WordLength
    ensures Shaped(s)
  {
    if n == 0 then s0 else PresentStep(sub, PresentUpTo(sub, s0, n - 1), n - 1)
  }

  /** The state after the first loop. */
  function ExactPass(answer: string, sub: string): (s: Scratch)
    requires |answer| == WordLength && |sub| == WordLength
    ensures Shaped(s)
  {
    ExactUpTo(sub, Start(answer), WordLength)
  }

  /** The state after the second loop. */
  function BothPasses(answer: string, sub: string): (s: Scratch)
    requires |answer| == WordLength && |sub| == WordLength
    ensures Shaped(s)
  {
    PresentUpTo(sub, ExactPass(answer, sub), WordLength)
  }

  /** The hint CheckSubmission returns. */
  function Evaluate(answer: string, sub: string): Hint
    requires |answer| == WordLength && |sub| == WordLength
  {
    var s := BothPasses(answer, sub);
    seq(WordLength, i requires 0 <= i < WordLength => CharHint(sub[i], s.checks[i]))
  }

  function ChecksOf(h: seq<CharHint>): seq<int>
  {
    seq(|h|, k requires 0 <= k < |h| => h[k].check)
  }

  lemma ChecksOfUpdate(h: seq<CharHint>, i: nat, e: CharHint)
    requires i < |h|
    ensures ChecksOf(h[i := e]) == ChecksOf(h)[i := e.check]
  {
  }

  /** The sum the third loop computes, added up from the left. */
  function Checksum(h: Hint): int
  {
    if h == [] then 0 else Checksum(h[..|h| - 1]) + h[|h| - 1].check
  }

  predicate AllExact(h: Hint)
  {
    forall i :: 0 <= i < |h| ==> h[i].check == Exact
  }

  /** The letters a hint credits (code 1 or 2), the others blanked out. */
  function Credited(h: Hint): string
  {
    seq(|h|, i requires 0 <= i < |h| => if h[i].check != Absent then h[i].ch else Consumed)
  }

  /** Word.CheckSubmission. The receiver is a value and the scratch copy a
      local, so the stored answer cannot change. The three loops of the
      source are the three methods below, run in order on one hint array. */
  method CheckSubmission(w: Word, submission: string) returns (isSolved: bool, hint: Hint)
    requires IsWord(w.answer) && IsWord(submission)
    ensures hint == Evaluate(w.answer, submission)
    ensures isSolved <==> AllExact(hint)
  {
    isSolved := false;
    var h := new CharHint[WordLength](_ => CharHint('\0', Absent));
    var answer := w.answer;

    // find exact matches and remove them from the scratch copy
    answer := MarkExactMatches(h, answer, submission);
    // find letters present elsewhere, at every position
    answer := MarkPresentLetters(h, answer, submission);
    hint := h[..];

    // checksum on the hint
    var checksum := SumChecks(hint);
    if checksum == 10 {
      isSolved := true;
    }
    EvaluateShape(w.answer, submission);
    ChecksumTen(hint);
  }

  /** The first loop: records each submitted letter and codes 2 the positions
      whose letter equals the scratch copy's, consuming it. */
  method MarkExactMatches(h: array<CharHint>, answer: string, submission: string)
    returns (work: string)
    requires h.Length == WordLength && |answer| == WordLength && |submission| == WordLength
    requires forall k :: 0 <= k < WordLength ==> h[k].check == Absent
    modifies h
    ensures Scratch(ChecksOf(h[..]), work) == ExactPass(answer, submission)
    ensures forall k :: 0 <= k < WordLength ==> h[k].ch == submission[k]
  {
    work := answer;
    assert ChecksOf(h[..]) == Start(answer).checks;
    var i := 0;
    while i < |submission|
      invariant 0 <= i <= WordLength
      invariant |work| == WordLength
      invariant Scratch(ChecksOf(h[..]), work) == ExactUpTo(submission, Start(answer), i)
      invariant forall k :: 0 <= k < i ==> h[k].ch == submission[k]
    {
      ghost var hs := h[..];
      h[i] := h[i].(ch := submission[i]);
      if work[i] == h[i].ch {
        h[i] := h[i].(check := Exact);
        work := work[i := Consumed];
      }
      assert h[..] == hs[i := h[i]];
      ChecksOfUpdate(hs, i, h[i]);
      i := i + 1;
    }
  }

  /** The second loop: at every position, exact ones included, a letter still
      in the scratch copy is coded 1 and its leftmost copy consumed. */
  method MarkPresentLetters(h: array<CharHint>, work0: string, submission: string)
    returns (work: string)
    requires h.Length == WordLength && |work0| == WordLength && |submission| == WordLength
    requires forall k :: 0 <= k < WordLength ==> h[k].ch == submission[k]
    modifies h
    ensures Scratch(ChecksOf(h[..]), work) ==
      PresentUpTo(submission, old(Scratch(ChecksOf(h[..]), work0)), WordLength)
    ensures forall k :: 0 <= k < WordLength ==> h[k].ch == submission[k]
  {
    work := work0;
    ghost var s0 := Scratch(ChecksOf(h[..]), work0);
    var i := 0;
    while i < |submission|
      invariant 0 <= i <= WordLength
      invariant |work| == WordLength
      invariant Scratch(ChecksOf(h[..]), work) == PresentUpTo(submission, s0, i)
      invariant forall k :: 0 <= k < WordLength ==> h[k].ch == submission[k]
    {
      ghost var hs := h[..];
      if h[i].ch in work {
        h[i] := h[i].(check := Misplaced);
        work := ReplaceFirst(work, h[i].ch);
        assert h[..] == hs[i := h[i]];
        ChecksOfUpdate(hs, i, h[i]);
      }
      i := i + 1;
    }
  }

  /** The third loop: the sum of the check codes. */
  method SumChecks(hint: Hint) returns (checksum: int)
    ensures checksum == Checksum(hint)
  {
    checksum := 0;
    var i := 0;
    while i < |hint|
      invariant 0 <= i <= |hint|
      invariant checksum == Checksum(hint[..i])
    {
      assert hint[..i + 1][..i] == hint[..i];
      checksum := checksum + hint[i].check;
      i := i + 1;
    }
    assert hint[..|hint|] == hint;
  }

  // ---------------------------------------------------------------------
  // The first pass

  /** The first pass compares each position with the original letter: the
      sentinel is only ever written at positions already visited. After n
      iterations, position k < n is coded 2 and consumed exactly when it
      matches; positions from n on are untouched. */
  lemma {:induction false} ExactUpToPositional(answer: string, sub: string, n: nat)
    requires |answer| == WordLength && |sub| == WordLength && n <= WordLength
    ensures var s := ExactUpTo(sub, Start(answer), n);
      forall k :: 0 <= k < WordLength ==>
        s.checks[k] == (if k < n && sub[k] == answer[k] then Exact else Absent) &&
        s.work[k] == (if k < n && sub[k] == answer[k] then Consumed else answer[k])
  {
    if n > 0 {
      ExactUpToPositional(answer, sub, n - 1);
    }
  }

  // ---------------------------------------------------------------------
  // The second pass

  /** After n iterations of the second loop, position k < n holds 1 exactly
      when its letter was still unconsumed when the loop reached k, and keeps
      its first-pass code otherwise; later iterations never touch it. */
  lemma {:induction false} PresentUpToAt(sub: string, s0: Scratch, n: nat)
    requires |sub| == WordLength && Shaped(s0) && n <= WordLength
    ensures forall k :: 0 <= k < WordLength ==>
      PresentUpTo(sub, s0, n).checks[k] ==
        if k < n && sub[k] in PresentUpTo(sub, s0, k).work then Misplaced else s0.checks[k]
  {
    if n > 0 {
      PresentUpToAt(sub, s0, n - 1);
    }
  }

  /** The final code at every position, exact ones included: 1 if the letter
      was still unconsumed when the second loop reached it (an exact match is
      then downgraded), otherwise 2 for an exact match and 0 for the rest. */
  lemma SecondPassRevisitsExact(answer: string, sub: string, i: nat)
    requires |answer| == WordLength && |sub| == WordLength && i < WordLength
    ensures Evaluate(answer, sub)[i].check ==
      if sub[i] in PresentUpTo(sub, ExactPass(answer, sub), i).work then Misplaced
      else if sub[i] == answer[i] then Exact
      else Absent
  {
    ExactUpToPositional(answer, sub, WordLength);
    PresentUpToAt(sub, ExactPass(answer, sub), WordLength);
  }

  /** A hint has five entries, entry i carries the submitted letter i and a
      code in {0, 1, 2}; code 2 only where the letters match, code 0 only
      where they do not. */
  lemma EvaluateShape(answer: string, sub: string)
    requires |answer| == WordLength && |sub| == WordLength
    ensures var h := Evaluate(answer, sub);
      |h| == WordLength &&
      forall i :: 0 <= i < WordLength ==>
        h[i].ch == sub[i] &&
        h[i].check in {Absent, Misplaced, Exact} &&
        (h[i].check == Exact ==> sub[i] == answer[i]) &&
        (h[i].check == Absent ==> sub[i] != answer[i])
  {
    forall i | 0 <= i < WordLength
      ensures Evaluate(answer, sub)[i].check in {Absent, Misplaced, Exact}
      ensures Evaluate(answer, sub)[i].check == Exact ==> sub[i] == answer[i]
      ensures Evaluate(answer, sub)[i].check == Absent ==> sub[i] != answer[i]
    {
      SecondPassRevisitsExact(answer, sub, i);
    }
  }

  // ---------------------------------------------------------------------
  // Letter accounting

  /** The letters the codes written so far credit, the others blanked out. */
  function Marked(sub: string, checks: seq<int>): (m: string)
    requires |sub| == WordLength && |checks| == WordLength
  {
    seq(WordLength, i requires 0 <= i < WordLength => if checks[i] != Absent then sub[i] else Consumed)
  }

  /** How many copies of c are credited or still unconsumed. */
  function Held(sub: string, s: Scratch, c: char): int
    requires |sub| == WordLength && Shaped(s)
  {
    multiset(Marked(sub, s.checks))[c] + multiset(s.work)[c]
  }

  /** Each exact match moves one copy of its letter from the scratch copy to
      the credited letters, so the first pass holds exactly the answer's
      letters. */
  lemma {:induction false} ExactUpToConserves(answer: string, sub: string, n: nat)
    requires |answer| == WordLength && |sub| == WordLength && n <= WordLength
    ensures forall c :: c != Consumed ==>
      Held(sub, ExactUpTo(sub, Start(answer), n), c) == multiset(answer)[c]
  {
    if n == 0 {
      var s := Start(answer);
      assert Marked(sub, s.checks) == seq(WordLength, _ => Consumed);
      assert forall c :: c != Consumed ==> multiset(Marked(sub, s.checks))[c] == 0;
    } else {
      ExactUpToConserves(answer, sub, n - 1);
      ExactUpToPositional(answer, sub, n - 1);
      var s := ExactUpTo(sub, Start(answer), n - 1);
      var i := n - 1;
      if s.work[i] == sub[i] {
        var t := ExactStep(sub, s, i);
        assert s.checks[i] == Absent;
        assert Marked(sub, t.checks) == Marked(sub, s.checks)[i := sub[i]];
        assert t.work == s.work[i := Consumed];
      }
    }
  }

  /** An iteration of the second loop never adds to what is held: crediting
      position i takes one copy of its letter out of the scratch copy, and an
      exact position that finds another copy only loses one. */
  lemma {:induction false} PresentUpToNonIncreasing(sub: string, s0: Scratch, n: nat)
    requires |sub| == WordLength && Shaped(s0) && n <= WordLength
    ensures forall c :: c != Consumed ==> Held(sub, PresentUpTo(sub, s0, n), c) <= Held(sub, s0, c)
  {
    if n > 0 {
      PresentUpToNonIncreasing(sub, s0, n - 1);
      var s := PresentUpTo(sub, s0, n - 1);
      var i := n - 1;
      if sub[i] in s.work {
        var t := PresentStep(sub, s, i);
        ReplaceFirstTakesOne(s.work, sub[i]);
        if s.checks[i] != Absent {
          assert Marked(sub, t.checks) == Marked(sub, s.checks);
        } else {
          assert Marked(sub, t.checks) == Marked(sub, s.checks)[i := sub[i]];
        }
      }
    }
  }

  /** For every letter, the positions the hint credits (code 1 or 2) number
      at most the copies of that letter in the answer. */
  lemma CreditedWithinAnswer(answer: string, sub: string)
    requires |answer| == WordLength && |sub| == WordLength
    ensures forall c :: c != Consumed ==>
      multiset(Credited(Evaluate(answer, sub)))[c] <= multiset(answer)[c]
  {
    ExactUpToConserves(answer, sub, WordLength);
    PresentUpToNonIncreasing(sub, ExactPass(answer, sub), WordLength);
    assert Credited(Evaluate(answer, sub)) == Marked(sub, BothPasses(answer, sub).checks);
  }

  // ---------------------------------------------------------------------
  // Solved detection

  /** With codes in {0, 1, 2}, the checksum is at most twice the length and
      reaches it exactly when every code is 2. */
  lemma {:induction false} ChecksumBound(h: Hint)
    requires forall i :: 0 <= i < |h| ==> 0 <= h[i].check <= Exact
    ensures 0 <= Checksum(h) <= 2 * |h|
    ensures Checksum(h) == 2 * |h| <==> AllExact(h)
  {
    if h != [] {
      var init := h[..|h| - 1];
      ChecksumBound(init);
      if Checksum(h) == 2 * |h| {
        assert h[|h| - 1].check == Exact;
        assert forall i :: 0 <= i < |init| ==> init[i].check == Exact;
      }
    }
  }

  /** The source's solved test, checksum == 10, is "every code is 2" for a
      five-entry hint with codes in {0, 1, 2}. */
  lemma ChecksumTen(h: Hint)
    requires |h| == WordLength
    requires forall i :: 0 <= i < |h| ==> h[i].check in {Absent, Misplaced, Exact}
    ensures Checksum(h) == 10 <==> AllExact(h)
  {
    ChecksumBound(h);
  }

  /** A second loop that finds none of the submitted letters changes nothing. */
  lemma {:induction false} PresentUpToIdle(sub: string, s0: Scratch, n: nat)
    requires |sub| == WordLength && Shaped(s0) && n <= WordLength
    requires forall k :: 0 <= k < WordLength ==> sub[k] !in s0.work
    ensures PresentUpTo(sub, s0, n) == s0
  {
    if n > 0 {
      PresentUpToIdle(sub, s0, n - 1);
    }
  }

  /** Submitting the answer itself codes every position 2, so it solves. */
  lemma AnswerSolvesItself(answer: string)
    requires IsWord(answer)
    ensures AllExact(Evaluate(answer, answer))
    ensures Checksum(Evaluate(answer, answer)) == 10
  {
    ExactUpToPositional(answer, answer, WordLength);
    var e := ExactPass(answer, answer);
    assert forall k :: 0 <= k < WordLength ==> e.work[k] == Consumed;
    PresentUpToIdle(answer, e, WordLength);
    EvaluateShape(answer, answer);
    ChecksumTen(Evaluate(answer, answer));
  }

  // ---------------------------------------------------------------------
  // Worked examples

  /** strings.Index finds the leftmost occurrence. */
  lemma {:induction false} IndexOfIs(s: string, c: char, k: nat)
    requires k < |s| && s[k] == c && forall j :: 0 <= j < k ==> s[j] != c
    ensures IndexOf(s, c) == k
  {
    if k > 0 {
      IndexOfIs(s[1..], c, k - 1);
    }
  }

  /** An iteration of the second loop that finds the letter at k. */
  lemma PresentStepHit(sub: string, s: Scratch, i: nat, k: nat, t: Scratch)
    requires |sub| == WordLength && Shaped(s) && i < WordLength && k < WordLength
    requires s.work[k] == sub[i] && forall j :: 0 <= j < k ==> s.work[j] != sub[i]
    requires t == Scratch(s.checks[i := Misplaced], s.work[k := Consumed])
    ensures PresentStep(sub, s, i) == t
  {
    IndexOfIs(s.work, sub[i], k);
  }

  /** An iteration of the second loop that finds nothing. */
  lemma PresentStepMiss(sub: string, s: Scratch, i: nat)
    requires |sub| == WordLength && Shaped(s) && i < WordLength
    requires forall j :: 0 <= j < WordLength ==> s.work[j] != sub[i]
    ensures PresentStep(sub, s, i) == s
  {
  }

  /** Reading the second loop off a trace of its five iterations. */
  lemma PresentByTrace(sub: string, s0: Scratch, s1: Scratch, s2: Scratch,
                       s3: Scratch, s4: Scratch, s5: Scratch)
    requires |sub| == WordLength
    requires Shaped(s0) && Shaped(s1) && Shaped(s2) && Shaped(s3) && Shaped(s4)
    requires PresentStep(sub, s0, 0) == s1 && PresentStep(sub, s1, 1) == s2
    requires PresentStep(sub, s2, 2) == s3 && PresentStep(sub, s3, 3) == s4
    requires PresentStep(sub, s4, 4) == s5
    ensures PresentUpTo(sub, s0, WordLength) == s5
  {
    assert PresentUpTo(sub, s0, 1) == s1;
    assert PresentUpTo(sub, s0, 2) == s2;
    assert PresentUpTo(sub, s0, 3) == s3;
    assert PresentUpTo(sub, s0, 4) == s4;
  }

  /** Answer SPEED, submission SPEND: the exact E at position 2 is downgraded
      to 1, because the second E of the answer is still unconsumed when the
      second loop reaches it. */
  lemma ExactMatchDowngraded()
    ensures ChecksOf(Evaluate("SPEED", "SPEND")) == [2, 2, 1, 0, 2]
  {
    ExactUpToPositional("SPEED", "SPEND", WordLength);
    assert ExactPass("SPEED", "SPEND") == Scratch([2, 2, 2, 0, 2], "---E-");
    ExactMatchDowngradedSecondPass();
  }

  lemma ExactMatchDowngradedSecondPass()
    ensures PresentUpTo("SPEND", Scratch([2, 2, 2, 0, 2], "---E-"), WordLength) == Scratch([2, 2, 1, 0, 2], "-----")
  {
    PresentStepMiss("SPEND", Scratch([2, 2, 2, 0, 2], "---E-"), 0);
    PresentStepMiss("SPEND", Scratch([2, 2, 2, 0, 2], "---E-"), 1);
    PresentStepHit("SPEND", Scratch([2, 2, 2, 0, 2], "---E-"), 2, 3, Scratch([2, 2, 1, 0, 2], "-----"));
    PresentStepMiss("SPEND", Scratch([2, 2, 1, 0, 2], "-----"), 3);
    PresentStepMiss("SPEND", Scratch([2, 2, 1, 0, 2], "-----"), 4);
    PresentByTrace("SPEND",
      Scratch([2, 2, 2, 0, 2], "---E-"),
      Scratch([2, 2, 2, 0, 2], "---E-"),
      Scratch([2, 2, 2, 0, 2], "---E-"),
      Scratch([2, 2, 1, 0, 2], "-----"),
      Scratch([2, 2, 1, 0, 2], "-----"),
      Scratch([2, 2, 1, 0, 2], "-----"));
  }

  /** Answer SPEED, submission ERASE: both E's of the submission are credited,
      since the answer has two. */
  lemma BothCopiesCredited()
    ensures ChecksOf(Evaluate("SPEED", "ERASE")) == [1, 0, 0, 1, 1]
  {
    ExactUpToPositional("SPEED", "ERASE", WordLength);
    assert ExactPass("SPEED", "ERASE") == Scratch([0, 0, 0, 0, 0], "SPEED");
    BothCopiesCreditedSecondPass();
  }

  lemma BothCopiesCreditedSecondPass()
    ensures PresentUpTo("ERASE", Scratch([0, 0, 0, 0, 0], "SPEED"), WordLength) == Scratch([1, 0, 0, 1, 1], "-P--D")
  {
    PresentStepHit("ERASE", Scratch([0, 0, 0, 0, 0], "SPEED"), 0, 2, Scratch([1, 0, 0, 0, 0], "SP-ED"));
    PresentStepMiss("ERASE", Scratch([1, 0, 0, 0, 0], "SP-ED"), 1);
    PresentStepMiss("ERASE", Scratch([1, 0, 0, 0, 0], "SP-ED"), 2);
    PresentStepHit("ERASE", Scratch([1, 0, 0, 0, 0], "SP-ED"), 3, 0, Scratch([1, 0, 0, 1, 0], "-P-ED"));
    PresentStepHit("ERASE", Scratch([1, 0, 0, 1, 0], "-P-ED"), 4, 3, Scratch([1, 0, 0, 1, 1], "-P--D"));
    PresentByTrace("ERASE",
      Scratch([0, 0, 0, 0, 0], "SPEED"),
      Scratch([1, 0, 0, 0, 0], "SP-ED"),
      Scratch([1, 0, 0, 0, 0], "SP-ED"),
      Scratch([1, 0, 0, 0, 0], "SP-ED"),
      Scratch([1, 0, 0, 1, 0], "-P-ED"),
      Scratch([1, 0, 0, 1, 1], "-P--D"));
  }

  /** Answer ALLOY, submission LOLLY: two L's are credited, as many as the
      answer has. */
  lemma DuplicateLettersBounded()
    ensures ChecksOf(Evaluate("ALLOY", "LOLLY")) == [1, 1, 2, 0, 2]
  {
    ExactUpToPositional("ALLOY", "LOLLY", WordLength);
    assert ExactPass("ALLOY", "LOLLY") == Scratch([0, 0, 2, 0, 2], "AL-O-");
    DuplicateLettersBoundedSecondPass();
  }

  lemma DuplicateLettersBoundedSecondPass()
    ensures PresentUpTo("LOLLY", Scratch([0, 0, 2, 0, 2], "AL-O-"), WordLength) == Scratch([1, 1, 2, 0, 2], "A----")
  {
    PresentStepHit("LOLLY", Scratch([0, 0, 2, 0, 2], "AL-O-"), 0, 1, Scratch([1, 0, 2, 0, 2], "A--O-"));
    PresentStepHit("LOLLY", Scratch([1, 0, 2, 0, 2], "A--O-"), 1, 3, Scratch([1, 1, 2, 0, 2], "A----"));
    PresentStepMiss("LOLLY", Scratch([1, 1, 2, 0, 2], "A----"), 2);
    PresentStepMiss("LOLLY", Scratch([1, 1, 2, 0, 2], "A----"), 3);
    PresentStepMiss("LOLLY", Scratch([1, 1, 2, 0, 2], "A----"), 4);
    PresentByTrace("LOLLY",
      Scratch([0, 0, 2, 0, 2], "AL-O-"),
      Scratch([1, 0, 2, 0, 2], "A--O-"),
      Scratch([1, 1, 2, 0, 2], "A----"),
      Scratch([1, 1, 2, 0, 2], "A----"),
      Scratch([1, 1, 2, 0, 2], "A----"),
      Scratch([1, 1, 2, 0, 2], "A----"));
  }
}
