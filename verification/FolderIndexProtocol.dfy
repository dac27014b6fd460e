/**
 The folder-index protocol as the code runs it on one goroutine: the skip classifier,
 the filter of a flush, the credit after a flush, and a submit with undo and retry.
 */
module FolderIndexProtocol {
  import opened Wrappers
  import opened FolderIndex

  datatype SubmitError = ErrClosed | ErrFull | ErrQuotaExceeded | OtherError

  /** What one Submit of the batcher returned. */
  type Attempt = Option<SubmitError>

  /**
   One turn of the retry loop: the pending count, whether the stall time has passed, and what a Submit
   would return.
   */
  datatype Poll = Poll(pending: int, stalled: bool, attempt: Attempt)

  predicate Retryable(e: SubmitError) {
    e.ErrFull? || e.ErrQuotaExceeded?
  }

  /** How a call ends: still waiting, accepted, or with an error. */
  datatype Ending = Waiting | Accepted | Failed(error: SubmitError)

  /** At this turn the pending count is below that of the turn before, or below `pending` at the first turn. */
  predicate Falls(pending: int, polls: seq<Poll>, i: nat)
    requires i < |polls|
  {
    polls[i].pending < if i == 0 then pending else polls[i - 1].pending
  }

  /** The loop goes on after this turn: a retry failed and may be repeated, or there was none and time is left. */
  predicate GoesOn(pending: int, polls: seq<Poll>, i: nat)
    requires i < |polls|
  {
    if Falls(pending, polls, i) then polls[i].attempt.Some? && Retryable(polls[i].attempt.value)
    else !polls[i].stalled
  }

  /** The loop comes to turn `n`. */
  predicate Reaches(pending: int, polls: seq<Poll>, n: nat)
    requires n <= |polls|
  {
    forall i: nat :: i < n ==> GoesOn(pending, polls, i)
  }

  /** The loop comes to turn `i`, and the Submit there returns `attempt`. */
  predicate Answers(pending: int, polls: seq<Poll>, i: nat, attempt: Attempt)
    requires i < |polls|
  {
    Reaches(pending, polls, i) && Falls(pending, polls, i) && polls[i].attempt == attempt
  }

  /** The loop comes to turn `i`, where the pending count does not fall and the stall time has passed. */
  predicate StallsAt(pending: int, polls: seq<Poll>, i: nat)
    requires i < |polls|
  {
    Reaches(pending, polls, i) && !Falls(pending, polls, i) && polls[i].stalled
  }

  /** How the retry loop ends when its first attempt failed with `first`. */
  ghost predicate EndsIn(first: SubmitError, pending: int, polls: seq<Poll>, end: Ending) {
    match end
    case Waiting => Reaches(pending, polls, |polls|)
    case Accepted => exists i: nat :: i < |polls| && Answers(pending, polls, i, None)
    case Failed(e) =>
      || (!Retryable(e) && exists i: nat :: i < |polls| && Answers(pending, polls, i, Some(e)))
      || (e == first && exists i: nat :: i < |polls| && StallsAt(pending, polls, i))
  }

  class Protocol {
    var active: bool
    var generation: int
    var inflight: int
    var accepted: nat  // rows that a Submit took

    constructor ()
      ensures !active && generation == 0 && inflight == 0 && accepted == 0
    {
      active, generation, inflight, accepted := false, 0, 0, 0;
    }

    method BumpGeneration(now: int) returns (next: int)
      modifies this`generation
      ensures generation == next && next != old(generation)
      ensures now != 0 && now != old(generation) ==> next == now
      ensures next == FolderIndex.BumpGeneration(old(generation), now)
    {
      var prev := generation;
      next := now;
      if next == 0 || next == prev {
        next := prev + 1;
      }
      generation := next;
    }

    method SaturatingDecrement()
      modifies this`inflight
      ensures inflight == if old(inflight) > 0 then old(inflight) - 1 else old(inflight)
    {
      if inflight > 0 {
        inflight := inflight - 1;
      }
    }

    method IndexOnlyAndRebuildInactive(batch: seq<Write>) returns (drop: bool)
      ensures drop <==> !active && IndexOnly(batch)
    {
      if active {
        return false;
      }
      for i := 0 to |batch|
        invariant IndexOnly(batch[..i])
      {
        if !batch[i].IndexWrite? {
          return false;
        }
      }
      assert batch[..|batch|] == batch;
      return true;
    }

    /** The rows to insert: those of the current generation, if the rebuild is active and its destination exists. */
    method PrepareFlush(batch: seq<Write>, destExists: bool) returns (rows: seq<Write>)
      ensures rows == if active && destExists then RowsOf(batch, generation) else []
    {
      var writes := [];
      for i := 0 to |batch|
        invariant writes == IndexWrites(batch[..i])
      {
        IndexWritesBack(batch, i);
        if batch[i].IndexWrite? {
          writes := writes + [batch[i]];
        }
      }
      assert batch[..|batch|] == batch;
      var skip := IndexOnlyAndRebuildInactive(batch);
      if skip {
        writes := [];
      }
      if !active || !destExists || writes == [] {
        RowsAmongWrites(batch, generation);
        return [];
      }
      rows := [];
      for i := 0 to |writes|
        invariant rows == RowsOf(writes[..i], generation)
      {
        assert writes[..i + 1] == writes[..i] + [writes[i]];
        RowsOfBack(writes[..i], writes[i], generation);
        IndexWritesAreIndex(batch);
        if writes[i].row.generation == generation {
          rows := rows + [writes[i]];
        }
      }
      assert writes[..|writes|] == writes;
      RowsAmongWrites(batch, generation);
    }

    /** One decrement for every flushed row of the current generation, never below zero. */
    method OnBatchSuccess(batch: seq<Write>)
      requires inflight >= 0
      modifies this`inflight
      ensures inflight == if old(inflight) >= |RowsOf(batch, generation)|
                          then old(inflight) - |RowsOf(batch, generation)| else 0
    {
      for i := 0 to |batch|
        invariant inflight == if old(inflight) >= |RowsOf(batch[..i], generation)|
                              then old(inflight) - |RowsOf(batch[..i], generation)| else 0
      {
        assert batch[..i + 1] == batch[..i] + [batch[i]];
        RowsOfBack(batch[..i], batch[i], generation);
        if batch[i].IndexWrite? && batch[i].row.generation == generation {
          SaturatingDecrement();
        }
      }
      assert batch[..|batch|] == batch;
    }

    /** Announces the row, submits it, and takes the announcement back when the Submit fails. */
    method SubmitOnce(attempt: Attempt) returns (err: Option<SubmitError>)
      requires inflight >= 0
      modifies this`inflight, this`accepted
      ensures err == attempt
      ensures inflight == old(inflight) + (if err.None? then 1 else 0)
      ensures accepted == old(accepted) + (if err.None? then 1 else 0)
    {
      inflight := inflight + 1;
      if attempt.Some? {
        SaturatingDecrement();
        return attempt;
      }
      accepted := accepted + 1;
      return None;
    }

    /**
     Submits one row, retrying while the pending count falls.  `polls` is what the loop
     observes; the call is still waiting when they run out.
     */
    method SubmitFolderIndex(hasBatcher: bool, attempt: Attempt, pending: int, polls: seq<Poll>) returns (end: Ending)
      requires inflight >= 0
      modifies this`inflight, this`accepted
      ensures end.Accepted? <==> accepted == old(accepted) + 1
      ensures !end.Accepted? <==> accepted == old(accepted)
      ensures inflight - old(inflight) == accepted - old(accepted)
      ensures !hasBatcher ==> end == Failed(ErrClosed)
      ensures hasBatcher && attempt.None? ==> end == Accepted
      ensures hasBatcher && attempt.Some? && !Retryable(attempt.value) ==> end == Failed(attempt.value)
      ensures hasBatcher && attempt.Some? && Retryable(attempt.value) ==>
                forall e :: EndsIn(attempt.value, pending, polls, e) <==> e == end
    {
      if !hasBatcher {
        return Failed(ErrClosed);
      }
      var err := SubmitOnce(attempt);
      if err.None? {
        return Accepted;
      }
      if !Retryable(err.value) {
        return Failed(err.value);
      }
      var prev := pending;
      for i := 0 to |polls|
        invariant inflight == old(inflight) && accepted == old(accepted)
        invariant prev == if i == 0 then pending else polls[i - 1].pending
        invariant Reaches(pending, polls, i)
      {
        var cur := polls[i].pending;
        if cur < prev {
          var again := SubmitOnce(polls[i].attempt);
          assert Answers(pending, polls, i, again);
          if again.None? {
            OnlyEnding(err.value, pending, polls, Accepted);
            return Accepted;
          }
          if !Retryable(again.value) {
            OnlyEnding(err.value, pending, polls, Failed(again.value));
            return Failed(again.value);
          }
        } else if polls[i].stalled {
          assert StallsAt(pending, polls, i);
          OnlyEnding(err.value, pending, polls, Failed(err.value));
          return Failed(err.value);
        }
        prev := cur;
      }
      OnlyEnding(err.value, pending, polls, Waiting);
      return Waiting;
    }
  }

  function IndexWrites(q: seq<Write>): seq<Write> {
    if q == [] then []
    else if q[|q| - 1].IndexWrite? then IndexWrites(q[..|q| - 1]) + [q[|q| - 1]]
    else IndexWrites(q[..|q| - 1])
  }

  lemma IndexWritesBack(q: seq<Write>, i: nat)
    requires i < |q|
    ensures IndexWrites(q[..i + 1]) == if q[i].IndexWrite? then IndexWrites(q[..i]) + [q[i]] else IndexWrites(q[..i])
  {
    assert q[..i + 1][..i] == q[..i];
  }

  lemma {:induction false} IndexWritesAreIndex(q: seq<Write>)
    ensures IndexOnly(IndexWrites(q))
  {
    if q == [] {
    } else {
      IndexWritesAreIndex(q[..|q| - 1]);
    }
  }

  /** Filtering by kind first leaves the rows of a generation as they are. */
  lemma {:induction false} RowsAmongWrites(q: seq<Write>, g: int)
    ensures RowsOf(IndexWrites(q), g) == RowsOf(q, g)
    ensures IndexWrites(q) == [] ==> RowsOf(q, g) == []
  {
    if q == [] {
    } else {
      var q' := q[..|q| - 1];
      RowsAmongWrites(q', g);
      RowsOfBack(IndexWrites(q'), q[|q| - 1], g);
    }
  }

  /** Every course of the polls has exactly one ending, so that what makes a call end so is also what it takes. */
  lemma RetryEnding(first: SubmitError, pending: int, polls: seq<Poll>, a: Ending, b: Ending)
    requires Retryable(first) && EndsIn(first, pending, polls, a) && EndsIn(first, pending, polls, b)
    ensures a == b
  {
    var i := EndingTurn(first, pending, polls, a);
    var j := EndingTurn(first, pending, polls, b);
    assert i == j;
  }

  lemma OnlyEnding(first: SubmitError, pending: int, polls: seq<Poll>, end: Ending)
    requires Retryable(first) && EndsIn(first, pending, polls, end)
    ensures forall e :: EndsIn(first, pending, polls, e) <==> e == end
  {
    forall e | EndsIn(first, pending, polls, e) ensures e == end {
      RetryEnding(first, pending, polls, e, end);
    }
  }

  lemma EndingTurn(first: SubmitError, pending: int, polls: seq<Poll>, end: Ending) returns (i: nat)
    requires Retryable(first) && EndsIn(first, pending, polls, end)
    ensures i <= |polls| && Reaches(pending, polls, i)
    ensures i == |polls| <==> end.Waiting?
    ensures i < |polls| ==> !GoesOn(pending, polls, i)
    ensures i < |polls| && Falls(pending, polls, i) ==>
              end == if polls[i].attempt == None then Accepted else Failed(polls[i].attempt.value)
    ensures i < |polls| && !Falls(pending, polls, i) ==> end == Failed(first)
  {
    match end
    case Waiting => i := |polls|;
    case Accepted =>
      var k: nat :| k < |polls| && Answers(pending, polls, k, None);
      i := k;
    case Failed(e) =>
      if !Retryable(e) && exists k: nat :: k < |polls| && Answers(pending, polls, k, Some(e)) {
        var k: nat :| k < |polls| && Answers(pending, polls, k, Some(e));
        i := k;
      } else {
        var k: nat :| k < |polls| && StallsAt(pending, polls, k);
        i := k;
      }
  }
}
