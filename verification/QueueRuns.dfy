/**
 Whole runs of the durable queue over any number of sessions, and stopping them between
 any two file-system steps.
 */
module QueueRuns {
  import opened Wrappers
  import opened Bytes
  import opened SegmentLog
  import opened QueueDisk
  import opened DurableQueue

  /** An operation; `Reopen` closes the queue and opens its directory again. */
  datatype QueueOp<T> = Push(item: T) | Pop | Reopen

  /** The plain FIFO sequence after one operation. */
  function Applied<T>(s: seq<T>, op: QueueOp<T>): seq<T> {
    match op
    case Push(x) => s + [x]
    case Pop => if s == [] then [] else s[1..]
    case Reopen => s
  }

  function After<T>(s: seq<T>, ops: seq<QueueOp<T>>): seq<T> {
    if ops == [] then s else Applied(After(s, ops[..|ops| - 1]), ops[|ops| - 1])
  }

  /** What the pops of a run return, oldest first. */
  function Popped<T>(s: seq<T>, ops: seq<QueueOp<T>>): seq<T> {
    if ops == [] then []
    else
      var rest, before := Popped(s, ops[..|ops| - 1]), After(s, ops[..|ops| - 1]);
      if ops[|ops| - 1].Pop? && before != [] then rest + [before[0]] else rest
  }

  function Pushed<T>(ops: seq<QueueOp<T>>): seq<T> {
    if ops == [] then []
    else
      var rest := Pushed(ops[..|ops| - 1]);
      if ops[|ops| - 1].Push? then rest + [ops[|ops| - 1].item] else rest
  }

  /** First in, first out, across sessions: what went in is what came out followed by what is left. */
  lemma {:induction false} FirstInFirstOut<T>(s: seq<T>, ops: seq<QueueOp<T>>)
    ensures s + Pushed(ops) == Popped(s, ops) + After(s, ops)
  {
    if ops == [] {
    } else {
      var ops' := ops[..|ops| - 1];
      FirstInFirstOut(s, ops');
      var before := After(s, ops');
      match ops[|ops| - 1]
      case Push(x) =>
        assert s + Pushed(ops) == (s + Pushed(ops')) + [x];
      case Pop =>
        if before != [] {
          assert before == [before[0]] + before[1..];
        }
      case Reopen =>
    }
  }

  /** Every item that a run pushes has an encoding that loading accepts. */
  predicate PushesFit<T>(c: Codec<T>, ops: seq<QueueOp<T>>) {
    forall i | 0 <= i < |ops| :: ops[i].Push? ==> Fits(c, ops[i].item)
  }

  /** Every item that a run pushes has a length that its prefix can hold. */
  predicate PushesShort<T>(c: Codec<T>, ops: seq<QueueOp<T>>) {
    forall i | 0 <= i < |ops| :: ops[i].Push? ==> Short(c, ops[i].item)
  }

  /** The directory is what a stop inside the operation after `ops[..j]` may leave. */
  ghost predicate StoppedIn<T(!new)>(c: Codec<T>, perSegment: nat, d: Disk, s: seq<T>, ops: seq<QueueOp<T>>, j: nat) {
    && j < |ops|
    && match ops[j]
       case Push(_) => CrashImage(c, perSegment, d, After(s, ops[..j]), After(s, ops[..j + 1]))
       case _ => Holds(c, perSegment, d, After(s, ops[..j + 1]))
  }

  ghost predicate StoppedSomewhere<T(!new)>(c: Codec<T>, perSegment: nat, d: Disk, s: seq<T>, ops: seq<QueueOp<T>>) {
    exists j: nat :: StoppedIn(c, perSegment, d, s, ops, j)
  }

  /** Every directory recorded from index `k` on belongs to one of the operations. */
  ghost predicate Covered<T(!new)>(c: Codec<T>, perSegment: nat, trace: seq<Disk>, k: nat, s: seq<T>,
                            ops: seq<QueueOp<T>>) {
    forall i | k <= i < |trace| :: StoppedSomewhere(c, perSegment, trace[i], s, ops)
  }

  lemma CoveredNext<T(!new)>(c: Codec<T>, perSegment: nat, t: seq<Disk>, t': seq<Disk>, k: nat, s: seq<T>,
                             ops: seq<QueueOp<T>>, n: nat)
    requires Covered(c, perSegment, t, k, s, ops) && t <= t'
    requires forall i | |t| <= i < |t'| :: StoppedIn(c, perSegment, t'[i], s, ops, n)
    ensures Covered(c, perSegment, t', k, s, ops)
  {
    forall i | k <= i < |t'| ensures StoppedSomewhere(c, perSegment, t'[i], s, ops) {
      if i < |t| {
        assert t'[i] == t[i];
      } else {
        assert StoppedIn(c, perSegment, t'[i], s, ops, n);
      }
    }
  }

  lemma CoveredNone<T(!new)>(c: Codec<T>, perSegment: nat, t: seq<Disk>, s: seq<T>, ops: seq<QueueOp<T>>)
    ensures Covered(c, perSegment, t, |t|, s, ops)
  {
  }

  /** The first number is in the scan's reach, and the segments that opening reads can be read. */
  ghost predicate CanReopen<T>(c: Codec<T>, perSegment: nat, d: Disk) {
    FirstNumberFits(d) && EndsReadable(c, perSegment, d)
  }

  /**
   Closes the queue and opens its directory again.  The same queue comes back if and only
   if it can be reopened; either way the directory holds it all along.
   */
  method Again<T(!new)>(q: DQue<T>) returns (r: Result<DQue<T>, QueueError>)
    requires q.Valid() && !q.closed && q.codec.limit == MAX_OBJECT
    modifies q.Repr()
    ensures Keeps(q.codec, q.perSegment, old(q.dir.trace), q.dir.trace, old(q.Contents()))
    ensures r.Success? <==> CanReopen(q.codec, q.perSegment, old(q.dir.files))
    ensures r.Success? ==>
              && r.value.Valid() && !r.value.closed && r.value.Contents() == old(q.Contents())
              && r.value.dir == q.dir && r.value.codec == q.codec && r.value.perSegment == q.perSegment
              && fresh(r.value.Repr() - {q.dir})
    ensures q.dir.files == old(q.dir.files)
    ensures r.Failure? ==> Holds(q.codec, q.perSegment, q.dir.files, old(q.Contents()))
    ensures NoneTooLong(q.codec, old(q.dir.files)) ==> Loads(q.codec, old(q.dir.trace), q.dir.trace)
  {
    hide Items, Replay, Recover, RecoverImages, Holds, NoneTooLong, EndsReadable, Represents, FirstNumberFits;
    ghost var s, d := q.Contents(), q.dir.files;
    OpenSame(q.codec, q.perSegment, d, s, q.firstSegment.number, q.segs);
    var err := q.Close();
    OpenHolding(q.codec, q.perSegment, d, s);
    OpeningKeeps(q.codec, q.perSegment, d, s);
    if NoneTooLong(q.codec, d) {
      OpeningLoads(q.codec, q.perSegment, d, s);
    }
    r := Open(q.dir, q.codec, q.perSegment);
  }

  /** Opening removes nothing from a directory whose first segment is usable. */
  lemma OpenSame<T(!new)>(c: Codec<T>, perSegment: nat, d: Disk, s: seq<T>, lo: nat, segs: seq<SegState<T>>)
    requires perSegment > 0 && c.limit < TWO_TO_THE_32 && Represents(c, perSegment, d, s, lo, segs)
    ensures Recover(c, perSegment, d).disk == d
  {
    hide Items, Replay, Recover;
    if FirstNumberFits(d) {
      LowFits(c, d, lo, segs);
      OpenChain(c, perSegment, d, lo, segs);
    } else {
      NothingFits(c, perSegment, d);
    }
  }

  /** How a run ends: all done, a reopening that failed, or a pop after which the next segment could not be read. */
  datatype End = Finished | NotReopened | NextUnread

  /** What a stop inside one operation may leave. */
  ghost predicate StoppedAt<T(!new)>(c: Codec<T>, perSegment: nat, d: Disk, s: seq<T>, op: QueueOp<T>) {
    match op
    case Push(_) => CrashImage(c, perSegment, d, s, Applied(s, op))
    case _ => Holds(c, perSegment, d, Applied(s, op))
  }

  /** The queue after an operation that ended in this way, `s` being the items it then holds. */
  ghost predicate Left<T(!new)>(q: DQue<T>, s: seq<T>, end: End)
    reads q, q.Repr()
  {
    match end
    case Finished => q.Valid() && !q.closed && q.Contents() == s
    case NotReopened =>
      && !CanReopen(q.codec, q.perSegment, q.dir.files)
      && Holds(q.codec, q.perSegment, q.dir.files, s)
    case NextUnread => q.Stuck() && q.Contents() == s
  }

  /** One operation. */
  method Perform<T(!new)>(q: DQue<T>, op: QueueOp<T>) returns (q': DQue<T>, got: seq<T>, end: End)
    requires q.Valid() && !q.closed && q.codec.limit == MAX_OBJECT && (op.Push? ==> Short(q.codec, op.item))
    modifies q.Repr()
    ensures q'.dir == q.dir && q'.codec == q.codec && q'.perSegment == q.perSegment
    ensures end != NotReopened ==> fresh(q'.Repr() - old(q.Repr()))
    ensures got == if op.Pop? && old(q.Contents()) != [] then [old(q.Contents())[0]] else []
    ensures Left(q', Applied(old(q.Contents()), op), end)
    ensures end == NotReopened ==> op.Reopen?
    ensures end == NextUnread ==> op.Pop?
    ensures old(q.dir.trace) <= q.dir.trace
    ensures forall i | |old(q.dir.trace)| <= i < |q.dir.trace| ::
              StoppedAt(q.codec, q.perSegment, q.dir.trace[i], old(q.Contents()), op)
    ensures NoneTooLong(q.codec, old(q.dir.files)) && (op.Push? ==> Fits(q.codec, op.item)) ==>
              && NoneTooLong(q.codec, q.dir.files) && Loads(q.codec, old(q.dir.trace), q.dir.trace)
              && (end == Finished || (end == NotReopened && !FirstNumberFits(q.dir.files)))
  {
    hide Items, Replay, DQue<T>.Valid, DQue<T>.Stuck, DQue<T>.Blocked, CrashImage, Holds, FirstNumberFits, Fits,
         Short, CanReopen, NoneTooLong;
    q.NotStuck();
    q', got, end := q, [], Finished;
    match op {
      case Push(x) =>
        var err := q.Enqueue(x);
      case Pop =>
        var x, err := q.Dequeue();
        if x.Some? {
          got := [x.value];
          end := if err.Some? then NextUnread else Finished;
        }
      case Reopen =>
        ghost var s, d := q.Contents(), q.dir.files;
        var r := Again(q);
        if r.Failure? {
          end := NotReopened;
          if NoneTooLong(q.codec, d) {
            CleanReopens(q.codec, q.perSegment, d, s);
          }
          return;
        }
        q' := r.value;
    }
  }

  /**
   Runs the operations until the queue cannot be reopened or a segment cannot be read;
   `done` of them have been performed.  Every directory passed through belongs to one of
   the operations.  When all items fit, only a first segment number out of reach can end
   the run early.
   */
  method Run<T(!new)>(first: DQue<T>, ops: seq<QueueOp<T>>)
    returns (q: DQue<T>, out: seq<T>, done: nat, end: End)
    requires first.Valid() && !first.closed && first.codec.limit == MAX_OBJECT && PushesShort(first.codec, ops)
    modifies first.Repr()
    ensures done <= |ops| && out == Popped(old(first.Contents()), ops[..done])
    ensures q.dir == first.dir && q.codec == first.codec && q.perSegment == first.perSegment
    ensures Left(q, After(old(first.Contents()), ops[..done]), end)
    ensures end == Finished ==> done == |ops|
    ensures end == NotReopened ==> done > 0 && ops[done - 1].Reopen?
    ensures end == NextUnread ==> done > 0 && ops[done - 1].Pop?
    ensures old(first.dir.trace) <= q.dir.trace
    ensures Covered(q.codec, q.perSegment, q.dir.trace, |old(first.dir.trace)|, old(first.Contents()), ops)
    ensures NoneTooLong(first.codec, old(first.dir.files)) && PushesFit(first.codec, ops) ==>
              && Loads(q.codec, old(first.dir.trace), q.dir.trace)
              && (end == Finished || (end == NotReopened && !FirstNumberFits(q.dir.files)))
  {
    hide Items, Replay, Left, DQue<T>.Valid, CrashImage, Holds, Covered, FirstNumberFits, Fits, Short, NoneTooLong,
         StoppedAt, StoppedIn, After, Popped, Applied;
    ghost var s, k := first.Contents(), |first.dir.trace|;
    ghost var clean := NoneTooLong(first.codec, first.dir.files) && PushesFit(first.codec, ops);
    q, out, done, end := first, [], 0, Finished;
    NothingDone(s, ops);
    CoveredNone(q.codec, q.perSegment, q.dir.trace, s, ops);
    FinishedLeft(q);
    while done < |ops| && end == Finished
      invariant done <= |ops|
      invariant q.dir == first.dir && q.codec == first.codec && q.perSegment == first.perSegment
      invariant end == Finished ==> fresh(q.Repr() - old(first.Repr()))
      invariant end == Finished ==> q.Valid() && !q.closed && q.Contents() == After(s, ops[..done])
      invariant Left(q, After(s, ops[..done]), end)
      invariant end == NotReopened ==> done > 0 && ops[done - 1].Reopen?
      invariant end == NextUnread ==> done > 0 && ops[done - 1].Pop?
      invariant out == Popped(s, ops[..done])
      invariant old(first.dir.trace) <= q.dir.trace
      invariant Covered(q.codec, q.perSegment, q.dir.trace, k, s, ops)
      invariant clean ==>
                  && NoneTooLong(q.codec, q.dir.files) && Loads(q.codec, old(first.dir.trace), q.dir.trace)
                  && (end == Finished || (end == NotReopened && !FirstNumberFits(q.dir.files)))
      decreases |ops| - done
    {
      ghost var t := q.dir.trace;
      OneMoreDone(s, ops, done);
      var got;
      q, got, end := Perform(q, ops[done]);
      LeftFinished(q, After(s, ops[..done + 1]), end);
      out := out + got;
      StopsIn(q.codec, q.perSegment, t, q.dir.trace, s, ops, done);
      CoveredNext(q.codec, q.perSegment, t, q.dir.trace, k, s, ops, done);
      done := done + 1;
    }
  }

  lemma NothingDone<T>(s: seq<T>, ops: seq<QueueOp<T>>)
    ensures After(s, ops[..0]) == s && Popped(s, ops[..0]) == []
  {
  }

  lemma OneMoreDone<T>(s: seq<T>, ops: seq<QueueOp<T>>, n: nat)
    requires n < |ops|
    ensures var before := After(s, ops[..n]);
            && After(s, ops[..n + 1]) == Applied(before, ops[n])
            && Popped(s, ops[..n + 1])
            == Popped(s, ops[..n]) + (if ops[n].Pop? && before != [] then [before[0]] else [])
  {
    assert ops[..n + 1][..n] == ops[..n];
  }

  lemma FinishedLeft<T(!new)>(q: DQue<T>)
    requires q.Valid() && !q.closed
    ensures Left(q, q.Contents(), Finished)
  {
  }

  lemma LeftFinished<T(!new)>(q: DQue<T>, s: seq<T>, end: End)
    requires Left(q, s, end)
    ensures end == Finished ==> q.Valid() && !q.closed && q.Contents() == s
  {
  }

  lemma StopsIn<T(!new)>(c: Codec<T>, perSegment: nat, t: seq<Disk>, t': seq<Disk>, s: seq<T>, ops: seq<QueueOp<T>>,
                  n: nat)
    requires n < |ops| && t <= t'
    requires forall i | |t| <= i < |t'| :: StoppedAt(c, perSegment, t'[i], After(s, ops[..n]), ops[n])
    ensures forall i | |t| <= i < |t'| :: StoppedIn(c, perSegment, t'[i], s, ops, n)
  {
    hide CrashImage, Holds;
    assert ops[..n + 1][..n] == ops[..n];
  }

  lemma CleanReopens<T(!new)>(c: Codec<T>, perSegment: nat, d: Disk, s: seq<T>)
    requires perSegment > 0 && c.limit < TWO_TO_THE_32
    requires Holds(c, perSegment, d, s) && NoneTooLong(c, d) && !CanReopen(c, perSegment, d)
    ensures !FirstNumberFits(d)
  {
    if FirstNumberFits(d) {
      AllEndsReadable(c, perSegment, d, s);
    }
  }

  /**
   Opening gives the queue before or after the interrupted operation, or reports its torn
   last segment, or a record that is too long.
   */
  ghost predicate RecoversAround<T(!new)>(c: Codec<T>, perSegment: nat, d: Disk, s: seq<T>, ops: seq<QueueOp<T>>,
                                   j: nat)
    requires j < |ops|
  {
    || OpensAs(c, perSegment, d, After(s, ops[..j]))
    || OpensAs(c, perSegment, d, After(s, ops[..j + 1]))
    || (ops[j].Push? && OpensTorn(c, perSegment, d))
    || OpensTooLong(c, perSegment, d)
  }

  /**
   Crash recovery.  Reopening after a stop at any point of a run gives the queue with
   the interrupted operation wholly done or wholly undone; the exceptions are a stop
   between the length and the body of a record, which is reported as a corrupted last
   segment, and a record that is too long, if there is one.  It does so if and only if
   the scan for the first segment can find it.
   */
  lemma CrashRecovery<T(!new)>(c: Codec<T>, perSegment: nat, d: Disk, s: seq<T>, ops: seq<QueueOp<T>>, j: nat)
    requires perSegment > 0 && c.limit < TWO_TO_THE_32 && StoppedIn(c, perSegment, d, s, ops, j)
    ensures RecoversAround(c, perSegment, d, s, ops, j) <==> FirstNumberFits(d)
    ensures NoneTooLong(c, d) ==> !OpensTooLong(c, perSegment, d)
  {
    hide Recover, Holds, Torn, EndsReadable, NoneTooLong;
    var before, after := After(s, ops[..j]), After(s, ops[..j + 1]);
    TooLongThere(c, perSegment, d);
    if !FirstNumberFits(d) {
      NothingFits(c, perSegment, d);
    } else if Holds(c, perSegment, d, after) {
      OpenHolding(c, perSegment, d, after);
    } else if Holds(c, perSegment, d, before) {
      OpenHolding(c, perSegment, d, before);
    } else {
      OpenTorn(c, perSegment, d, before);
    }
  }
}
