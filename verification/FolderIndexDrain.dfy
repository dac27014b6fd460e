/**
 Draining: while the worker runs, a schedule empties the batcher and the flush, so that
 the in-flight counter falls to what is doomed and every row of the current generation
 reaches the destination.
 */
module FolderIndexDrain {
  import opened Wrappers
  import opened FolderIndex
  import opened FolderIndexRuns

  // ----- Where draining is possible ---------------------------------------------------

  /** What a failed flush still re-submits has room in the channel, or a durable queue. */
  predicate Requeueable(cfg: WB.Config, b: Batcher) {
    b.worker.Requeueing? && !cfg.hasQueue ==>
      && !b.submitting.Overflowing?
      && |b.channel| + |b.worker.rest| <= cfg.channelSize
  }

  /** The batcher is open, and its worker is on none of its ways out. */
  predicate Running(cfg: WB.Config, b: Batcher) {
    !b.closed && !b.cancelled && !WB.OnExit(b.worker) && Requeueable(cfg, b)
  }

  /** Flushes insert the rows of the current generation. */
  predicate Open(s: System) {
    && s.active && s.dest.Some? && SkipsNothing(s)
    && (s.rebuild.Activated? || s.rebuild.Populating?)
  }

  ghost predicate Drainable(cfg: WB.Config, s: System) {
    && Invariant(cfg, s) && Running(cfg, s.b) && Open(s)
    && RowsWithin(s.announced, {s.generation})
  }

  /** Nothing is announced, in the batcher or in a flush. */
  predicate Quiet(s: System) {
    && s.announced == multiset{} && s.undoing == 0 && s.undoLoaded == 0
    && s.flow.NoFlush? && s.b.submitting.Idle? && s.b.worker.Selecting?
    && s.b.channel == [] && s.b.batch == [] && s.b.queue == []
  }

  // ----- The schedule --------------------------------------------------------------------

  function SubmitNext(b: Batcher): Step
    requires !b.submitting.Idle? && b.submitting != WB.Overflowing(true)
  {
    match b.submitting
    case Overflowing(_) => Batch(WB.Submit(WB.Refuse(FileWrite(0), WB.ErrFull)))
    case Counted(_) => Batch(WB.Submit(WB.CountOverflow))
    case _ => Batch(WB.Submit(WB.CountPending))
  }

  function FlushNext(s: System): FlushStep {
    match s.flow
    case NoFlush => CheckBatch
    case Checked => ReadActive
    case ActiveRead(_) => ReadActiveAgain
    case ActiveReadAgain => ReadDest
    case DestRead => ReadGeneration
    case Ready(_) => CommitBatch
    case Succeeded(_) => StartCredit
    case Crediting(rows, loaded) => if rows == [] then CreditEnd else if loaded then CreditAdd else CreditRead
  }

  function RequeueNext(cfg: WB.Config, b: Batcher): WB.RequeueStep
    requires b.worker.Requeueing?
  {
    if b.submitting.Overflowing? then WB.Restore
    else if b.worker.rest == [] then WB.Done
    else if |b.channel| < cfg.channelSize then WB.Resend
    else WB.MeetFull
  }

  /** What the worker does outside a flush, as long as it has something to do. */
  function WorkerNext(cfg: WB.Config, b: Batcher): WB.Action<Write> {
    match b.worker
    case Holding(_) => WB.Intake(WB.CountDequeued(true))
    case Settling(_, _) => WB.Control(WB.Settle)
    case Requeueing(_, _, _) => WB.Requeue(RequeueNext(cfg, b))
    case Draining(_) => if b.queue != [] then WB.Intake(WB.Dequeue) else WB.Control(WB.DrainEnd)
    case _ =>
      if b.channel != [] then WB.Intake(WB.Receive(true))
      else if b.batch != [] then WB.Control(WB.TimerFires)
      else if b.drainEnabled then WB.Control(WB.Wake)
      else WB.Life(WB.StartDrain)
  }

  /** The worker waits, and nothing is left for it. */
  predicate WorkerIdle(b: Batcher) {
    b.worker.Selecting? && b.channel == [] && b.batch == [] && b.queue == []
  }

  // ----- How far it still is ----------------------------------------------------------------

  function Top(resume: WB.Worker<Write>): nat {
    if resume.Draining? then 1 else 0
  }

  function WorkerRank(w: WB.Worker<Write>): nat {
    match w
    case Draining(_) => 1
    case Holding(_) => 14
    case Settling(_, resume) => Top(resume) + 1
    case Flushing(resume) => Top(resume) + 2
    case Requeueing(rest, _, resume) => Top(resume) + 2 + 20 * |rest|
    case _ => 0
  }

  function SubmitRank(sub: WB.Submitting): nat {
    match sub
    case Idle => 1
    case Overflowing(byWorker) => if byWorker then 0 else 2
    case Sent(_) => 2
    case Stored(_) => 3
    case Counted(_) => 2
  }

  function FlowRank(s: System): nat {
    match s.flow
    case NoFlush => if s.b.worker.Flushing? then 8 else 0
    case Checked => 7
    case ActiveRead(_) => 6
    case ActiveReadAgain => 5
    case DestRead => 4
    case Ready(_) => 3
    case Succeeded(rows) => 2 + 2 * |rows|
    case Crediting(rows, loaded) => 2 + 2 * |rows| - (if loaded && rows != [] then 1 else 0) - 1
  }

  function BatcherRank(b: Batcher): nat {
    14 * |b.channel| + 2 * |b.batch| + 14 * |b.queue| + WorkerRank(b.worker) + SubmitRank(b.submitting)
    + (if b.batch != [] && !b.worker.Flushing? then 12 else 0)
    + (if b.queue != [] && !WB.OnDrain(b.worker) then 2 else 0)
    + (if b.drainEnabled then 0 else 1)
  }

  function Rank(s: System): nat {
    BatcherRank(s.b) + FlowRank(s) + 16 * |s.announced| + 2 * s.undoing + s.undoLoaded
  }

  // ----- Each step of the batcher brings the end nearer -----------------------------------------

  /** With the flush that starts when the worker goes to flushing. */
  function RankToFlush(b: Batcher): nat {
    BatcherRank(b) + (if b.worker.Flushing? then 8 else 0)
  }

  ghost predicate Closer(cfg: WB.Config, b: Batcher, b': Batcher) {
    RankToFlush(b') < RankToFlush(b) && Running(cfg, b')
  }

  lemma SubmitCloser(cfg: WB.Config, b: Batcher, a: WB.SubmitStep<Write>)
    requires Running(cfg, b) && WB.SubmitEnabled(cfg, b, a)
    requires a.CountPending? || a.CountOverflow? || (a.Refuse? && b.submitting.Overflowing?)
    ensures Closer(cfg, b, WB.SubmitDo(cfg, b, a)) && WB.SubmitDo(cfg, b, a).worker == b.worker
  {
  }

  lemma PlaceCloser(cfg: WB.Config, b: Batcher, w: Write)
    requires Running(cfg, b) && b.submitting.Idle? && WB.SubmitEnabled(cfg, b, WB.Send(w)) && !b.worker.Requeueing?
    ensures var b' := WB.SubmitDo(cfg, b, WB.Send(w));
            RankToFlush(b') < RankToFlush(b) + 16 && Running(cfg, b') && b'.worker == b.worker
  {
  }

  lemma HoldCloser(cfg: WB.Config, b: Batcher)
    requires Running(cfg, b) && b.worker.Holding?
    ensures Closer(cfg, b, WB.IntakeDo(cfg, b, WB.CountDequeued(true)))
  {
  }

  lemma ReceiveCloser(cfg: WB.Config, b: Batcher)
    requires Running(cfg, b) && b.worker.Selecting? && b.channel != []
    ensures Closer(cfg, b, WB.IntakeDo(cfg, b, WB.Receive(true)))
  {
  }

  lemma DequeueCloser(cfg: WB.Config, b: Batcher)
    requires Running(cfg, b) && b.worker.Draining? && b.queue != []
    ensures Closer(cfg, b, WB.IntakeDo(cfg, b, WB.Dequeue))
  {
  }

  lemma ControlCloser(cfg: WB.Config, b: Batcher, a: WB.ControlStep)
    requires Running(cfg, b) && WB.ControlEnabled(b, a) && !b.worker.Exiting?
    requires match a
             case Settle => b.batch == [] && WB.Simple(b.worker.resume)
             case DrainEnd => true
             case TimerFires => b.batch != []
             case Wake => cfg.hasQueue && b.drainEnabled && b.queue != []
             case _ => false
    ensures Closer(cfg, b, WB.ControlDo(cfg, b, a))
  {
  }

  lemma StartDrainCloser(cfg: WB.Config, b: Batcher)
    requires Running(cfg, b) && !b.drainEnabled && WB.LifeEnabled(cfg, b, WB.StartDrain)
    ensures Closer(cfg, b, WB.LifeDo(cfg, b, WB.StartDrain))
  {
  }

  lemma RequeueCloser(cfg: WB.Config, b: Batcher)
    requires Running(cfg, b) && b.worker.Requeueing? && b.batch == []
    requires b.submitting.Idle? || (b.submitting == WB.Overflowing(true) && b.worker.rest != [])
    ensures WB.RequeueEnabled(cfg, b, RequeueNext(cfg, b)) && RequeueNext(cfg, b) != WB.GiveUp(WB.ErrFull)
    ensures Closer(cfg, b, WB.RequeueDo(cfg, b, RequeueNext(cfg, b)))
  {
  }

  lemma CommitCloser(cfg: WB.Config, b: Batcher)
    requires Running(cfg, b) && b.worker.Flushing?
    ensures var b' := WB.FlushDo(b, WB.Committed);
            BatcherRank(b') + 2 * |b.batch| < BatcherRank(b) && Running(cfg, b') && !b'.worker.Flushing?
  {
  }

  lemma WorkerCloser(cfg: WB.Config, b: Batcher)
    requires Running(cfg, b) && WB.Bookkeeping(cfg, b) && !b.worker.Flushing? && !WorkerIdle(b)
    requires b.submitting.Idle? || b.submitting == WB.Overflowing(true)
    ensures var a := WorkerNext(cfg, b);
            && !a.Submit? && !a.Flush? && (a.Requeue? ==> !a.requeue.GiveUp?)
            && WB.Enabled(cfg, b, a) && Closer(cfg, b, WB.Do(cfg, b, a))
  {
    hide Closer, WB.CountsExact, Running, BatcherRank, RankToFlush;
    assert !WB.OnExit(b.worker) && (b.submitting.Overflowing? ==> b.worker.Requeueing? && b.worker.rest != []) by {
      RunningOpen(cfg, b);
    }
    match b.worker
    case Holding(_) => HoldCloser(cfg, b);
    case Settling(_, _) => ControlCloser(cfg, b, WB.Settle);
    case Requeueing(_, _, _) => RequeueCloser(cfg, b);
    case Draining(_) => if b.queue != [] { DequeueCloser(cfg, b); } else { ControlCloser(cfg, b, WB.DrainEnd); }
    case Selecting =>
      if b.channel != [] {
        ReceiveCloser(cfg, b);
      } else if b.batch != [] {
        ControlCloser(cfg, b, WB.TimerFires);
      } else if b.drainEnabled {
        ControlCloser(cfg, b, WB.Wake);
      } else {
        StartDrainCloser(cfg, b);
      }
  }

  lemma RunningOpen(cfg: WB.Config, b: Batcher)
    requires Running(cfg, b)
    ensures !WB.OnExit(b.worker) && !b.closed && !b.cancelled
  {
  }

  // ----- Each step of the schedule is possible, and brings the end nearer -------------------------

  /** The steps that the schedule takes. */
  predicate Scheduled(a: Step) {
    match a
    case Batch(x) => !x.Flush? && (x.Requeue? ==> !x.requeue.GiveUp?)
    case Index(i) => i.Place? || i.UndoRead? || i.UndoAdd?
    case Flush(f) => !f.DropBatch? && !f.FailBatch?
    case Build(_) => false
  }

  ghost predicate Nearer(cfg: WB.Config, s: System, a: Step) {
    && Scheduled(a) && Enabled(cfg, s, a)
    && Rank(Do(cfg, s, a)) < Rank(s) && Running(cfg, Do(cfg, s, a).b)
  }

  lemma BatchNearer(cfg: WB.Config, s: System, a: WB.Action<Write>)
    requires BatchEnabled(cfg, s, a) && (a.Requeue? ==> !a.requeue.GiveUp?)
    requires Closer(cfg, s.b, WB.Do(cfg, s.b, a))
    requires s.flow.NoFlush? || WB.Do(cfg, s.b, a).worker == s.b.worker
    ensures Nearer(cfg, s, Batch(a))
  {
    hide WB.Do, WB.Enabled, BatcherRank, Running, BatchEnabled, RowsOf, Inserted, Sum;
    assert !a.Flush? by {
      NoFlushHere(cfg, s, a);
    }
  }

  lemma NoFlushHere(cfg: WB.Config, s: System, a: WB.Action<Write>)
    requires BatchEnabled(cfg, s, a)
    ensures !a.Flush?
  {
  }

  lemma SubmitNearer(cfg: WB.Config, s: System)
    requires Running(cfg, s.b) && !s.b.submitting.Idle? && s.b.submitting != WB.Overflowing(true)
    ensures Nearer(cfg, s, SubmitNext(s.b))
  {
    hide Closer, Nearer, Running;
    SubmitCloser(cfg, s.b, SubmitNext(s.b).a.submit);
    BatchNearer(cfg, s, SubmitNext(s.b).a);
  }

  lemma WorkerNearer(cfg: WB.Config, s: System)
    requires Running(cfg, s.b) && WB.Bookkeeping(cfg, s.b) && s.flow.NoFlush? && !s.b.worker.Flushing?
    requires s.b.submitting.Idle? || s.b.submitting == WB.Overflowing(true)
    requires !WorkerIdle(s.b)
    ensures Nearer(cfg, s, Batch(WorkerNext(cfg, s.b)))
  {
    hide Closer, Nearer, Running, WB.Bookkeeping, WB.Do, WB.Enabled, WorkerNext;
    WorkerCloser(cfg, s.b);
    BatchNearer(cfg, s, WorkerNext(cfg, s.b));
  }

  lemma UndoNearer(cfg: WB.Config, s: System) returns (a: Step)
    requires Running(cfg, s.b) && (s.undoing > 0 || s.undoLoaded > 0)
    ensures Nearer(cfg, s, a)
  {
    hide Running, BatcherRank, FlowRank;
    a := Index(if s.undoing > 0 then UndoRead else UndoAdd);
    assert FlowRank(Do(cfg, s, a)) == FlowRank(s) by {
      SameFlow(s, Do(cfg, s, a));
    }
  }

  lemma SameFlow(s: System, t: System)
    requires t.flow == s.flow && t.b.worker == s.b.worker
    ensures FlowRank(t) == FlowRank(s)
  {
  }

  lemma PlaceNearer(cfg: WB.Config, s: System, r: Row)
    requires Running(cfg, s.b) && WB.Bookkeeping(cfg, s.b) && r in s.announced
    requires s.b.submitting.Idle? && WorkerIdle(s.b) && s.flow.NoFlush?
    ensures Nearer(cfg, s, Index(Place(r, false)))
  {
    hide WB.CountsExact, BatcherRank, WB.SubmitDo;
    PlaceCloser(cfg, s.b, IndexWrite(r));
  }

  lemma {:induction false} RowsOfFewer(q: seq<Write>, g: int)
    ensures |RowsOf(q, g)| <= |q|
  {
    if q == [] {
    } else {
      RowsOfFewer(q[..|q| - 1], g);
    }
  }

  lemma CommitNearer(cfg: WB.Config, s: System)
    requires Running(cfg, s.b) && s.dest.Some? && WB.WorkerFree(s.b) && s.flow.Ready? && s.b.worker.Flushing?
    ensures Nearer(cfg, s, Flush(CommitBatch))
  {
    hide RowsOf, Inserted, BatcherRank, WB.FlushDo, Running;
    CommitCloser(cfg, s.b);
  }

  lemma CreditNearer(cfg: WB.Config, s: System)
    requires Running(cfg, s.b) && (s.flow.Succeeded? || s.flow.Crediting?) && s.b.worker.Settling?
    ensures Nearer(cfg, s, Flush(FlushNext(s)))
  {
    hide RowsOf, Sum, BatcherRank, Running, Inserted, HasIndex, IndexOnly, WB.FlushDo;
    if s.flow.Succeeded? {
      RowsOfFewer(s.flow.rows, s.generation);
    }
  }

  lemma FlushNearer(cfg: WB.Config, s: System)
    requires Running(cfg, s.b) && s.active && s.dest.Some? && WB.WorkerFree(s.b)
    requires BeforeCommit(s.flow) || s.flow.NoFlush? ==> s.b.worker.Flushing?
    requires s.flow.Succeeded? || s.flow.Crediting? ==> s.b.worker.Settling?
    ensures Nearer(cfg, s, Flush(FlushNext(s)))
  {
    if s.flow.Ready? {
      CommitNearer(cfg, s);
    } else if s.flow.Succeeded? || s.flow.Crediting? {
      CreditNearer(cfg, s);
    } else {
      hide RowsOf, Inserted, HasIndex, IndexOnly, Sum, BatcherRank, WB.FlushDo, Running;
    }
  }

  // ----- What the schedule keeps ----------------------------------------------------------------

  /** How often a row is announced, in the batcher or in the destination. */
  function Account(s: System, x: Row): nat
    requires s.dest.Some?
  {
    Held(Exactly(x), s.b) + s.announced[x] + s.dest.value[x]
  }

  /** The same rebuild, with its rows further on their way. */
  ghost predicate Onward(s: System, t: System) {
    && t.rebuild == s.rebuild && t.generation == s.generation && t.issued == s.issued && t.foreign == s.foreign
    && Doomed(t) == Doomed(s) && t.cleanStart == s.cleanStart
    && s.dest.Some? && t.dest.Some?
    && forall x: Row | x.generation == s.generation :: Account(t, x) == Account(s, x)
  }

  lemma OnwardTrans(s: System, t: System, u: System)
    requires Onward(s, t) && Onward(t, u)
    ensures Onward(s, u)
  {
    hide Account, Doomed;
    forall x: Row | x.generation == s.generation ensures Account(u, x) == Account(s, x) {
      assert Account(t, x) == Account(s, x);
    }
  }

  lemma BatchOnward(cfg: WB.Config, s: System, a: WB.Action<Write>)
    requires WB.Bookkeeping(cfg, s.b) && Open(s) && BatchEnabled(cfg, s, a) && Scheduled(Batch(a))
    ensures Onward(s, BatchDo(cfg, s, a)) && Open(BatchDo(cfg, s, a))
    ensures BatchDo(cfg, s, a).announced == s.announced
  {
    hide Held, Sum, RowsOf, Inserted, WB.Do, WB.Bookkeeping, BatchEnabled, Doomed;
    BatchDoomed(cfg, s, a);
    forall x: Row ensures Held(Exactly(x), BatchDo(cfg, s, a).b) == Held(Exactly(x), s.b) {
      BatchWeight(cfg, s, a, Exactly(x));
      RowsOfNone(0, Exactly(x));
    }
    if !s.flow.NoFlush? {
      BatchKeepsBatch(cfg, s, a);
    }
  }

  lemma IndexOnward(cfg: WB.Config, s: System, i: IndexStep)
    requires Open(s) && IndexEnabled(cfg, s, i) && Scheduled(Index(i)) && RowsWithin(s.announced, {s.generation})
    ensures Onward(s, IndexDo(cfg, s, i)) && Open(IndexDo(cfg, s, i))
    ensures RowsWithin(IndexDo(cfg, s, i).announced, {s.generation})
  {
    hide Held, Sum, RowsOf, WB.SubmitDo, WB.SubmitEnabled, Doomed;
    IndexDoomed(cfg, s, i);
    IndexFrame(cfg, s, i);
    IndexKeepsBatch(cfg, s, i);
    forall x: Row ensures Held(Exactly(x), IndexDo(cfg, s, i).b)
        == Held(Exactly(x), s.b) + (if i.Place? && i.row == x then 1 else 0)
    {
      IndexWeight(cfg, s, i, Exactly(x));
    }
  }

  lemma FlushOnward(s: System, f: FlushStep)
    requires Traced(s) && Open(s) && FlushEnabled(s, f)
    ensures Onward(s, FlushDo(s, f)) && Open(FlushDo(s, f)) && FlushDo(s, f).announced == s.announced
  {
    hide Held, Sum, RowsOf, Inserted, HasIndex, IndexOnly, Doomed, Traced, SkipsNothing, WB.FlushDo;
    FlushDoomed(s, f);
    FlushSkips(s, f);
    forall x: Row | x.generation == s.generation
      ensures FlushDo(s, f).dest.Some? && Account(FlushDo(s, f), x) == Account(s, x)
    {
      FlushMoves(s, f, x);
    }
  }

  lemma StepOnward(cfg: WB.Config, s: System, a: Step)
    requires Drainable(cfg, s) && Nearer(cfg, s, a)
    ensures Drainable(cfg, Do(cfg, s, a)) && Onward(s, Do(cfg, s, a))
  {
    hide Invariant, Onward, Open, Running, Rank, BatchEnabled, IndexEnabled, FlushEnabled, BatchDo, IndexDo, FlushDo;
    InvariantTraces(cfg, s);
    Kept(cfg, s, a);
    match a
    case Batch(x) =>
      BatchOnward(cfg, s, x);
      SameGeneration(s, BatchDo(cfg, s, x));
    case Index(i) =>
      IndexOnward(cfg, s, i);
      SameGeneration(s, IndexDo(cfg, s, i));
    case Flush(f) =>
      FlushOnward(s, f);
      SameGeneration(s, FlushDo(s, f));
  }

  lemma SameGeneration(s: System, t: System)
    requires Onward(s, t)
    ensures t.generation == s.generation
  {
  }

  /** Unless all is quiet the schedule has a step. */
  lemma NextStep(cfg: WB.Config, s: System) returns (a: Step)
    requires Drainable(cfg, s) && !Quiet(s)
    ensures Nearer(cfg, s, a)
  {
    hide Nearer, Running, Rank, WB.Bookkeeping, Balanced, Complete, Clean, Held, Sum, SubmitNext, WorkerNext, FlushNext;
    assert s.b.submitting == WB.Overflowing(true) ==> s.b.worker.Requeueing? by {
      if s.b.submitting == WB.Overflowing(true) {
        OverflowRequeues(cfg, s.b);
      }
    }
    assert !WB.OnExit(s.b.worker) by {
      RunningOpen(cfg, s.b);
    }
    if !s.b.submitting.Idle? && s.b.submitting != WB.Overflowing(true) {
      SubmitNearer(cfg, s);
      a := SubmitNext(s.b);
    } else if s.undoing > 0 || s.undoLoaded > 0 {
      a := UndoNearer(cfg, s);
    } else if !s.flow.NoFlush? || s.b.worker.Flushing? {
      FlushNearer(cfg, s);
      a := Flush(FlushNext(s));
    } else if !WorkerIdle(s.b) {
      WorkerNearer(cfg, s);
      a := Batch(WorkerNext(cfg, s.b));
    } else {
      var r :| r in s.announced;
      PlaceNearer(cfg, s, r);
      a := Index(Place(r, false));
    }
  }

  lemma OverflowRequeues(cfg: WB.Config, b: Batcher)
    requires WB.Bookkeeping(cfg, b) && b.submitting == WB.Overflowing(true)
    ensures b.worker.Requeueing?
  {
  }

  /** The schedule runs to where all is quiet. */
  lemma {:induction false} Drain(cfg: WB.Config, s: System) returns (acts: seq<Step>, t: System)
    requires Drainable(cfg, s)
    ensures Run(cfg, s, acts, t) && Drainable(cfg, t) && Quiet(t) && Onward(s, t)
    decreases Rank(s)
  {
    hide Drainable, Quiet, Onward, Do, Enabled, Rank;
    if Quiet(s) {
      OnwardSelf(cfg, s);
      return [], s;
    }
    var a := NextStep(cfg, s);
    StepOnward(cfg, s, a);
    var more;
    more, t := Drain(cfg, Do(cfg, s, a));
    OnwardTrans(s, Do(cfg, s, a), t);
    acts := [a] + more;
    assert acts[1..] == more;
  }

  lemma OnwardSelf(cfg: WB.Config, s: System)
    requires Drainable(cfg, s)
    ensures Onward(s, s)
  {
    hide Invariant, Doomed, Account;
  }

  /** Where all is quiet only what is doomed is still counted. */
  lemma QuietCounts(cfg: WB.Config, s: System)
    requires Invariant(cfg, s) && Quiet(s)
    ensures s.inflight == Doomed(s) && forall k :: Held(k, s.b) == 0
  {
    hide Traced, Complete, Clean, WB.Bookkeeping;
    forall k ensures Held(k, s.b) == 0 {
      RowsOfNone(0, k);
    }
  }

  // ----- A rebuild can complete unless something is doomed ------------------------------------------

  lemma PopulatingOpen(cfg: WB.Config, s: System)
    requires Invariant(cfg, s) && s.rebuild.Populating?
    ensures Open(s)
  {
    hide Traced, Balanced, Clean, WB.Bookkeeping;
  }

  lemma SwappedCounts(cfg: WB.Config, s: System)
    requires Invariant(cfg, s) && s.rebuild.Swapped?
    ensures s.inflight == 0
  {
    hide Traced, Balanced, Clean, WB.Bookkeeping;
  }

  /** From where all is quiet and nothing is doomed the rebuild swaps. */
  lemma Completes(cfg: WB.Config, s: System) returns (acts: seq<Step>, t: System)
    requires Invariant(cfg, s) && Running(cfg, s.b) && s.rebuild.Populating?
    requires RowsWithin(s.announced, {s.generation}) && Doomed(s) == 0
    ensures Run(cfg, s, acts, t) && t.rebuild.Swapped?
  {
    hide Run, Invariant, Doomed, Held, Open, Running, Onward, Account;
    PopulatingOpen(cfg, s);
    var u;
    acts, u := Drain(cfg, s);
    QuietCounts(cfg, u);
    assert u.rebuild == s.rebuild && Doomed(u) == 0 && u.dest.Some? by {
      OnwardSame(s, u);
    }
    Then(cfg, s, acts, u, Build(WaitDone));
    acts := acts + [Build(WaitDone)];
    var v := BuildDo(u, WaitDone);
    Then(cfg, s, acts, v, Build(Swap));
    acts := acts + [Build(Swap)];
    t := BuildDo(v, Swap);
  }

  lemma OnwardSame(s: System, t: System)
    requires Onward(s, t)
    ensures t.rebuild == s.rebuild && t.generation == s.generation && Known(t) == Known(s)
    ensures Doomed(t) == Doomed(s) && t.dest.Some? && t.cleanStart == s.cleanStart
  {
    hide Doomed, Account;
  }

  /**
   While the worker runs a populating rebuild can still be swapped in if and only if
   nothing is doomed: no announced row was given up or credited to no generation, and
   none of a generation that is over is still in the batcher.
   */
  lemma CompletesExactly(cfg: WB.Config, s: System)
    requires Invariant(cfg, s) && Running(cfg, s.b) && s.rebuild.Populating?
    requires RowsWithin(s.announced, {s.generation})
    ensures (exists acts, t :: Run(cfg, s, acts, t) && t.rebuild.Swapped?) <==> Doomed(s) == 0
  {
    hide Run, Invariant, Doomed, Running;
    assert Doomed(s) >= 0 by {
      DoomedPositive(cfg, s);
    }
    if Doomed(s) == 0 {
      var acts, t := Completes(cfg, s);
    } else {
      forall acts, t | Run(cfg, s, acts, t) ensures !t.rebuild.Swapped? {
        StuckForever(cfg, s, acts, t);
        RunKeeps(cfg, s, acts, t);
        if t.rebuild.Swapped? {
          SwappedCounts(cfg, t);
        }
      }
    }
  }

  lemma DoomedPositive(cfg: WB.Config, s: System)
    requires Invariant(cfg, s)
    ensures Doomed(s) >= 0
  {
    hide Held, Sum, Traced, Complete, Clean, WB.Bookkeeping;
  }

  // ----- Old rows, wherever they are ------------------------------------------------------------------

  lemma {:induction false} SumSome(q: seq<Write>, g: int) returns (x: Row)
    requires Sum(OfGenerations({g}), q) > 0
    ensures x.generation == g && Sum(Exactly(x), q) > 0
  {
    var w := q[|q| - 1];
    if Weigh(OfGenerations({g}), w) > 0 {
      x := w.row;
    } else {
      x := SumSome(q[..|q| - 1], g);
    }
  }

  lemma HeldSome(b: Batcher, g: int) returns (x: Row)
    requires Held(OfGenerations({g}), b) > 0
    ensures x.generation == g && Held(Exactly(x), b) > 0
  {
    hide Sum, Weigh;
    var k := OfGenerations({g});
    if Sum(k, b.channel) > 0 {
      x := SumSome(b.channel, g);
    } else if Sum(k, b.batch) > 0 {
      x := SumSome(b.batch, g);
    } else if Sum(k, WB.InHand(b.worker)) > 0 {
      x := SumSome(WB.InHand(b.worker), g);
    } else {
      x := SumSome(b.queue, g);
    }
  }

  /** When something old is left, and nothing is doomed, it is a row of the generation in force. */
  lemma OldRow(cfg: WB.Config, s: System) returns (x: Row)
    requires Invariant(cfg, s) && Doomed(s) == 0 && !NothingOld(s)
    ensures x.generation == s.generation && Held(Exactly(x), s.b) + s.announced[x] > 0
  {
    hide Held, Sum, RowsOf, Complete, Clean, WB.Bookkeeping;
    if Held(OfGenerations({s.generation}), s.b) > 0 {
      x := HeldSome(s.b, s.generation);
    } else if exists r :: r in s.announced && r.generation == s.generation {
      x :| x in s.announced && x.generation == s.generation;
    } else {
      NoOtherInsert(cfg, s);
      assert false;
    }
  }

  lemma NoOtherInsert(cfg: WB.Config, s: System)
    requires Invariant(cfg, s) && Doomed(s) == 0 && Held(OfGenerations({s.generation}), s.b) == 0
    ensures s.flow.Ready? ==> ToInsert(s) == []
  {
    hide Held, Sum, RowsOf, Complete, Clean, WB.Bookkeeping;
    if s.flow.Ready? && s.flow.insert.Some? {
      var v := s.flow.insert.value;
      if v == s.generation {
        NoneHeld(s, v);
      } else {
        NonePast(s, v);
        NoneHeld(s, v);
      }
    }
  }

  lemma NonePast(s: System, v: int)
    requires Traced(s) && Held(OfGenerations(Past(s)), s.b) == 0 && v in s.issued + {0} && v != s.generation
    ensures Held(OfGenerations({v}), s.b) == 0
  {
    hide Held, Sum;
    if v in s.issued {
      HeldBelow(OfGenerations({v}), OfGenerations(Past(s)), s.b);
    } else {
      HeldBelow(OfGenerations({v}), NotOfGenerations(Known(s)), s.b);
    }
  }

  lemma OpenedDrainable(cfg: WB.Config, s: System)
    requires Invariant(cfg, s) && Running(cfg, s.b) && s.rebuild.Off? && SkipsNothing(s)
    requires RowsWithin(s.announced, {s.generation})
    ensures Drainable(cfg, Opened(s)) && Doomed(Opened(s)) == Doomed(s)
    ensures forall x :: Account(Opened(s), x) == Held(Exactly(x), s.b) + s.announced[x]
  {
    hide Run, Invariant, Held, Sum, Running, NothingOld;
    var acts := OpenedRuns(cfg, s);
    RunKeeps(cfg, s, acts, Opened(s));
  }

  lemma CleanLive(cfg: WB.Config, t: System)
    requires Invariant(cfg, t) && t.rebuild.Swapped? && t.cleanStart && t.acceptedNow == multiset{}
    ensures t.live == multiset{}
  {
    hide Held, Traced, Balanced, WB.Bookkeeping;
    forall x: Row ensures t.live[x] == 0 {
      if x in t.live {
        assert x.generation == t.generation;
      }
    }
  }

  /**
   While the worker runs and nothing is doomed, a rebuild that starts now can drain the
   batcher between the active flag and the new generation: the table that it swaps in
   has exactly the rows of the generation before, wherever in the batcher they were or
   only announced.  So the table is what was accepted if and only if nothing old was
   left at the clone.
   */
  lemma OldRowsGoLive(cfg: WB.Config, s: System, now: int) returns (acts: seq<Step>, t: System)
    requires Invariant(cfg, s) && Running(cfg, s.b) && s.rebuild.Off? && SkipsNothing(s)
    requires RowsWithin(s.announced, {s.generation}) && Doomed(s) == 0
    requires BumpGeneration(s.generation, now) !in Known(s) + {0}
    ensures Run(cfg, s, acts, t) && t.rebuild.Swapped? && t.acceptedNow == multiset{}
    ensures forall x: Row | x.generation == s.generation :: t.live[x] == Held(Exactly(x), s.b) + s.announced[x]
    ensures t.live == t.acceptedNow <==> NothingOld(s)
  {
    hide Run, Invariant, Doomed, Held, Open, Running, Onward, NothingOld, RowsWithin, SkipsNothing;
    acts := OpenedRuns(cfg, s);
    var o := Opened(s);
    OpenedDrainable(cfg, s);
    var drain, d := Drain(cfg, o);
    RunOn(cfg, s, acts, o, drain, d);
    acts := acts + drain;
    QuietCounts(cfg, d);
    OnwardSame(o, d);
    var swap;
    swap, t := SwapRuns(cfg, d, now);
    RunOn(cfg, s, acts, d, swap, t);
    acts := acts + swap;
    RunKeeps(cfg, s, acts, t);
    forall x: Row | x.generation == s.generation ensures t.live[x] == Held(Exactly(x), s.b) + s.announced[x] {
      assert Account(d, x) == Account(o, x) by {
        OnwardAccount(o, d, x);
      }
    }
    if NothingOld(s) {
      CleanLive(cfg, t);
    } else {
      var x := OldRow(cfg, s);
      assert t.live[x] > 0;
    }
  }

  lemma OnwardAccount(s: System, t: System, x: Row)
    requires Onward(s, t) && x.generation == s.generation
    ensures s.dest.Some? && t.dest.Some? && Account(t, x) == Account(s, x)
  {
    hide Doomed, Account;
  }
}
