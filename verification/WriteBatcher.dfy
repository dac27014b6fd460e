/**
 The write batcher: many submitters, one worker, a bounded channel, and a durable
 queue that takes the overflow.  The goroutines are interleaved at their atomic
 operations and lock regions; every possible interleaving is a sequence of actions.
 */
module WriteBatcher {
  datatype Config = Config(channelSize: nat, maxBatchSize: nat, hasQueue: bool)

  /** The Submit that holds the lock, and how far it has got. */
  datatype Submitting =
    | Idle
    | Overflowing(byWorker: bool)  // found the channel full and the context live
    | Sent(byWorker: bool)     // item in the channel, not yet counted
    | Stored(byWorker: bool)   // item in the durable queue, not yet counted
    | Counted(byWorker: bool)  // counted as pending, not yet as overflow

  /** Where the worker is. */
  datatype Worker<T> =
    | Draining(drained: bool)
    | Holding(item: T)  // taken from the durable queue, overflow count not yet lowered
    | Selecting
    | Exiting(onClose: bool)
    | Stopped
    | Flushing(resume: Worker<T>)
    | Requeueing(rest: seq<T>, size: nat, resume: Worker<T>)
    | Settling(size: nat, resume: Worker<T>)  // about to lower the pending count

  datatype State<T(==)> = State(
    channel: seq<T>,
    batch: seq<T>,
    queue: seq<T>,
    pending: int,
    overflow: int,
    totalFlushed: int,
    totalCommitted: int,
    closed: bool,
    cancelled: bool,
    drainEnabled: bool,
    finished: bool,
    submitting: Submitting,
    worker: Worker<T>,
    // what has happened so far
    backlog: seq<T>,
    accepted: multiset<T>,
    committed: multiset<T>,
    dropped: multiset<T>,
    refused: multiset<T>)

  datatype Refusal = ErrClosed | ErrFull | ErrQuotaExceeded

  /** Steps of the Submit that holds the lock. */
  datatype SubmitStep<T> =
    | Send(item: T)
    | FindFull
    | Store(item: T)
    | Refuse(item: T, why: Refusal)
    | CountPending
    | CountOverflow

  datatype LifeStep = StartDrain | Cancel | CloseSignal | CloseFinish

  /** The worker takes an item; `byteLimit` says whether the batch has reached its byte limit. */
  datatype IntakeStep = Receive(byteLimit: bool) | Dequeue | CountDequeued(byteLimit: bool)

  datatype ControlStep = SawClosedChannel | SawCancel | LeaveDrain | DrainEnd | TimerFires | Wake | ExitEnd | Settle

  datatype FlushStep = Dropped | Committed | Failed

  /** The worker re-submits an item of a failed batch. */
  datatype RequeueStep = Resend | MeetFull | Restore | GiveUp(why: Refusal) | Done

  datatype Action<T> =
    | Submit(submit: SubmitStep<T>)
    | Life(life: LifeStep)
    | Intake(intake: IntakeStep)
    | Control(control: ControlStep)
    | Flush(flush: FlushStep)
    | Requeue(requeue: RequeueStep)

  /** A new batcher over a durable queue that holds `backlog`. */
  function Initial<T(==)>(cfg: Config, backlog: seq<T>, deferDrain: bool): State<T>
    requires !cfg.hasQueue ==> backlog == []
  {
    var drain := cfg.hasQueue && !deferDrain;
    State([], [], backlog, |backlog|, 0, 0, 0, false, false, drain, false, Idle,
          if drain then Draining(false) else Selecting,
          backlog, multiset{}, multiset{}, multiset{}, multiset{})
  }

  // ----- Submit -------------------------------------------------------------------

  predicate CanSend<T(==)>(cfg: Config, s: State<T>) {
    s.submitting.Idle? && !s.closed && |s.channel| < cfg.channelSize
  }

  /** The channel takes no item and the context is live; either may change before what follows. */
  predicate CanOverflow<T(==)>(cfg: Config, s: State<T>) {
    s.submitting.Idle? && !s.closed && !s.cancelled && |s.channel| >= cfg.channelSize
  }

  predicate CanStore<T(==)>(cfg: Config, s: State<T>, byWorker: bool) {
    s.submitting == Overflowing(byWorker) && cfg.hasQueue
  }

  /** When each error may be returned; the disk quota and errors of the durable queue are left to the environment. */
  predicate CanRefuse<T(==)>(cfg: Config, s: State<T>, why: Refusal, byWorker: bool) {
    match why
    case ErrClosed => s.submitting.Idle? && (s.closed || s.cancelled)
    case ErrFull => s.submitting == Overflowing(byWorker)
    case ErrQuotaExceeded => s.submitting == Overflowing(byWorker) && cfg.hasQueue
  }

  // ----- The actions --------------------------------------------------------------

  /** The worker may move: it is not in the middle of a Submit of its own. */
  predicate WorkerFree<T(==)>(s: State<T>) {
    s.submitting.Idle? || !s.submitting.byWorker
  }

  /** Where the worker goes at the top of its loop. */
  function LoopTop<T(==)>(cfg: Config, s: State<T>): Worker<T> {
    if cfg.hasQueue && s.drainEnabled then Draining(false) else Selecting
  }

  predicate SubmitEnabled<T(==)>(cfg: Config, s: State<T>, a: SubmitStep<T>) {
    match a
    case Send(_) => CanSend(cfg, s)
    case FindFull => CanOverflow(cfg, s)
    case Store(_) => CanStore(cfg, s, false)
    case Refuse(_, why) => CanRefuse(cfg, s, why, false)
    case CountPending => s.submitting.Sent? || s.submitting.Stored?
    case CountOverflow => s.submitting.Counted?
  }

  function SubmitDo<T(==)>(cfg: Config, s: State<T>, a: SubmitStep<T>): State<T>
    requires SubmitEnabled(cfg, s, a)
  {
    match a
    case Send(x) =>
      s.(channel := s.channel + [x], submitting := Sent(false), accepted := s.accepted + multiset{x})
    case FindFull => s.(submitting := Overflowing(false))
    case Store(x) =>
      s.(queue := s.queue + [x], submitting := Stored(false), accepted := s.accepted + multiset{x})
    case Refuse(_, _) => s.(submitting := Idle)
    case CountPending =>
      s.(pending := s.pending + 1,
         submitting := if s.submitting.Sent? then Idle else Counted(s.submitting.byWorker))
    case CountOverflow => s.(overflow := s.overflow + 1, submitting := Idle)
  }

  predicate LifeEnabled<T(==)>(cfg: Config, s: State<T>, a: LifeStep) {
    match a
    case StartDrain => cfg.hasQueue
    case Cancel => true
    case CloseSignal => s.submitting.Idle? && !s.closed
    case CloseFinish => s.closed && s.worker.Stopped?
  }

  function LifeDo<T(==)>(cfg: Config, s: State<T>, a: LifeStep): State<T>
    requires LifeEnabled(cfg, s, a)
  {
    match a
    case StartDrain => s.(drainEnabled := true)
    case Cancel => s.(cancelled := true)
    case CloseSignal => s.(closed := true)
    case CloseFinish => s.(finished := true)
  }

  /** Adds an item to the batch, which is flushed when it has reached a limit. */
  function Appended<T(==)>(cfg: Config, s: State<T>, x: T, byteLimit: bool, resume: Worker<T>): State<T> {
    var batch := s.batch + [x];
    s.(batch := batch,
       worker := if |batch| >= cfg.maxBatchSize || byteLimit then Flushing(resume) else resume)
  }

  predicate IntakeEnabled<T(==)>(s: State<T>, a: IntakeStep) {
    match a
    case Receive(_) => (s.worker.Draining? || s.worker.Selecting? || s.worker.Exiting?) && s.channel != []
    case Dequeue => s.worker.Draining? && s.queue != []
    case CountDequeued(_) => s.worker.Holding?
  }

  function IntakeDo<T(==)>(cfg: Config, s: State<T>, a: IntakeStep): State<T>
    requires IntakeEnabled(s, a)
  {
    match a
    case Receive(byteLimit) =>
      Appended(cfg, s.(channel := s.channel[1..]), s.channel[0], byteLimit,
               if s.worker.Selecting? then LoopTop(cfg, s) else s.worker)
    case Dequeue => s.(queue := s.queue[1..], worker := Holding(s.queue[0]))
    case CountDequeued(byteLimit) =>
      Appended(cfg, s.(overflow := s.overflow - 1), s.worker.item, byteLimit, Draining(true))
  }

  predicate ControlEnabled<T(==)>(s: State<T>, a: ControlStep) {
    match a
    case SawClosedChannel => (s.worker.Draining? || s.worker.Selecting?) && s.closed && s.channel == []
    case SawCancel => (s.worker.Draining? || s.worker.Selecting?) && s.cancelled
    case LeaveDrain => s.worker.Draining? && s.closed
    case DrainEnd => s.worker.Draining? && s.queue == []
    case TimerFires => s.worker.Selecting?
    case Wake => s.worker.Selecting?
    case ExitEnd => s.worker.Exiting? && s.channel == [] && (s.worker.onClose ==> s.closed)
    case Settle => s.worker.Settling?
  }

  function ControlDo<T(==)>(cfg: Config, s: State<T>, a: ControlStep): State<T>
    requires ControlEnabled(s, a)
  {
    match a
    case SawClosedChannel => s.(worker := Exiting(true))
    case SawCancel => s.(worker := Exiting(false))
    case LeaveDrain => s.(worker := Selecting)
    case DrainEnd =>
      s.(worker := if s.worker.drained && s.batch != [] then Flushing(Selecting) else Selecting)
    case TimerFires =>
      s.(worker := if s.batch != [] then Flushing(LoopTop(cfg, s)) else LoopTop(cfg, s))
    case Wake => s.(worker := LoopTop(cfg, s))
    case ExitEnd => s.(worker := if s.batch != [] then Flushing(Stopped) else Stopped)
    case Settle => s.(pending := s.pending - s.worker.size, worker := s.worker.resume)
  }

  function FlushDo<T(==)>(s: State<T>, a: FlushStep): State<T>
    requires s.worker.Flushing?
  {
    var n := |s.batch|;
    match a
    case Dropped =>
      s.(batch := [], dropped := s.dropped + multiset(s.batch),
         totalFlushed := s.totalFlushed + n, worker := Settling(n, s.worker.resume))
    case Committed =>
      s.(batch := [], committed := s.committed + multiset(s.batch),
         totalFlushed := s.totalFlushed + n, totalCommitted := s.totalCommitted + n,
         worker := Settling(n, s.worker.resume))
    case Failed => s.(batch := [], worker := Requeueing(s.batch, n, s.worker.resume))
  }

  predicate RequeueEnabled<T(==)>(cfg: Config, s: State<T>, a: RequeueStep) {
    && s.worker.Requeueing?
    && match a
       case Resend => s.worker.rest != [] && CanSend(cfg, s)
       case MeetFull => s.worker.rest != [] && CanOverflow(cfg, s)
       case Restore => s.worker.rest != [] && CanStore(cfg, s, true)
       case GiveUp(why) => s.worker.rest != [] && CanRefuse(cfg, s, why, true)
       case Done => s.worker.rest == [] && WorkerFree(s)
  }

  function RequeueDo<T(==)>(cfg: Config, s: State<T>, a: RequeueStep): State<T>
    requires RequeueEnabled(cfg, s, a)
  {
    var Requeueing(rest, size, resume) := s.worker;
    match a
    case Resend =>
      s.(channel := s.channel + [rest[0]], submitting := Sent(true),
         worker := Requeueing(rest[1..], size, resume))
    case MeetFull => s.(submitting := Overflowing(true))
    case Restore =>
      s.(queue := s.queue + [rest[0]], submitting := Stored(true),
         worker := Requeueing(rest[1..], size, resume))
    case GiveUp(_) =>
      s.(refused := s.refused + multiset(rest), submitting := Idle, worker := Settling(size, resume))
    case Done => s.(worker := Settling(size, resume))
  }

  predicate Enabled<T(==)>(cfg: Config, s: State<T>, a: Action<T>) {
    match a
    case Submit(x) => SubmitEnabled(cfg, s, x)
    case Life(x) => LifeEnabled(cfg, s, x)
    case Intake(x) => WorkerFree(s) && IntakeEnabled(s, x)
    case Control(x) => WorkerFree(s) && ControlEnabled(s, x)
    case Flush(_) => WorkerFree(s) && s.worker.Flushing?
    case Requeue(x) => RequeueEnabled(cfg, s, x)
  }

  function Do<T(==)>(cfg: Config, s: State<T>, a: Action<T>): State<T>
    requires Enabled(cfg, s, a)
  {
    match a
    case Submit(x) => SubmitDo(cfg, s, x)
    case Life(x) => LifeDo(cfg, s, x)
    case Intake(x) => IntakeDo(cfg, s, x)
    case Control(x) => ControlDo(cfg, s, x)
    case Flush(x) => FlushDo(s, x)
    case Requeue(x) => RequeueDo(cfg, s, x)
  }

  // ----- Invariants ---------------------------------------------------------------

  function InHand<T>(w: Worker<T>): seq<T> {
    match w
    case Holding(x) => [x]
    case Requeueing(rest, _, _) => rest
    case _ => []
  }

  ghost function Count<T>(q: seq<T>, x: T): nat {
    multiset(q)[x]
  }

  /** How often an item is anywhere: in the batcher, or with one of the three outcomes. */
  ghost function Somewhere<T>(s: State<T>, x: T): nat {
    Count(s.channel, x) + Count(s.batch, x) + Count(InHand(s.worker), x) + Count(s.queue, x)
    + s.committed[x] + s.dropped[x] + s.refused[x]
  }

  ghost predicate ConservedFor<T>(s: State<T>, x: T) {
    s.accepted[x] + Count(s.backlog, x) == Somewhere(s, x)
  }

  /** Everything that came in is somewhere, exactly as often as it came in. */
  ghost predicate Conserved<T(!new)>(s: State<T>) {
    forall x: T :: ConservedFor(s, x)
  }

  function Uncounted(sub: Submitting): int {
    if sub.Sent? || sub.Stored? then 1 else 0
  }

  function UncountedOverflow(sub: Submitting): int {
    if sub.Stored? || sub.Counted? then 1 else 0
  }

  /** Items of a flush in progress that the pending count still includes. */
  function Unsettled<T>(w: Worker<T>): int {
    match w
    case Requeueing(_, size, _) => size
    case Settling(size, _) => size
    case Holding(_) => 1
    case _ => 0
  }

  ghost predicate CountsExact<T>(s: State<T>) {
    && s.pending == |s.channel| + |s.batch| + |s.queue| + Unsettled(s.worker) - Uncounted(s.submitting)
    && s.overflow == |s.queue| - |s.backlog| - UncountedOverflow(s.submitting)
                     + (if s.worker.Holding? then 1 else 0)
    && s.totalCommitted == |s.committed|
    && s.totalFlushed == |s.committed| + |s.dropped|
  }

  predicate Simple<T>(w: Worker<T>) {
    w.Draining? || w.Selecting? || w.Exiting? || w.Stopped?
  }

  /** The worker has started, or will resume in, its exit path. */
  predicate OnExit<T>(w: Worker<T>) {
    match w
    case Exiting(_) => true
    case Stopped => true
    case Flushing(resume) => resume.Exiting? || resume.Stopped?
    case Requeueing(_, _, resume) => resume.Exiting? || resume.Stopped?
    case Settling(_, resume) => resume.Exiting? || resume.Stopped?
    case _ => false
  }

  /** The worker is on the exit path of Close, which waits for the channel to be closed. */
  predicate WaitsForClose<T>(w: Worker<T>) {
    match w
    case Exiting(onClose) => onClose
    case Flushing(resume) => resume == Exiting(true)
    case Requeueing(_, _, resume) => resume == Exiting(true)
    case Settling(_, resume) => resume == Exiting(true)
    case _ => false
  }

  predicate OnDrain<T>(w: Worker<T>) {
    match w
    case Draining(_) => true
    case Holding(_) => true
    case Flushing(resume) => resume.Draining?
    case Requeueing(_, _, resume) => resume.Draining?
    case Settling(_, resume) => resume.Draining?
    case _ => false
  }

  ghost predicate BatchShape<T>(cfg: Config, s: State<T>) {
    match s.worker
    case Flushing(resume) => Simple(resume) && 1 <= |s.batch| <= cfg.maxBatchSize
    case Requeueing(rest, size, resume) => Simple(resume) && s.batch == [] && |rest| <= size && size >= 1
    case Settling(size, resume) => Simple(resume) && s.batch == [] && size >= 1
    case Stopped => s.batch == []
    case _ => |s.batch| < cfg.maxBatchSize
  }

  ghost predicate Control<T>(cfg: Config, s: State<T>) {
    && cfg.channelSize > 0 && cfg.maxBatchSize > 0
    && |s.channel| <= cfg.channelSize
    && (!cfg.hasQueue ==> s.queue == [] && !s.drainEnabled && !OnDrain(s.worker))
    && BatchShape(cfg, s)
    && (s.closed ==> s.submitting.Idle?)
    && (!s.submitting.Idle? && s.submitting.byWorker ==> s.worker.Requeueing?)
    && (s.submitting == Overflowing(true) ==> s.worker.Requeueing? && s.worker.rest != [])
    && (s.submitting.Stored? || s.submitting.Counted? ==> cfg.hasQueue)
    && (OnExit(s.worker) && !s.cancelled ==> s.closed && s.channel == [])
    && (s.finished ==> s.closed && s.worker.Stopped?)
    && (WaitsForClose(s.worker) ==> s.closed)
  }

  ghost predicate Bookkeeping<T>(cfg: Config, s: State<T>) {
    CountsExact(s) && Control(cfg, s)
  }

  ghost predicate Invariant<T(!new)>(cfg: Config, s: State<T>) {
    Conserved(s) && Bookkeeping(cfg, s)
  }

  // ----- Every action keeps the invariant -----------------------------------------

  lemma CountHead<T>(q: seq<T>, x: T)
    requires q != []
    ensures Count(q, x) == Count(q[1..], x) + (if q[0] == x then 1 else 0)
  {
    assert q == [q[0]] + q[1..];
  }

  lemma CountBack<T>(q: seq<T>, y: T, x: T)
    ensures Count(q + [y], x) == Count(q, x) + (if y == x then 1 else 0)
  {
  }

  lemma CountSmall<T>(y: T, x: T)
    ensures Count([], x) == 0
    ensures Count([y], x) == if y == x then 1 else 0
  {
  }

  lemma CountAdd<T>(m: multiset<T>, q: seq<T>, x: T)
    ensures (m + multiset(q))[x] == m[x] + Count(q, x)
  {
  }

  lemma ConservedBySubmit<T>(cfg: Config, s: State<T>, a: SubmitStep<T>, x: T)
    requires ConservedFor(s, x) && SubmitEnabled(cfg, s, a)
    ensures ConservedFor(SubmitDo(cfg, s, a), x)
  {
    hide Count;
    if a.Send? || a.Store? {
      CountBack(s.channel, a.item, x);
      CountBack(s.queue, a.item, x);
    }
  }

  lemma ConservedByIntake<T>(cfg: Config, s: State<T>, a: IntakeStep, x: T)
    requires ConservedFor(s, x) && IntakeEnabled(s, a) && Bookkeeping(cfg, s)
    ensures ConservedFor(IntakeDo(cfg, s, a), x)
  {
    hide Count, CountsExact;
    match a
    case Receive(_) =>
      CountHead(s.channel, x);
      CountBack(s.batch, s.channel[0], x);
    case Dequeue =>
      CountHead(s.queue, x);
      CountSmall(s.queue[0], x);
    case CountDequeued(_) =>
      CountBack(s.batch, s.worker.item, x);
      CountSmall(s.worker.item, x);
  }

  lemma ConservedByControl<T>(cfg: Config, s: State<T>, a: ControlStep, x: T)
    requires ConservedFor(s, x) && ControlEnabled(s, a) && Bookkeeping(cfg, s)
    ensures ConservedFor(ControlDo(cfg, s, a), x)
  {
    hide Count, CountsExact;
    assert InHand(ControlDo(cfg, s, a).worker) == InHand(s.worker);
  }

  lemma ConservedByFlush<T>(s: State<T>, a: FlushStep, x: T)
    requires ConservedFor(s, x) && s.worker.Flushing?
    ensures ConservedFor(FlushDo(s, a), x)
  {
    hide Count;
    CountSmall(x, x);
    match a
    case Committed => CountAdd(s.committed, s.batch, x);
    case Dropped => CountAdd(s.dropped, s.batch, x);
    case Failed =>
  }

  lemma ConservedByRequeue<T>(cfg: Config, s: State<T>, a: RequeueStep, x: T)
    requires ConservedFor(s, x) && RequeueEnabled(cfg, s, a)
    ensures ConservedFor(RequeueDo(cfg, s, a), x)
  {
    hide Count;
    var rest := s.worker.rest;
    CountSmall(x, x);
    match a
    case Resend =>
      CountHead(rest, x);
      CountBack(s.channel, rest[0], x);
    case MeetFull =>
    case Restore =>
      CountHead(rest, x);
      CountBack(s.queue, rest[0], x);
    case GiveUp(_) => CountAdd(s.refused, rest, x);
    case Done =>
  }

  lemma KeptConserved<T(!new)>(cfg: Config, s: State<T>, a: Action<T>)
    requires Invariant(cfg, s) && Enabled(cfg, s, a)
    ensures Conserved(Do(cfg, s, a))
  {
    forall x: T ensures ConservedFor(Do(cfg, s, a), x) {
      hide ConservedFor, Bookkeeping, Invariant;
      assert ConservedFor(s, x) && Bookkeeping(cfg, s) by {
        Unfold(cfg, s, x);
      }
      match a
      case Submit(y) => ConservedBySubmit(cfg, s, y, x);
      case Life(y) => ConservedByLife(cfg, s, y, x);
      case Intake(y) => ConservedByIntake(cfg, s, y, x);
      case Control(y) => ConservedByControl(cfg, s, y, x);
      case Flush(y) => ConservedByFlush(s, y, x);
      case Requeue(y) => ConservedByRequeue(cfg, s, y, x);
    }
  }

  lemma Unfold<T(!new)>(cfg: Config, s: State<T>, x: T)
    requires Invariant(cfg, s)
    ensures ConservedFor(s, x) && Bookkeeping(cfg, s)
  {
  }

  lemma ConservedByLife<T>(cfg: Config, s: State<T>, a: LifeStep, x: T)
    requires ConservedFor(s, x) && LifeEnabled(cfg, s, a)
    ensures ConservedFor(LifeDo(cfg, s, a), x)
  {
  }

  lemma BooksBySubmit<T>(cfg: Config, s: State<T>, a: SubmitStep<T>)
    requires Bookkeeping(cfg, s) && SubmitEnabled(cfg, s, a)
    ensures Bookkeeping(cfg, SubmitDo(cfg, s, a)) && SubmitDo(cfg, s, a).backlog == s.backlog
  {
  }

  lemma BooksByIntake<T>(cfg: Config, s: State<T>, a: IntakeStep)
    requires Bookkeeping(cfg, s) && IntakeEnabled(s, a) && WorkerFree(s)
    ensures Bookkeeping(cfg, IntakeDo(cfg, s, a)) && IntakeDo(cfg, s, a).backlog == s.backlog
  {
  }

  lemma BooksByControl<T>(cfg: Config, s: State<T>, a: ControlStep)
    requires Bookkeeping(cfg, s) && ControlEnabled(s, a) && WorkerFree(s)
    ensures Bookkeeping(cfg, ControlDo(cfg, s, a)) && ControlDo(cfg, s, a).backlog == s.backlog
  {
    hide CountsExact, Control;
    CountsByControl(cfg, s, a);
    ControlByControl(cfg, s, a);
  }

  lemma CountsByControl<T>(cfg: Config, s: State<T>, a: ControlStep)
    requires CountsExact(s) && Control(cfg, s) && ControlEnabled(s, a)
    ensures CountsExact(ControlDo(cfg, s, a))
  {
  }

  lemma ControlByControl<T>(cfg: Config, s: State<T>, a: ControlStep)
    requires Control(cfg, s) && ControlEnabled(s, a) && WorkerFree(s)
    ensures Control(cfg, ControlDo(cfg, s, a))
  {
  }

  lemma BooksByFlush<T>(cfg: Config, s: State<T>, a: FlushStep)
    requires Bookkeeping(cfg, s) && s.worker.Flushing? && WorkerFree(s)
    ensures Bookkeeping(cfg, FlushDo(s, a)) && FlushDo(s, a).backlog == s.backlog
  {
  }

  lemma BooksByRequeue<T>(cfg: Config, s: State<T>, a: RequeueStep)
    requires Bookkeeping(cfg, s) && RequeueEnabled(cfg, s, a)
    ensures Bookkeeping(cfg, RequeueDo(cfg, s, a)) && RequeueDo(cfg, s, a).backlog == s.backlog
  {
  }

  lemma KeptBooks<T>(cfg: Config, s: State<T>, a: Action<T>)
    requires Bookkeeping(cfg, s) && Enabled(cfg, s, a)
    ensures Bookkeeping(cfg, Do(cfg, s, a)) && Do(cfg, s, a).backlog == s.backlog
  {
    hide Bookkeeping;
    match a
    case Submit(x) => BooksBySubmit(cfg, s, x);
    case Life(x) => BooksByLife(cfg, s, x);
    case Intake(x) => BooksByIntake(cfg, s, x);
    case Control(x) => BooksByControl(cfg, s, x);
    case Flush(x) => BooksByFlush(cfg, s, x);
    case Requeue(x) => BooksByRequeue(cfg, s, x);
  }

  /** Every action of every goroutine keeps the invariant. */
  lemma Kept<T(!new)>(cfg: Config, s: State<T>, a: Action<T>)
    requires Invariant(cfg, s) && Enabled(cfg, s, a)
    ensures Invariant(cfg, Do(cfg, s, a))
  {
    hide Conserved, Bookkeeping, Do, Enabled;
    KeptConserved(cfg, s, a);
    KeptBooks(cfg, s, a);
  }

  lemma BooksByLife<T>(cfg: Config, s: State<T>, a: LifeStep)
    requires Bookkeeping(cfg, s) && LifeEnabled(cfg, s, a)
    ensures Bookkeeping(cfg, LifeDo(cfg, s, a)) && LifeDo(cfg, s, a).backlog == s.backlog
  {
  }

  // ----- Runs ---------------------------------------------------------------------

  /** The actions lead from `s` to `t`. */
  ghost predicate Run<T>(cfg: Config, s: State<T>, acts: seq<Action<T>>, t: State<T>)
    decreases |acts|
  {
    if acts == [] then t == s
    else Enabled(cfg, s, acts[0]) && Run(cfg, Do(cfg, s, acts[0]), acts[1..], t)
  }

  predicate ValidConfig(cfg: Config) {
    cfg.channelSize > 0 && cfg.maxBatchSize > 0
  }

  lemma InitialHolds<T(!new)>(cfg: Config, backlog: seq<T>, deferDrain: bool)
    requires ValidConfig(cfg) && (!cfg.hasQueue ==> backlog == [])
    ensures Invariant(cfg, Initial(cfg, backlog, deferDrain))
  {
    forall x: T ensures ConservedFor(Initial(cfg, backlog, deferDrain), x) {
    }
  }

  lemma {:induction false} RunKeeps<T(!new)>(cfg: Config, s: State<T>, acts: seq<Action<T>>, t: State<T>)
    requires Invariant(cfg, s) && Run(cfg, s, acts, t)
    ensures Invariant(cfg, t)
    decreases |acts|
  {
    hide Invariant, Do, Enabled;
    if acts == [] {
    } else {
      Kept(cfg, s, acts[0]);
      RunKeeps(cfg, Do(cfg, s, acts[0]), acts[1..], t);
    }
  }

  /** A state that some run reaches from a new batcher over `backlog`. */
  ghost predicate Reaches<T>(cfg: Config, backlog: seq<T>, deferDrain: bool, acts: seq<Action<T>>, t: State<T>) {
    && ValidConfig(cfg)
    && (!cfg.hasQueue ==> backlog == [])
    && Run(cfg, Initial(cfg, backlog, deferDrain), acts, t)
  }

  /**
   In every run, what was accepted together with the initial backlog is, as a multiset,
   what the batcher still holds, what it committed, what its hook dropped, and what a
   failed flush could not re-enqueue.
   */
  lemma Conservation<T(!new)>(cfg: Config, backlog: seq<T>, deferDrain: bool, acts: seq<Action<T>>, t: State<T>)
    requires Reaches(cfg, backlog, deferDrain, acts, t)
    ensures t.accepted + multiset(backlog)
         == multiset(t.channel) + multiset(t.batch) + multiset(InHand(t.worker)) + multiset(t.queue)
            + t.committed + t.dropped + t.refused
  {
    InitialHolds(cfg, backlog, deferDrain);
    RunKeeps(cfg, Initial(cfg, backlog, deferDrain), acts, t);
    BacklogKept(cfg, Initial(cfg, backlog, deferDrain), acts, t);
    var l := t.accepted + multiset(backlog);
    var r := multiset(t.channel) + multiset(t.batch) + multiset(InHand(t.worker)) + multiset(t.queue)
           + t.committed + t.dropped + t.refused;
    forall x: T ensures l[x] == r[x] {
      assert ConservedFor(t, x);
    }
  }

  lemma {:induction false} BacklogKept<T>(cfg: Config, s: State<T>, acts: seq<Action<T>>, t: State<T>)
    requires Bookkeeping(cfg, s) && Run(cfg, s, acts, t)
    ensures t.backlog == s.backlog
    decreases |acts|
  {
    hide Do, Enabled, Bookkeeping;
    if acts == [] {
    } else {
      KeptBooks(cfg, s, acts[0]);
      BacklogKept(cfg, Do(cfg, s, acts[0]), acts[1..], t);
    }
  }

  /** Nothing is committed more often than it came in, nor both committed and dropped, refused or still held. */
  lemma CommittedOnce<T(!new)>(cfg: Config, backlog: seq<T>, deferDrain: bool, acts: seq<Action<T>>, t: State<T>, x: T)
    requires Reaches(cfg, backlog, deferDrain, acts, t)
    requires t.accepted[x] + multiset(backlog)[x] == 1
    ensures t.committed[x] <= 1
    ensures x in t.committed ==>
              && x !in t.dropped && x !in t.refused
              && x !in t.channel && x !in t.batch && x !in t.queue && x !in InHand(t.worker)
  {
    Conservation(cfg, backlog, deferDrain, acts, t);
    var held := multiset(t.channel) + multiset(t.batch) + multiset(InHand(t.worker)) + multiset(t.queue);
    assert (t.accepted + multiset(backlog))[x] == (held + t.committed + t.dropped + t.refused)[x];
    assert held[x] == multiset(t.channel)[x] + multiset(t.batch)[x] + multiset(InHand(t.worker))[x]
        + multiset(t.queue)[x];
  }

  /** The counters agree with the contents whenever no Submit and no flush is in progress. */
  lemma QuietCounts<T(!new)>(cfg: Config, backlog: seq<T>, deferDrain: bool, acts: seq<Action<T>>, t: State<T>)
    requires Reaches(cfg, backlog, deferDrain, acts, t)
    requires t.submitting.Idle? && !t.worker.Requeueing? && !t.worker.Settling? && !t.worker.Holding?
    ensures t.pending == |t.channel| + |t.batch| + |t.queue|
    ensures t.overflow == |t.queue| - |backlog|
    ensures t.totalCommitted == |t.committed| && t.totalFlushed == |t.committed| + |t.dropped|
  {
    InitialHolds(cfg, backlog, deferDrain);
    RunKeeps(cfg, Initial(cfg, backlog, deferDrain), acts, t);
    BacklogKept(cfg, Initial(cfg, backlog, deferDrain), acts, t);
  }

  /** Every flush gets at least one item and at most the maximum, and a batch of that size is in its flush. */
  lemma FlushSize<T(!new)>(cfg: Config, backlog: seq<T>, deferDrain: bool, acts: seq<Action<T>>, t: State<T>)
    requires Reaches(cfg, backlog, deferDrain, acts, t)
    ensures t.worker.Flushing? ==> 1 <= |t.batch| <= cfg.maxBatchSize
    ensures !t.worker.Flushing? ==> |t.batch| < cfg.maxBatchSize
  {
    InitialHolds(cfg, backlog, deferDrain);
    RunKeeps(cfg, Initial(cfg, backlog, deferDrain), acts, t);
  }

  // ----- Sessions -----------------------------------------------------------------

  /** Once the batcher is closed and the worker is on its exit path, the durable queue stays as it is. */
  lemma {:induction false} ExitLeavesQueue<T(!new)>(cfg: Config, s: State<T>, acts: seq<Action<T>>, t: State<T>)
    requires Invariant(cfg, s) && s.closed && OnExit(s.worker) && Run(cfg, s, acts, t)
    ensures t.queue == s.queue && t.closed && OnExit(t.worker)
    decreases |acts|
  {
    if acts == [] {
    } else {
      var s' := Do(cfg, s, acts[0]);
      assert s'.queue == s.queue && s'.closed && OnExit(s'.worker) by {
        ExitStep(cfg, s, acts[0]);
      }
      Kept(cfg, s, acts[0]);
      hide Invariant;
      ExitLeavesQueue(cfg, s', acts[1..], t);
    }
  }

  ghost predicate StillExiting<T>(s: State<T>, s': State<T>) {
    s'.queue == s.queue && s'.closed && OnExit(s'.worker)
  }

  lemma ExitStep<T>(cfg: Config, s: State<T>, a: Action<T>)
    requires Bookkeeping(cfg, s) && s.closed && OnExit(s.worker) && Enabled(cfg, s, a)
    ensures StillExiting(s, Do(cfg, s, a))
  {
    hide Bookkeeping, StillExiting;
    match a
    case Submit(x) => ExitSubmit(cfg, s, x);
    case Life(x) => ExitLife(cfg, s, x);
    case Intake(x) => ExitIntake(cfg, s, x);
    case Control(x) => ExitControl(cfg, s, x);
    case Flush(x) => ExitFlush(cfg, s, x);
    case Requeue(x) => ExitRequeue(cfg, s, x);
  }

  lemma ExitSubmit<T>(cfg: Config, s: State<T>, a: SubmitStep<T>)
    requires Bookkeeping(cfg, s) && s.closed && OnExit(s.worker) && SubmitEnabled(cfg, s, a)
    ensures StillExiting(s, SubmitDo(cfg, s, a))
  {
  }

  lemma ExitLife<T>(cfg: Config, s: State<T>, a: LifeStep)
    requires s.closed && OnExit(s.worker) && LifeEnabled(cfg, s, a)
    ensures StillExiting(s, LifeDo(cfg, s, a))
  {
  }

  lemma ExitFlush<T>(cfg: Config, s: State<T>, a: FlushStep)
    requires s.closed && OnExit(s.worker) && s.worker.Flushing?
    ensures StillExiting(s, FlushDo(s, a))
  {
  }

  lemma ExitRequeue<T>(cfg: Config, s: State<T>, a: RequeueStep)
    requires Bookkeeping(cfg, s) && s.closed && OnExit(s.worker) && RequeueEnabled(cfg, s, a)
    ensures StillExiting(s, RequeueDo(cfg, s, a))
  {
  }

  lemma ExitIntake<T>(cfg: Config, s: State<T>, a: IntakeStep)
    requires s.closed && OnExit(s.worker) && IntakeEnabled(s, a)
    ensures StillExiting(s, IntakeDo(cfg, s, a))
  {
  }

  lemma ExitControl<T>(cfg: Config, s: State<T>, a: ControlStep)
    requires s.closed && OnExit(s.worker) && ControlEnabled(s, a)
    ensures StillExiting(s, ControlDo(cfg, s, a))
  {
  }

  /** A session from New to the return of Close. */
  datatype Session<T(==)> = Session(deferDrain: bool, acts: seq<Action<T>>, end: State<T>)

  /** Close returned, the context was not cancelled before, and no re-enqueue was refused. */
  ghost predicate CleanSession<T>(cfg: Config, backlog: seq<T>, x: Session<T>) {
    && Reaches(cfg, backlog, x.deferDrain, x.acts, x.end)
    && x.end.finished && !x.end.cancelled && x.end.refused == multiset{}
  }

  /** Sessions on one directory, each opening the durable queue that the one before left. */
  ghost predicate CleanSessions<T>(cfg: Config, backlog: seq<T>, xs: seq<Session<T>>)
    decreases |xs|
  {
    xs != [] ==> CleanSession(cfg, backlog, xs[0]) && CleanSessions(cfg, xs[0].end.queue, xs[1..])
  }

  /** The durable queue after the sessions. */
  function QueueAfter<T(==)>(backlog: seq<T>, xs: seq<Session<T>>): seq<T> {
    if xs == [] then backlog else xs[|xs| - 1].end.queue
  }

  function AllAccepted<T(==)>(xs: seq<Session<T>>): multiset<T> {
    if xs == [] then multiset{} else xs[0].end.accepted + AllAccepted(xs[1..])
  }

  /** Committed or dropped by the hook. */
  function AllFlushed<T(==)>(xs: seq<Session<T>>): multiset<T> {
    if xs == [] then multiset{} else xs[0].end.committed + xs[0].end.dropped + AllFlushed(xs[1..])
  }

  /** A clean close empties the channel and the batch: what is not flushed is in the durable queue. */
  lemma CleanClose<T(!new)>(cfg: Config, backlog: seq<T>, x: Session<T>)
    requires CleanSession(cfg, backlog, x)
    ensures x.end.channel == [] && x.end.batch == []
    ensures x.end.accepted + multiset(backlog) == multiset(x.end.queue) + (x.end.committed + x.end.dropped)
  {
    var t := x.end;
    InitialHolds(cfg, backlog, x.deferDrain);
    RunKeeps(cfg, Initial(cfg, backlog, x.deferDrain), x.acts, t);
    Conservation(cfg, backlog, x.deferDrain, x.acts, t);
    assert t.worker == Stopped;
    assert multiset(t.channel) + multiset(t.batch) + multiset(InHand(t.worker)) == multiset{};
  }

  /**
   After any number of clean sessions the durable queue holds, as a multiset, exactly
   the first backlog and everything accepted less everything flushed; and that is the
   pending count with which the next session starts.
   */
  lemma {:induction false} AcrossSessions<T(!new)>(cfg: Config, backlog: seq<T>, xs: seq<Session<T>>, deferDrain: bool)
    requires CleanSessions(cfg, backlog, xs) && (!cfg.hasQueue ==> backlog == [])
    ensures !cfg.hasQueue ==> QueueAfter(backlog, xs) == []
    ensures AllAccepted(xs) + multiset(backlog) == multiset(QueueAfter(backlog, xs)) + AllFlushed(xs)
    ensures Initial(cfg, QueueAfter(backlog, xs), deferDrain).pending
         == |backlog| + |AllAccepted(xs)| - |AllFlushed(xs)|
    decreases |xs|
  {
    hide CleanSession;
    if xs == [] {
    } else {
      var x, rest := xs[0], xs[1..];
      OneSession(cfg, backlog, x);
      AcrossSessions(cfg, x.end.queue, rest, deferDrain);
      Chain(x.end.accepted, multiset(backlog), multiset(x.end.queue), x.end.committed + x.end.dropped,
            AllAccepted(rest), multiset(QueueAfter(x.end.queue, rest)), AllFlushed(rest));
    }
    assert |AllAccepted(xs) + multiset(backlog)| == |AllAccepted(xs)| + |backlog|;
  }

  lemma OneSession<T(!new)>(cfg: Config, backlog: seq<T>, x: Session<T>)
    requires CleanSession(cfg, backlog, x)
    ensures !cfg.hasQueue ==> x.end.queue == []
    ensures x.end.accepted + multiset(backlog) == multiset(x.end.queue) + (x.end.committed + x.end.dropped)
  {
    hide Conserved, CountsExact, BatchShape, Run;
    CleanClose(cfg, backlog, x);
    InitialHolds(cfg, backlog, x.deferDrain);
    RunKeeps(cfg, Initial(cfg, backlog, x.deferDrain), x.acts, x.end);
  }

  lemma Chain<T>(a: multiset<T>, b: multiset<T>, q: multiset<T>, f: multiset<T>, a': multiset<T>, q': multiset<T>,
                 f': multiset<T>)
    requires a + b == q + f && a' + q == q' + f'
    ensures (a + a') + b == q' + (f + f')
  {
    assert forall x | x in a + a' + b + q' + f + f' + q ::
        a[x] + b[x] == (a + b)[x] && (q + f)[x] == q[x] + f[x]
        && (a' + q)[x] == a'[x] + q[x] && (q' + f')[x] == q'[x] + f'[x];
  }
}
