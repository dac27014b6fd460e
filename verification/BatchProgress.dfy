/**
 What a Submit does when nothing else moves, and that the worker can always flush
 everything it is responsible for.
 */
module BatchProgress {
  import opened Wrappers
  import opened WriteBatcher

  // ----- One Submit ---------------------------------------------------------------

  predicate About<T(==)>(a: SubmitStep<T>, x: T) {
    match a
    case Send(y) => y == x
    case Store(y) => y == x
    case Refuse(y, _) => y == x
    case _ => true
  }

  /** A Submit of `x` runs on its own until it returns, with an error if its last step refuses. */
  ghost predicate SubmitRun<T>(cfg: Config, s: State<T>, x: T, steps: seq<SubmitStep<T>>, t: State<T>,
                               error: Option<Refusal>)
    decreases |steps|
  {
    && steps != []
    && About(steps[0], x)
    && SubmitEnabled(cfg, s, steps[0])
    && var u := SubmitDo(cfg, s, steps[0]);
       if u.submitting.Idle? then
         && steps[1..] == []
         && t == u
         && error == (if steps[0].Refuse? then Some(steps[0].why) else None)
       else
         SubmitRun(cfg, u, x, steps[1..], t, error)
  }

  predicate HasRoom<T>(cfg: Config, s: State<T>) {
    |s.channel| < cfg.channelSize
  }

  /** Accepted into the channel. */
  ghost predicate SentTo<T>(s: State<T>, x: T, t: State<T>) {
    t == s.(channel := s.channel + [x], pending := s.pending + 1, accepted := s.accepted + multiset{x})
  }

  /** Accepted into the durable queue. */
  ghost predicate StoredIn<T>(s: State<T>, x: T, t: State<T>) {
    t == s.(queue := s.queue + [x], pending := s.pending + 1, overflow := s.overflow + 1,
            accepted := s.accepted + multiset{x})
  }

  /** What a Submit of `x` can do, and what it then returns. */
  ghost predicate SubmitOutcome<T>(cfg: Config, s: State<T>, x: T, t: State<T>, error: Option<Refusal>) {
    match error
    case None =>
      || (!s.closed && HasRoom(cfg, s) && SentTo(s, x, t))
      || (!s.closed && !s.cancelled && !HasRoom(cfg, s) && cfg.hasQueue && StoredIn(s, x, t))
    case Some(ErrClosed) => (s.closed || s.cancelled) && t == s
    case Some(ErrFull) => !s.closed && !s.cancelled && !HasRoom(cfg, s) && t == s
    case Some(ErrQuotaExceeded) => !s.closed && !s.cancelled && !HasRoom(cfg, s) && cfg.hasQueue && t == s
  }

  lemma SubmitUnfold<T>(cfg: Config, s: State<T>, x: T, steps: seq<SubmitStep<T>>, t: State<T>, error: Option<Refusal>)
    requires SubmitRun(cfg, s, x, steps, t, error)
    ensures steps != [] && About(steps[0], x) && SubmitEnabled(cfg, s, steps[0])
    ensures var u := SubmitDo(cfg, s, steps[0]);
            if u.submitting.Idle? then t == u && error == if steps[0].Refuse? then Some(steps[0].why) else None
            else SubmitRun(cfg, u, x, steps[1..], t, error)
  {
  }

  lemma AfterSent<T>(cfg: Config, u: State<T>, x: T, steps: seq<SubmitStep<T>>, t: State<T>, error: Option<Refusal>)
    requires u.submitting == Sent(false) && SubmitRun(cfg, u, x, steps, t, error)
    ensures error == None && t == u.(pending := u.pending + 1, submitting := Idle)
  {
    hide SubmitRun;
    SubmitUnfold(cfg, u, x, steps, t, error);
  }

  lemma AfterCounted<T>(cfg: Config, u: State<T>, x: T, steps: seq<SubmitStep<T>>, t: State<T>, error: Option<Refusal>)
    requires u.submitting == Counted(false) && SubmitRun(cfg, u, x, steps, t, error)
    ensures error == None && t == u.(overflow := u.overflow + 1, submitting := Idle)
  {
    hide SubmitRun;
    SubmitUnfold(cfg, u, x, steps, t, error);
  }

  lemma AfterStored<T>(cfg: Config, u: State<T>, x: T, steps: seq<SubmitStep<T>>, t: State<T>, error: Option<Refusal>)
    requires u.submitting == Stored(false) && SubmitRun(cfg, u, x, steps, t, error)
    ensures error == None && t == u.(pending := u.pending + 1, overflow := u.overflow + 1, submitting := Idle)
  {
    hide SubmitRun;
    SubmitUnfold(cfg, u, x, steps, t, error);
    AfterCounted(cfg, SubmitDo(cfg, u, steps[0]), x, steps[1..], t, error);
  }

  lemma AfterFull<T>(cfg: Config, u: State<T>, x: T, steps: seq<SubmitStep<T>>, t: State<T>, error: Option<Refusal>)
    requires u.submitting == Overflowing(false) && SubmitRun(cfg, u, x, steps, t, error)
    ensures error == None ==> cfg.hasQueue && StoredIn(u.(submitting := Idle), x, t)
    ensures error != None ==> t == u.(submitting := Idle) && error.value != ErrClosed
    ensures error == Some(ErrQuotaExceeded) ==> cfg.hasQueue
  {
    hide SubmitRun;
    SubmitUnfold(cfg, u, x, steps, t, error);
    if steps[0].Store? {
      AfterStored(cfg, SubmitDo(cfg, u, steps[0]), x, steps[1..], t, error);
    }
  }

  lemma SubmitSound<T>(cfg: Config, s: State<T>, x: T, steps: seq<SubmitStep<T>>, t: State<T>, error: Option<Refusal>)
    requires s.submitting.Idle? && SubmitRun(cfg, s, x, steps, t, error)
    ensures SubmitOutcome(cfg, s, x, t, error)
  {
    hide SubmitRun;
    SubmitUnfold(cfg, s, x, steps, t, error);
    var u := SubmitDo(cfg, s, steps[0]);
    match steps[0]
    case Send(_) => AfterSent(cfg, u, x, steps[1..], t, error);
    case FindFull => AfterFull(cfg, u, x, steps[1..], t, error);
    case Refuse(_, _) =>
  }

  lemma SubmitStops<T>(cfg: Config, s: State<T>, x: T, a: SubmitStep<T>)
    requires SubmitEnabled(cfg, s, a) && About(a, x) && SubmitDo(cfg, s, a).submitting.Idle?
    ensures SubmitRun(cfg, s, x, [a], SubmitDo(cfg, s, a), if a.Refuse? then Some(a.why) else None)
  {
  }

  lemma SubmitGoesOn<T>(cfg: Config, s: State<T>, x: T, a: SubmitStep<T>, steps: seq<SubmitStep<T>>, t: State<T>,
                        error: Option<Refusal>)
    requires SubmitEnabled(cfg, s, a) && About(a, x) && !SubmitDo(cfg, s, a).submitting.Idle?
    requires SubmitRun(cfg, SubmitDo(cfg, s, a), x, steps, t, error)
    ensures SubmitRun(cfg, s, x, [a] + steps, t, error)
  {
    assert ([a] + steps)[1..] == steps;
  }

  lemma SubmitComplete<T>(cfg: Config, s: State<T>, x: T, t: State<T>, error: Option<Refusal>)
    returns (steps: seq<SubmitStep<T>>)
    requires s.submitting.Idle? && SubmitOutcome(cfg, s, x, t, error)
    ensures SubmitRun(cfg, s, x, steps, t, error)
  {
    hide SubmitRun;
    if error == Some(ErrClosed) {
      steps := [Refuse(x, ErrClosed)];
      SubmitStops(cfg, s, x, Refuse(x, ErrClosed));
    } else if HasRoom(cfg, s) {
      SubmitStops(cfg, SubmitDo(cfg, s, Send(x)), x, CountPending);
      steps := [Send(x)] + [CountPending];
      SubmitGoesOn(cfg, s, x, Send(x), [CountPending], t, error);
    } else {
      var u := SubmitDo(cfg, s, FindFull);
      var rest := Overflow(cfg, u, x, t, error);
      steps := [FindFull] + rest;
      SubmitGoesOn(cfg, s, x, FindFull, rest, t, error);
    }
  }

  lemma Overflow<T>(cfg: Config, u: State<T>, x: T, t: State<T>, error: Option<Refusal>)
    returns (steps: seq<SubmitStep<T>>)
    requires u.submitting == Overflowing(false)
    requires error == None ==> cfg.hasQueue && StoredIn(u.(submitting := Idle), x, t)
    requires error != None ==> t == u.(submitting := Idle) && error.value != ErrClosed
    requires error == Some(ErrQuotaExceeded) ==> cfg.hasQueue
    ensures SubmitRun(cfg, u, x, steps, t, error)
  {
    hide SubmitRun;
    if error != None {
      steps := [Refuse(x, error.value)];
      SubmitStops(cfg, u, x, Refuse(x, error.value));
    } else {
      var v := SubmitDo(cfg, u, Store(x));
      var w := SubmitDo(cfg, v, CountPending);
      SubmitStops(cfg, w, x, CountOverflow);
      SubmitGoesOn(cfg, v, x, CountPending, [CountOverflow], t, error);
      steps := [Store(x)] + ([CountPending] + [CountOverflow]);
      SubmitGoesOn(cfg, u, x, Store(x), [CountPending] + [CountOverflow], t, error);
    }
  }

  /**
   A Submit on its own puts the item into the channel if that has room and else into the
   durable queue, or is refused and changes nothing: for want of room only when the channel
   is full, as closed only when the batcher is closed or cancelled.  Every such outcome has a run.
   */
  lemma SubmitExactly<T>(cfg: Config, s: State<T>, x: T, t: State<T>, error: Option<Refusal>)
    requires s.submitting.Idle?
    ensures (exists steps :: SubmitRun(cfg, s, x, steps, t, error)) <==> SubmitOutcome(cfg, s, x, t, error)
  {
    hide SubmitRun, SubmitOutcome;
    if steps :| SubmitRun(cfg, s, x, steps, t, error) {
      SubmitSound(cfg, s, x, steps, t, error);
    }
    if SubmitOutcome(cfg, s, x, t, error) {
      var steps := SubmitComplete(cfg, s, x, t, error);
    }
  }

  // ----- When a flush starts ----------------------------------------------------------

  /** The batch with the new item has reached its maximum in number or, by `byteLimit`, in bytes. */
  predicate Fills<T>(cfg: Config, a: IntakeStep, t: State<T>) {
    match a
    case Receive(byteLimit) => byteLimit || |t.batch| == cfg.maxBatchSize
    case CountDequeued(byteLimit) => byteLimit || |t.batch| == cfg.maxBatchSize
    case Dequeue => false
  }

  predicate Triggers<T>(cfg: Config, s: State<T>, a: Action<T>, t: State<T>) {
    match a
    case Intake(x) => Fills(cfg, x, t)
    case Control(TimerFires) => true
    case Control(DrainEnd) => s.worker.Draining? && s.worker.drained
    case Control(ExitEnd) => true
    case _ => false
  }

  lemma IntakeTriggers<T>(cfg: Config, s: State<T>, a: IntakeStep)
    requires BatchShape(cfg, s) && IntakeEnabled(s, a)
    ensures IntakeDo(cfg, s, a).worker.Flushing? <==> Fills(cfg, a, IntakeDo(cfg, s, a))
    ensures IntakeDo(cfg, s, a).worker.Flushing? ==> IntakeDo(cfg, s, a).batch != []
  {
  }

  lemma ControlTriggers<T>(cfg: Config, s: State<T>, a: ControlStep)
    requires BatchShape(cfg, s) && !s.worker.Flushing? && ControlEnabled(s, a)
    ensures ControlDo(cfg, s, a).worker.Flushing?
       <==> s.batch != [] && Triggers(cfg, s, Control(a), ControlDo(cfg, s, a))
    ensures ControlDo(cfg, s, a).batch == s.batch
  {
  }

  lemma OthersTrigger<T>(cfg: Config, s: State<T>, a: Action<T>)
    requires !s.worker.Flushing? && Enabled(cfg, s, a) && !a.Intake? && !a.Control?
    ensures !Do(cfg, s, a).worker.Flushing?
  {
  }

  /**
   A flush starts exactly when an item fills the batch in number or in bytes, when the timer
   fires, at the end of a drain that dequeued something, and on exit; never of an empty batch.
   */
  lemma FlushTriggers<T(!new)>(cfg: Config, s: State<T>, a: Action<T>)
    requires Invariant(cfg, s) && !s.worker.Flushing? && Enabled(cfg, s, a)
    ensures Do(cfg, s, a).worker.Flushing?
       <==> Do(cfg, s, a).batch != [] && Triggers(cfg, s, a, Do(cfg, s, a))
  {
    assert BatchShape(cfg, s);
    hide BatchShape, Fills, Conserved, CountsExact, IntakeDo, ControlDo, SubmitDo, LifeDo, RequeueDo, FlushDo;
    hide ControlEnabled, IntakeEnabled, SubmitEnabled, LifeEnabled, RequeueEnabled;
    match a
    case Submit(_) => OthersTrigger(cfg, s, a);
    case Life(_) => OthersTrigger(cfg, s, a);
    case Intake(x) => IntakeTriggers(cfg, s, x);
    case Control(x) => ControlTriggers(cfg, s, x);
    case Requeue(_) => OthersTrigger(cfg, s, a);
  }

  // ----- The worker delivers --------------------------------------------------------

  predicate Drains<T>(cfg: Config, s: State<T>) {
    cfg.hasQueue && s.drainEnabled
  }

  /** The worker has nothing left to do: it has stopped, or it waits with nothing in its charge. */
  predicate AtRest<T(==)>(cfg: Config, s: State<T>) {
    || s.worker.Stopped?
    || (s.worker.Selecting? && !s.closed && s.channel == [] && s.batch == [] && (Drains(cfg, s) ==> s.queue == []))
  }

  /** The last flush of the exit path has begun. */
  predicate Ending<T>(w: Worker<T>) {
    w.Stopped? || ((w.Flushing? || w.Settling?) && w.resume.Stopped?)
  }

  /** No Submit and no retry of a failed batch is in progress, and nothing came too late for the worker. */
  ghost predicate Ready<T>(s: State<T>) {
    s.submitting.Idle? && !s.worker.Requeueing? && (Ending(s.worker) ==> s.channel == [])
  }

  /** A next step of the worker towards its rest, when every flush succeeds. */
  ghost function NextStep<T>(cfg: Config, s: State<T>): Action<T>
    requires !AtRest(cfg, s) && !s.worker.Requeueing?
  {
    match s.worker
    case Draining(_) =>
      if s.channel != [] then Intake(Receive(false))
      else if s.closed then Control(LeaveDrain)
      else if s.queue != [] then Intake(Dequeue)
      else Control(DrainEnd)
    case Holding(_) => Intake(CountDequeued(false))
    case Selecting =>
      if s.channel != [] then Intake(Receive(false))
      else if s.closed then Control(SawClosedChannel)
      else if s.batch != [] then Control(TimerFires)
      else Control(Wake)
    case Exiting(_) => if s.channel != [] then Intake(Receive(false)) else Control(ExitEnd)
    case Flushing(_) => Flush(Committed)
    case Settling(_, _) => Control(Settle)
  }

  ghost function Phase<T>(cfg: Config, s: State<T>): nat {
    match s.worker
    case Holding(_) => 18
    case Settling(_, _) => 7
    case Draining(_) => 4
    case Selecting => if !s.closed && Drains(cfg, s) && s.queue != [] then 5 else 2
    case Exiting(_) => 1
    case _ => 0
  }

  /** How far the worker is from its rest. */
  ghost function Distance<T>(cfg: Config, s: State<T>): nat {
    20 * |s.queue| + 16 * |s.channel| + (if s.batch == [] then 0 else 8) + Phase(cfg, s)
  }

  /** What the worker leaves alone. */
  ghost predicate SameBut<T>(s: State<T>, t: State<T>) {
    && t.closed == s.closed && t.cancelled == s.cancelled && t.drainEnabled == s.drainEnabled
    && t.backlog == s.backlog && t.accepted == s.accepted && t.dropped == s.dropped && t.refused == s.refused
  }

  ghost predicate Nearer<T>(cfg: Config, s: State<T>, t: State<T>) {
    Ready(t) && SameBut(s, t) && Distance(cfg, t) < Distance(cfg, s)
  }

  lemma ReceiveNears<T>(cfg: Config, s: State<T>)
    requires Ready(s) && (s.worker.Draining? || s.worker.Selecting? || s.worker.Exiting?) && s.channel != []
    ensures Nearer(cfg, s, IntakeDo(cfg, s, Receive(false)))
  {
  }

  lemma DequeueNears<T>(cfg: Config, s: State<T>)
    requires Ready(s) && s.worker.Draining? && s.queue != []
    ensures Nearer(cfg, s, IntakeDo(cfg, s, Dequeue))
  {
  }

  lemma CountDequeuedNears<T>(cfg: Config, s: State<T>)
    requires Ready(s) && s.worker.Holding?
    ensures Nearer(cfg, s, IntakeDo(cfg, s, CountDequeued(false)))
  {
  }

  lemma CommitNears<T>(cfg: Config, s: State<T>)
    requires Ready(s) && s.worker.Flushing? && BatchShape(cfg, s)
    ensures Nearer(cfg, s, FlushDo(s, Committed))
  {
  }

  lemma SettleNears<T>(cfg: Config, s: State<T>)
    requires Ready(s) && s.worker.Settling? && BatchShape(cfg, s)
    ensures Nearer(cfg, s, ControlDo(cfg, s, Settle))
  {
  }

  /** The steps with which the worker turns to something else, when the channel is empty. */
  lemma TurnNears<T>(cfg: Config, s: State<T>, a: ControlStep)
    requires Ready(s) && s.channel == [] && ControlEnabled(s, a)
    requires s.worker.Draining? ==> a == if s.closed then LeaveDrain else DrainEnd
    requires s.worker.Selecting? ==>
               && (a == if s.closed then SawClosedChannel else if s.batch != [] then TimerFires else Wake)
               && !AtRest(cfg, s)
    requires s.worker.Exiting? ==> a == ExitEnd
    requires s.worker.Draining? || s.worker.Selecting? || s.worker.Exiting?
    ensures Nearer(cfg, s, ControlDo(cfg, s, a))
  {
  }

  lemma NextStepNears<T>(cfg: Config, s: State<T>)
    requires Bookkeeping(cfg, s) && Ready(s) && !AtRest(cfg, s)
    ensures Enabled(cfg, s, NextStep(cfg, s)) && Nearer(cfg, s, Do(cfg, s, NextStep(cfg, s)))
  {
    hide Nearer, CountsExact, AtRest, IntakeDo, ControlDo, FlushDo;
    match s.worker
    case Draining(_) =>
      if s.channel != [] { ReceiveNears(cfg, s); }
      else if s.closed { TurnNears(cfg, s, LeaveDrain); }
      else if s.queue != [] { DequeueNears(cfg, s); }
      else { TurnNears(cfg, s, DrainEnd); }
    case Holding(_) => CountDequeuedNears(cfg, s);
    case Selecting =>
      if s.channel != [] { ReceiveNears(cfg, s); }
      else { TurnNears(cfg, s, if s.closed then SawClosedChannel else if s.batch != [] then TimerFires else Wake); }
    case Exiting(_) => if s.channel != [] { ReceiveNears(cfg, s); } else { TurnNears(cfg, s, ExitEnd); }
    case Flushing(_) => CommitNears(cfg, s);
    case Settling(_, _) => SettleNears(cfg, s);
    case Stopped => StoppedRests(cfg, s);
  }

  lemma StoppedRests<T>(cfg: Config, s: State<T>)
    requires s.worker.Stopped?
    ensures AtRest(cfg, s)
  {
  }

  /** Moves of the worker alone, with flushes that succeed. */
  ghost predicate ByWorker<T>(acts: seq<Action<T>>) {
    forall a :: a in acts ==> a.Intake? || a.Control? || a == Flush(Committed)
  }

  /** Everything the worker had in its charge is committed, except what still waits in the durable queue. */
  ghost predicate Delivered<T>(cfg: Config, s: State<T>, t: State<T>) {
    && AtRest(cfg, t) && t.channel == [] && t.batch == [] && SameBut(s, t)
    && t.committed + multiset(t.queue)
       == s.committed + multiset(s.channel) + multiset(s.batch) + multiset(InHand(s.worker)) + multiset(s.queue)
  }

  lemma {:induction false} WorkerRests<T(!new)>(cfg: Config, s: State<T>) returns (acts: seq<Action<T>>, t: State<T>)
    requires Invariant(cfg, s) && Ready(s)
    ensures ByWorker(acts) && Run(cfg, s, acts, t) && AtRest(cfg, t) && Ready(t) && SameBut(s, t) && Invariant(cfg, t)
    decreases Distance(cfg, s)
  {
    hide AtRest, Conserved, Bookkeeping, Distance;
    if AtRest(cfg, s) {
      acts, t := [], s;
    } else {
      var a := NextStep(cfg, s);
      NextStepNears(cfg, s);
      Kept(cfg, s, a);
      hide Invariant, Do;
      var rest, end := WorkerRests(cfg, Do(cfg, s, a));
      acts, t := [a] + rest, end;
      assert acts[1..] == rest;
    }
  }

  lemma RestDelivers<T(!new)>(cfg: Config, s: State<T>, t: State<T>)
    requires Invariant(cfg, s) && Invariant(cfg, t) && SameBut(s, t) && Ready(t) && AtRest(cfg, t)
    ensures Delivered(cfg, s, t)
  {
    assert t.channel == [] && t.batch == [] && InHand(t.worker) == [];
    var l := t.committed + multiset(t.queue);
    var r := s.committed + multiset(s.channel) + multiset(s.batch) + multiset(InHand(s.worker)) + multiset(s.queue);
    forall x: T ensures l[x] == r[x] {
      assert ConservedFor(s, x) && ConservedFor(t, x);
    }
  }

  lemma {:induction false} EndingStays<T>(cfg: Config, s: State<T>, acts: seq<Action<T>>, t: State<T>)
    requires Ending(s.worker) && ByWorker(acts) && Run(cfg, s, acts, t)
    ensures t.channel == s.channel
    decreases |acts|
  {
    if acts == [] {
    } else {
      EndingStep(cfg, s, acts[0]);
      hide Ending;
      EndingStays(cfg, Do(cfg, s, acts[0]), acts[1..], t);
    }
  }

  lemma EndingStep<T>(cfg: Config, s: State<T>, a: Action<T>)
    requires Ending(s.worker) && (a.Intake? || a.Control? || a == Flush(Committed)) && Enabled(cfg, s, a)
    ensures Ending(Do(cfg, s, a).worker) && Do(cfg, s, a).channel == s.channel
  {
  }

  /**
   From a state of a run in which no Submit and no retry is in progress, the worker alone can
   commit all it has in its charge - the channel, the batch, and the durable queue if it drains
   that - exactly when nothing entered the channel after its last look there.
   */
  lemma CanDeliver<T(!new)>(cfg: Config, s: State<T>)
    requires Invariant(cfg, s) && s.submitting.Idle? && !s.worker.Requeueing?
    ensures (exists acts, t :: ByWorker(acts) && Run(cfg, s, acts, t) && Delivered(cfg, s, t))
       <==> (Ending(s.worker) ==> s.channel == [])
  {
    hide Invariant, ByWorker, Run;
    if Ending(s.worker) ==> s.channel == [] {
      var acts, t := WorkerRests(cfg, s);
      RestDelivers(cfg, s, t);
    } else if acts, t :| ByWorker(acts) && Run(cfg, s, acts, t) && Delivered(cfg, s, t) {
      EndingStays(cfg, s, acts, t);
      assert false;
    }
  }

  /** That happens only under a cancelled context. */
  lemma LateOnlyWhenCancelled<T(!new)>(cfg: Config, s: State<T>)
    requires Invariant(cfg, s) && Ending(s.worker) && s.channel != []
    ensures s.cancelled
  {
    assert OnExit(s.worker);
  }

  /** What enters the channel of a stopped worker is never flushed: it stays there in every run. */
  lemma {:induction false} LateItemStays<T(!new)>(cfg: Config, s: State<T>, acts: seq<Action<T>>, t: State<T>)
    requires Invariant(cfg, s) && s.worker.Stopped? && Run(cfg, s, acts, t)
    ensures t.worker.Stopped? && s.channel <= t.channel
    decreases |acts|
  {
    if acts == [] {
    } else {
      Kept(cfg, s, acts[0]);
      StoppedStep(cfg, s, acts[0]);
      hide Invariant;
      LateItemStays(cfg, Do(cfg, s, acts[0]), acts[1..], t);
    }
  }

  lemma StoppedStep<T>(cfg: Config, s: State<T>, a: Action<T>)
    requires s.worker.Stopped? && Enabled(cfg, s, a)
    ensures Do(cfg, s, a).worker.Stopped? && s.channel <= Do(cfg, s, a).channel
  {
  }

  // ----- The life of a batcher ----------------------------------------------------------

  /** Only the four events of its life change the four flags, and each for good. */
  lemma {:induction false} LifeTold<T>(cfg: Config, s: State<T>, acts: seq<Action<T>>, t: State<T>)
    requires Run(cfg, s, acts, t)
    ensures t.drainEnabled <==> s.drainEnabled || Life(StartDrain) in acts
    ensures t.cancelled <==> s.cancelled || Life(Cancel) in acts
    ensures t.closed <==> s.closed || Life(CloseSignal) in acts
    ensures t.finished <==> s.finished || Life(CloseFinish) in acts
    decreases |acts|
  {
    if acts == [] {
    } else {
      LifeStepTold(cfg, s, acts[0]);
      hide Do, Enabled;
      LifeTold(cfg, Do(cfg, s, acts[0]), acts[1..], t);
      assert acts == [acts[0]] + acts[1..];
    }
  }

  /** Only the event itself sets a flag. */
  ghost predicate FlagsBy<T>(s: State<T>, a: Action<T>, t: State<T>) {
    && (t.drainEnabled <==> s.drainEnabled || a == Life(StartDrain))
    && (t.cancelled <==> s.cancelled || a == Life(Cancel))
    && (t.closed <==> s.closed || a == Life(CloseSignal))
    && (t.finished <==> s.finished || a == Life(CloseFinish))
  }

  lemma SubmitTold<T>(cfg: Config, s: State<T>, a: SubmitStep<T>)
    requires SubmitEnabled(cfg, s, a)
    ensures FlagsBy(s, Submit(a), SubmitDo(cfg, s, a))
  {
  }

  lemma IntakeTold<T>(cfg: Config, s: State<T>, a: IntakeStep)
    requires IntakeEnabled(s, a)
    ensures FlagsBy(s, Intake(a), IntakeDo(cfg, s, a))
  {
  }

  lemma ControlTold<T>(cfg: Config, s: State<T>, a: ControlStep)
    requires ControlEnabled(s, a)
    ensures FlagsBy(s, Control(a), ControlDo(cfg, s, a))
  {
  }

  lemma RequeueTold<T>(cfg: Config, s: State<T>, a: RequeueStep)
    requires RequeueEnabled(cfg, s, a)
    ensures FlagsBy(s, Requeue(a), RequeueDo(cfg, s, a))
  {
  }

  lemma LifeEventTold<T>(cfg: Config, s: State<T>, a: LifeStep)
    requires LifeEnabled(cfg, s, a)
    ensures FlagsBy(s, Life(a), LifeDo(cfg, s, a))
  {
  }

  lemma LifeStepTold<T>(cfg: Config, s: State<T>, a: Action<T>)
    requires Enabled(cfg, s, a)
    ensures FlagsBy(s, a, Do(cfg, s, a))
  {
    hide SubmitDo, IntakeDo, ControlDo, RequeueDo, LifeDo;
    hide SubmitEnabled, IntakeEnabled, ControlEnabled, RequeueEnabled, LifeEnabled;
    match a
    case Submit(x) => SubmitTold(cfg, s, x);
    case Life(x) => LifeEventTold(cfg, s, x);
    case Intake(x) => IntakeTold(cfg, s, x);
    case Control(x) => ControlTold(cfg, s, x);
    case Flush(_) =>
    case Requeue(x) => RequeueTold(cfg, s, x);
  }

  /** A batcher whose drain is deferred leaves the backlog in the durable queue until the drain is started. */
  lemma DeferredDrain<T>(cfg: Config, backlog: seq<T>, acts: seq<Action<T>>, t: State<T>)
    requires Reaches(cfg, backlog, true, acts, t) && Life(StartDrain) !in acts
    ensures backlog <= t.queue
  {
    QueueUntouched(cfg, Initial(cfg, backlog, true), acts, t);
  }

  lemma {:induction false} QueueUntouched<T>(cfg: Config, s: State<T>, acts: seq<Action<T>>, t: State<T>)
    requires Run(cfg, s, acts, t) && Life(StartDrain) !in acts
    requires NotDraining(s)
    ensures s.queue <= t.queue
    decreases |acts|
  {
    if acts == [] {
    } else {
      assert acts[0] in acts;
      NoDrainStep(cfg, s, acts[0]);
      hide Do, Enabled, NotDraining;
      QueueUntouched(cfg, Do(cfg, s, acts[0]), acts[1..], t);
    }
  }

  /** What the worker resumes after a flush is no flush. */
  predicate Plain<T>(w: Worker<T>) {
    w.Flushing? || w.Requeueing? || w.Settling? ==> Simple(w.resume)
  }

  ghost predicate NotDraining<T>(s: State<T>) {
    !s.drainEnabled && !OnDrain(s.worker) && Plain(s.worker)
  }

  lemma NoDrainSubmit<T>(cfg: Config, s: State<T>, a: SubmitStep<T>)
    requires NotDraining(s) && SubmitEnabled(cfg, s, a)
    ensures NotDraining(SubmitDo(cfg, s, a)) && s.queue <= SubmitDo(cfg, s, a).queue
  {
  }

  lemma NoDrainIntake<T>(cfg: Config, s: State<T>, a: IntakeStep)
    requires NotDraining(s) && IntakeEnabled(s, a)
    ensures NotDraining(IntakeDo(cfg, s, a)) && s.queue <= IntakeDo(cfg, s, a).queue
  {
  }

  lemma NoDrainControl<T>(cfg: Config, s: State<T>, a: ControlStep)
    requires NotDraining(s) && ControlEnabled(s, a)
    ensures NotDraining(ControlDo(cfg, s, a)) && s.queue <= ControlDo(cfg, s, a).queue
  {
  }

  lemma NoDrainFlush<T>(s: State<T>, a: FlushStep)
    requires NotDraining(s) && s.worker.Flushing?
    ensures NotDraining(FlushDo(s, a)) && s.queue <= FlushDo(s, a).queue
  {
  }

  lemma NoDrainRequeue<T>(cfg: Config, s: State<T>, a: RequeueStep)
    requires NotDraining(s) && RequeueEnabled(cfg, s, a)
    ensures NotDraining(RequeueDo(cfg, s, a)) && s.queue <= RequeueDo(cfg, s, a).queue
  {
  }

  lemma NoDrainStep<T>(cfg: Config, s: State<T>, a: Action<T>)
    requires NotDraining(s) && Enabled(cfg, s, a) && a != Life(StartDrain)
    ensures NotDraining(Do(cfg, s, a)) && s.queue <= Do(cfg, s, a).queue
  {
    hide SubmitDo, IntakeDo, ControlDo, RequeueDo, FlushDo;
    hide SubmitEnabled, IntakeEnabled, ControlEnabled, RequeueEnabled;
    match a
    case Submit(x) => NoDrainSubmit(cfg, s, x);
    case Life(x) =>
    case Intake(x) => NoDrainIntake(cfg, s, x);
    case Control(x) => NoDrainControl(cfg, s, x);
    case Flush(x) => NoDrainFlush(s, x);
    case Requeue(x) => NoDrainRequeue(cfg, s, x);
  }

  /** Close, while no one else moves: it signals, the worker acts, it returns. */
  ghost predicate CloseRun<T(!new)>(cfg: Config, s: State<T>, acts: seq<Action<T>>, t: State<T>) {
    && ByWorker(acts)
    && Enabled(cfg, s, Life(CloseSignal))
    && exists u ::
         Run(cfg, Do(cfg, s, Life(CloseSignal)), acts, u)
         && Enabled(cfg, u, Life(CloseFinish)) && t == Do(cfg, u, Life(CloseFinish))
  }

  /** Close can return, with everything flushed that was accepted, except for the durable queue. */
  lemma CloseReturns<T(!new)>(cfg: Config, s: State<T>)
    requires Invariant(cfg, s) && !s.closed && Ready(s)
    ensures exists acts, t ::
              && CloseRun(cfg, s, acts, t) && t.finished && t.channel == [] && t.batch == []
              && t.accepted == s.accepted && t.dropped == s.dropped && t.refused == s.refused
  {
    var u := Do(cfg, s, Life(CloseSignal));
    Kept(cfg, s, Life(CloseSignal));
    hide Invariant, Run;
    var acts, v := WorkerRests(cfg, u);
    var t := Do(cfg, v, Life(CloseFinish));
    RestDelivers(cfg, u, v);
    assert CloseRun(cfg, s, acts, t);
  }
}
