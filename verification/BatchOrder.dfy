/**
 The order in which the write batcher handles items, over its whole history: what came
 in, what its worker took, and the batches it flushed.
 */
module BatchOrder {
  import opened WriteBatcher

  datatype Place = IntoChannel | IntoQueue | Nowhere

  /** An item of a Submit that did not return before it left a trace; `retry` when a failed flush submits it again. */
  datatype Arrival<T> = Arrival(item: T, retry: bool, place: Place)

  datatype Taken<T> = Taken(item: T, fromQueue: bool)

  datatype Flushed<T> = Flushed(batch: seq<T>, outcome: FlushStep)

  /**
   Everything so far, each in the order in which it happened; `pass` counts what the worker took from
   the durable queue since it last left its select.
   */
  datatype History<T> = History(came: seq<Arrival<T>>, took: seq<Taken<T>>, flushes: seq<Flushed<T>>, pass: nat)

  /** The rest of a failed batch, when a Submit of it is refused. */
  function Lost<T>(rest: seq<T>): seq<Arrival<T>> {
    if rest == [] then [] else Lost(rest[..|rest| - 1]) + [Arrival(rest[|rest| - 1], true, Nowhere)]
  }

  function SubmitNoted<T>(a: SubmitStep<T>, h: History<T>): History<T> {
    match a
    case Send(x) => h.(came := h.came + [Arrival(x, false, IntoChannel)])
    case Store(x) => h.(came := h.came + [Arrival(x, false, IntoQueue)])
    case _ => h
  }

  function IntakeNoted<T>(s: State<T>, a: IntakeStep, h: History<T>): History<T>
    requires IntakeEnabled(s, a)
  {
    match a
    case Receive(_) =>
      h.(took := h.took + [Taken(s.channel[0], false)], pass := if s.worker.Selecting? then 0 else h.pass)
    case Dequeue => h.(took := h.took + [Taken(s.queue[0], true)], pass := h.pass + 1)
    case CountDequeued(_) => h
  }

  function RequeueNoted<T>(cfg: Config, s: State<T>, a: RequeueStep, h: History<T>): History<T>
    requires RequeueEnabled(cfg, s, a)
  {
    match a
    case Resend => h.(came := h.came + [Arrival(s.worker.rest[0], true, IntoChannel)])
    case Restore => h.(came := h.came + [Arrival(s.worker.rest[0], true, IntoQueue)])
    case GiveUp(_) => h.(came := h.came + Lost(s.worker.rest))
    case _ => h
  }

  /** What an action adds to the history. */
  function Noted<T>(cfg: Config, s: State<T>, a: Action<T>, h: History<T>): History<T>
    requires Enabled(cfg, s, a)
  {
    match a
    case Submit(x) => SubmitNoted(x, h)
    case Life(_) => h
    case Intake(x) => IntakeNoted(s, x, h)
    case Control(_) => h.(pass := if s.worker.Selecting? then 0 else h.pass)
    case Flush(outcome) => h.(flushes := h.flushes + [Flushed(s.batch, outcome)])
    case Requeue(x) => RequeueNoted(cfg, s, x, h)
  }

  /** The history of a run. */
  ghost function Recorded<T>(cfg: Config, s: State<T>, h: History<T>, acts: seq<Action<T>>): History<T>
    decreases |acts|
  {
    if acts == [] || !Enabled(cfg, s, acts[0]) then h
    else Recorded(cfg, Do(cfg, s, acts[0]), Noted(cfg, s, acts[0], h), acts[1..])
  }

  // ----- Parts of a history -------------------------------------------------------

  /** What went to a place, in order. */
  function Into<T>(came: seq<Arrival<T>>, place: Place): seq<T> {
    if came == [] then []
    else
      var last := came[|came| - 1];
      Into(came[..|came| - 1], place) + if last.place == place then [last.item] else []
  }

  /** What callers submitted, or what failed flushes submitted again, in order. */
  function By<T>(came: seq<Arrival<T>>, retry: bool): seq<T> {
    if came == [] then []
    else
      var last := came[|came| - 1];
      By(came[..|came| - 1], retry) + if last.retry == retry then [last.item] else []
  }

  /** What the worker took from the channel, or from the durable queue, in order. */
  function From<T>(took: seq<Taken<T>>, queue: bool): seq<T> {
    if took == [] then []
    else
      var last := took[|took| - 1];
      From(took[..|took| - 1], queue) + if last.fromQueue == queue then [last.item] else []
  }

  function Items<T>(took: seq<Taken<T>>): seq<T> {
    seq(|took|, i requires 0 <= i < |took| => took[i].item)
  }

  /** The batches flushed, one after the other. */
  function Joined<T>(flushes: seq<Flushed<T>>): seq<T> {
    if flushes == [] then [] else Joined(flushes[..|flushes| - 1]) + flushes[|flushes| - 1].batch
  }

  function WithOutcome<T>(flushes: seq<Flushed<T>>, outcome: FlushStep): seq<T> {
    if flushes == [] then []
    else
      var last := flushes[|flushes| - 1];
      WithOutcome(flushes[..|flushes| - 1], outcome) + if last.outcome == outcome then last.batch else []
  }

  lemma CameBack<T>(came: seq<Arrival<T>>, x: Arrival<T>)
    ensures Into(came + [x], x.place) == Into(came, x.place) + [x.item]
    ensures forall place | place != x.place :: Into(came + [x], place) == Into(came, place)
    ensures By(came + [x], x.retry) == By(came, x.retry) + [x.item]
    ensures By(came + [x], !x.retry) == By(came, !x.retry)
  {
    assert (came + [x])[..|came|] == came;
  }

  lemma FromBack<T>(took: seq<Taken<T>>, x: Taken<T>, queue: bool)
    ensures From(took + [x], queue) == From(took, queue) + if x.fromQueue == queue then [x.item] else []
    ensures Items(took + [x]) == Items(took) + [x.item]
  {
    assert (took + [x])[..|took|] == took;
  }

  lemma FlushedBack<T>(flushes: seq<Flushed<T>>, x: Flushed<T>, outcome: FlushStep)
    ensures Joined(flushes + [x]) == Joined(flushes) + x.batch
    ensures WithOutcome(flushes + [x], outcome)
         == WithOutcome(flushes, outcome) + if x.outcome == outcome then x.batch else []
  {
    assert (flushes + [x])[..|flushes|] == flushes;
  }

  lemma Regroup<T>(a: seq<T>, b: seq<T>, c: seq<T>)
    ensures a + (b + c) == (a + b) + c
  {
  }

  lemma {:induction false} LostBack<T>(came: seq<Arrival<T>>, rest: seq<T>)
    ensures Into(came + Lost(rest), Nowhere) == Into(came, Nowhere) + rest
    ensures forall place | place != Nowhere :: Into(came + Lost(rest), place) == Into(came, place)
    ensures By(came + Lost(rest), true) == By(came, true) + rest
    ensures By(came + Lost(rest), false) == By(came, false)
    ensures forall x :: x in Lost(rest) ==> x.retry
  {
    if rest == [] {
      assert came + Lost(rest) == came;
    } else {
      hide Into, By;
      var init, x := rest[..|rest| - 1], rest[|rest| - 1];
      LostBack(came, init);
      CameBack(came + Lost(init), Arrival(x, true, Nowhere));
      Regroup(came, Lost(init), [Arrival(x, true, Nowhere)]);
      Regroup(Into(came, Nowhere), init, [x]);
      Regroup(By(came, true), init, [x]);
      assert rest == init + [x];
    }
  }

  // ----- The order ----------------------------------------------------------------

  function Held<T>(w: Worker<T>): seq<T> {
    if w.Holding? then [w.item] else []
  }

  function Retrying<T>(w: Worker<T>): seq<T> {
    if w.Requeueing? then w.rest else []
  }

  /** What entered the channel left it in that order, and the rest is still there in that order. */
  ghost predicate ChannelInOrder<T>(s: State<T>, h: History<T>) {
    Into(h.came, IntoChannel) == From(h.took, false) + s.channel
  }

  /** The same of the durable queue, which starts with the backlog. */
  ghost predicate QueueInOrder<T>(s: State<T>, h: History<T>) {
    s.backlog + Into(h.came, IntoQueue) == From(h.took, true) + s.queue
  }

  /** Batch after batch, the worker flushes items in the order in which it took them. */
  ghost predicate BatchesInOrder<T>(s: State<T>, h: History<T>) {
    && Items(h.took) == Joined(h.flushes) + s.batch + Held(s.worker)
    && (s.worker.Holding? ==> h.took != [] && h.took[|h.took| - 1] == Taken(s.worker.item, true))
  }

  /** The items of failed batches are submitted again in the order of those batches. */
  ghost predicate RetriesInOrder<T>(s: State<T>, h: History<T>) {
    && WithOutcome(h.flushes, Failed) == By(h.came, true) + Retrying(s.worker)
    && (forall x :: x in h.came && x.place == Nowhere ==> x.retry)
  }

  ghost predicate Ordered<T>(s: State<T>, h: History<T>) {
    ChannelInOrder(s, h) && QueueInOrder(s, h) && BatchesInOrder(s, h) && RetriesInOrder(s, h)
  }

  /** The history tells the same as the multisets that the state keeps. */
  ghost predicate Tallied<T>(s: State<T>, h: History<T>) {
    && s.accepted == multiset(By(h.came, false))
    && s.refused == multiset(Into(h.came, Nowhere))
    && s.committed == multiset(WithOutcome(h.flushes, Committed))
    && s.dropped == multiset(WithOutcome(h.flushes, Dropped))
  }

  /** The worker remembers whether it took anything from the durable queue in this drain. */
  predicate Remembers<T>(w: Worker<T>, pass: nat) {
    match w
    case Draining(drained) => drained == (pass > 0)
    case Holding(_) => pass > 0
    case Flushing(resume) => resume.Draining? ==> resume.drained == (pass > 0)
    case Requeueing(_, _, resume) => resume.Draining? ==> resume.drained == (pass > 0)
    case Settling(_, resume) => resume.Draining? ==> resume.drained == (pass > 0)
    case _ => true
  }

  ghost predicate Sized<T>(cfg: Config, h: History<T>) {
    forall f :: f in h.flushes ==> 1 <= |f.batch| <= cfg.maxBatchSize
  }

  lemma OrderedBySubmit<T>(cfg: Config, s: State<T>, h: History<T>, a: SubmitStep<T>)
    requires Ordered(s, h) && SubmitEnabled(cfg, s, a)
    ensures Ordered(SubmitDo(cfg, s, a), SubmitNoted(a, h))
  {
    hide Into, By, From, Items, Joined, WithOutcome;
    if a.Send? || a.Store? {
      CameBack(h.came, Arrival(a.item, false, if a.Send? then IntoChannel else IntoQueue));
      Regroup(s.backlog, Into(h.came, IntoQueue), [a.item]);
      Regroup(From(h.took, true), s.queue, [a.item]);
      Regroup(From(h.took, false), s.channel, [a.item]);
    }
  }

  lemma OrderedByIntake<T>(cfg: Config, s: State<T>, h: History<T>, a: IntakeStep)
    requires Ordered(s, h) && IntakeEnabled(s, a)
    ensures Ordered(IntakeDo(cfg, s, a), IntakeNoted(s, a, h))
  {
    hide Into, By, From, Items, Joined, WithOutcome;
    if a.Receive? {
      FromBack(h.took, Taken(s.channel[0], false), true);
      FromBack(h.took, Taken(s.channel[0], false), false);
    } else if a.Dequeue? {
      FromBack(h.took, Taken(s.queue[0], true), true);
      FromBack(h.took, Taken(s.queue[0], true), false);
    }
  }

  lemma OrderedByControl<T>(cfg: Config, s: State<T>, h: History<T>, a: ControlStep)
    requires Ordered(s, h) && BatchShape(cfg, s) && ControlEnabled(s, a) && WorkerFree(s)
    ensures Ordered(ControlDo(cfg, s, a), Noted(cfg, s, Control(a), h))
  {
    hide Into, By, From, Items, Joined, WithOutcome;
  }

  lemma OrderedByFlush<T>(s: State<T>, h: History<T>, a: FlushStep)
    requires Ordered(s, h) && s.worker.Flushing?
    ensures Ordered(FlushDo(s, a), h.(flushes := h.flushes + [Flushed(s.batch, a)]))
  {
    hide Into, By, From, Items, Joined, WithOutcome;
    FlushedBack(h.flushes, Flushed(s.batch, a), Failed);
  }

  lemma OrderedByRequeue<T>(cfg: Config, s: State<T>, h: History<T>, a: RequeueStep)
    requires Ordered(s, h) && RequeueEnabled(cfg, s, a)
    ensures Ordered(RequeueDo(cfg, s, a), RequeueNoted(cfg, s, a, h))
  {
    hide Into, By, From, Items, Joined, WithOutcome;
    if a.Resend? || a.Restore? {
      var x := s.worker.rest[0];
      CameBack(h.came, Arrival(x, true, if a.Resend? then IntoChannel else IntoQueue));
      Regroup(s.backlog, Into(h.came, IntoQueue), [x]);
      Regroup(From(h.took, true), s.queue, [x]);
      Regroup(From(h.took, false), s.channel, [x]);
      Regroup(By(h.came, true), [x], s.worker.rest[1..]);
    } else if a.GiveUp? {
      LostBack(h.came, s.worker.rest);
    }
  }

  lemma OrderedByAction<T>(cfg: Config, s: State<T>, h: History<T>, a: Action<T>)
    requires Ordered(s, h) && BatchShape(cfg, s) && Enabled(cfg, s, a)
    ensures Ordered(Do(cfg, s, a), Noted(cfg, s, a, h))
  {
    hide Ordered, BatchShape;
    match a
    case Submit(x) => OrderedBySubmit(cfg, s, h, x);
    case Life(x) => OrderedByLife(cfg, s, h, x);
    case Intake(x) => OrderedByIntake(cfg, s, h, x);
    case Control(x) => OrderedByControl(cfg, s, h, x);
    case Flush(x) => OrderedByFlush(s, h, x);
    case Requeue(x) => OrderedByRequeue(cfg, s, h, x);
  }

  lemma OrderedByLife<T>(cfg: Config, s: State<T>, h: History<T>, a: LifeStep)
    requires Ordered(s, h) && LifeEnabled(cfg, s, a)
    ensures Ordered(LifeDo(cfg, s, a), h)
  {
  }

  lemma TalliedByAction<T>(cfg: Config, s: State<T>, h: History<T>, a: Action<T>)
    requires Tallied(s, h) && Enabled(cfg, s, a)
    ensures Tallied(Do(cfg, s, a), Noted(cfg, s, a, h))
  {
    hide Tallied;
    match a
    case Submit(x) => TalliedBySubmit(cfg, s, h, x);
    case Life(x) => TalliedByLife(cfg, s, h, x);
    case Intake(x) => TalliedByIntake(cfg, s, h, x);
    case Control(x) => TalliedByControl(cfg, s, h, x);
    case Flush(x) => TalliedByFlush(s, h, x);
    case Requeue(x) => TalliedByRequeue(cfg, s, h, x);
  }

  lemma TalliedBySubmit<T>(cfg: Config, s: State<T>, h: History<T>, a: SubmitStep<T>)
    requires Tallied(s, h) && SubmitEnabled(cfg, s, a)
    ensures Tallied(SubmitDo(cfg, s, a), SubmitNoted(a, h))
  {
    hide Into, By, WithOutcome;
    if a.Send? || a.Store? {
      CameBack(h.came, Arrival(a.item, false, if a.Send? then IntoChannel else IntoQueue));
    }
  }

  lemma TalliedByLife<T>(cfg: Config, s: State<T>, h: History<T>, a: LifeStep)
    requires Tallied(s, h) && LifeEnabled(cfg, s, a)
    ensures Tallied(LifeDo(cfg, s, a), h)
  {
    hide Into, By, WithOutcome;
  }

  lemma TalliedByIntake<T>(cfg: Config, s: State<T>, h: History<T>, a: IntakeStep)
    requires Tallied(s, h) && IntakeEnabled(s, a)
    ensures Tallied(IntakeDo(cfg, s, a), IntakeNoted(s, a, h))
  {
    hide Into, By, WithOutcome;
  }

  lemma TalliedByControl<T>(cfg: Config, s: State<T>, h: History<T>, a: ControlStep)
    requires Tallied(s, h) && ControlEnabled(s, a) && WorkerFree(s)
    ensures Tallied(ControlDo(cfg, s, a), Noted(cfg, s, Control(a), h))
  {
    hide Into, By, WithOutcome;
  }

  lemma TalliedByFlush<T>(s: State<T>, h: History<T>, a: FlushStep)
    requires Tallied(s, h) && s.worker.Flushing?
    ensures Tallied(FlushDo(s, a), h.(flushes := h.flushes + [Flushed(s.batch, a)]))
  {
    hide Into, By, WithOutcome;
    FlushedBack(h.flushes, Flushed(s.batch, a), Committed);
    FlushedBack(h.flushes, Flushed(s.batch, a), Dropped);
  }

  lemma TalliedByRequeue<T>(cfg: Config, s: State<T>, h: History<T>, a: RequeueStep)
    requires Tallied(s, h) && RequeueEnabled(cfg, s, a)
    ensures Tallied(RequeueDo(cfg, s, a), RequeueNoted(cfg, s, a, h))
  {
    hide Into, By, WithOutcome;
    if a.Resend? || a.Restore? {
      CameBack(h.came, Arrival(s.worker.rest[0], true, if a.Resend? then IntoChannel else IntoQueue));
    } else if a.GiveUp? {
      LostBack(h.came, s.worker.rest);
    }
  }

  lemma SizedByAction<T>(cfg: Config, s: State<T>, h: History<T>, a: Action<T>)
    requires Sized(cfg, h) && BatchShape(cfg, s) && Enabled(cfg, s, a)
    ensures Sized(cfg, Noted(cfg, s, a, h))
  {
  }

  lemma RemembersByIntake<T>(cfg: Config, s: State<T>, h: History<T>, a: IntakeStep)
    requires Remembers(s.worker, h.pass) && IntakeEnabled(s, a)
    ensures Remembers(IntakeDo(cfg, s, a).worker, IntakeNoted(s, a, h).pass)
  {
  }

  lemma RemembersByControl<T>(cfg: Config, s: State<T>, h: History<T>, a: ControlStep)
    requires Remembers(s.worker, h.pass) && BatchShape(cfg, s) && ControlEnabled(s, a)
    ensures Remembers(ControlDo(cfg, s, a).worker, if s.worker.Selecting? then 0 else h.pass)
  {
  }

  lemma RemembersByRequeue<T>(cfg: Config, s: State<T>, h: History<T>, a: RequeueStep)
    requires Remembers(s.worker, h.pass) && RequeueEnabled(cfg, s, a)
    ensures Remembers(RequeueDo(cfg, s, a).worker, h.pass)
  {
  }

  lemma RemembersByAction<T>(cfg: Config, s: State<T>, h: History<T>, a: Action<T>)
    requires Remembers(s.worker, h.pass) && BatchShape(cfg, s) && Enabled(cfg, s, a)
    ensures Remembers(Do(cfg, s, a).worker, Noted(cfg, s, a, h).pass)
  {
    hide BatchShape, ControlEnabled, IntakeEnabled, ControlDo, IntakeDo, RequeueDo, IntakeNoted;
    match a
    case Intake(x) => RemembersByIntake(cfg, s, h, x);
    case Control(x) => RemembersByControl(cfg, s, h, x);
    case Requeue(x) => RemembersByRequeue(cfg, s, h, x);
    case Submit(_) =>
    case Life(_) =>
    case Flush(_) =>
  }

  // ----- Runs ---------------------------------------------------------------------

  lemma {:induction false} RecordedKeeps<T(!new)>(cfg: Config, s: State<T>, h: History<T>, acts: seq<Action<T>>,
                                                  t: State<T>)
    requires Run(cfg, s, acts, t) && Bookkeeping(cfg, s)
    requires Ordered(s, h) && Tallied(s, h) && Sized(cfg, h) && Remembers(s.worker, h.pass)
    ensures Ordered(t, Recorded(cfg, s, h, acts)) && Tallied(t, Recorded(cfg, s, h, acts))
    ensures Sized(cfg, Recorded(cfg, s, h, acts)) && Remembers(t.worker, Recorded(cfg, s, h, acts).pass)
    decreases |acts|
  {
    hide Ordered, Tallied, Sized, Remembers, Bookkeeping, Do, Enabled, Noted;
    if acts == [] {
    } else {
      assert BatchShape(cfg, s) by { Shaped(cfg, s); }
      hide BatchShape;
      OrderedByAction(cfg, s, h, acts[0]);
      TalliedByAction(cfg, s, h, acts[0]);
      SizedByAction(cfg, s, h, acts[0]);
      RemembersByAction(cfg, s, h, acts[0]);
      KeptBooks(cfg, s, acts[0]);
      RecordedKeeps(cfg, Do(cfg, s, acts[0]), Noted(cfg, s, acts[0], h), acts[1..], t);
    }
  }

  lemma Shaped<T>(cfg: Config, s: State<T>)
    requires Bookkeeping(cfg, s)
    ensures BatchShape(cfg, s)
  {
  }

  /** The history of a new batcher over `backlog`. */
  ghost function Past<T>(cfg: Config, backlog: seq<T>, deferDrain: bool, acts: seq<Action<T>>): History<T>
    requires !cfg.hasQueue ==> backlog == []
  {
    Recorded(cfg, Initial(cfg, backlog, deferDrain), History([], [], [], 0), acts)
  }

  /**
   In every run the channel and the durable queue are left in the order in which they
   were entered; the batches flushed, then the batch, are what the worker took, in that
   order; and a failed batch is submitted again in its order.  No batch flushed was
   empty or above the maximum size, and the worker knows whether its drain took anything.
   */
  lemma EveryRunInOrder<T(!new)>(cfg: Config, backlog: seq<T>, deferDrain: bool, acts: seq<Action<T>>, t: State<T>)
    requires Reaches(cfg, backlog, deferDrain, acts, t)
    ensures t.backlog == backlog
    ensures Ordered(t, Past(cfg, backlog, deferDrain, acts))
    ensures Tallied(t, Past(cfg, backlog, deferDrain, acts))
    ensures Sized(cfg, Past(cfg, backlog, deferDrain, acts))
    ensures Remembers(t.worker, Past(cfg, backlog, deferDrain, acts).pass)
  {
    var s := Initial(cfg, backlog, deferDrain);
    InitialHolds(cfg, backlog, deferDrain);
    BacklogKept(cfg, s, acts, t);
    RecordedKeeps(cfg, s, History([], [], [], 0), acts, t);
  }

  /**
   Without overflow and without a failed flush, the items accepted are, in order, the
   items of the batches flushed, then those of the batch, then those in the channel.
   */
  lemma FlushedAsSubmitted<T(!new)>(cfg: Config, backlog: seq<T>, deferDrain: bool, acts: seq<Action<T>>, t: State<T>)
    requires Reaches(cfg, backlog, deferDrain, acts, t)
    requires backlog == [] && Into(Past(cfg, backlog, deferDrain, acts).came, IntoQueue) == []
    requires WithOutcome(Past(cfg, backlog, deferDrain, acts).flushes, Failed) == []
    ensures By(Past(cfg, backlog, deferDrain, acts).came, false)
         == Joined(Past(cfg, backlog, deferDrain, acts).flushes) + t.batch + t.channel
  {
    hide Reaches, Past, Ordered;
    EveryRunInOrder(cfg, backlog, deferDrain, acts, t);
    ChannelAlone(t, Past(cfg, backlog, deferDrain, acts));
  }

  lemma ChannelAlone<T>(s: State<T>, h: History<T>)
    requires Ordered(s, h) && s.backlog == [] && Into(h.came, IntoQueue) == [] && WithOutcome(h.flushes, Failed) == []
    ensures By(h.came, false) == Joined(h.flushes) + s.batch + s.channel
  {
    hide WithOutcome, Joined;
    OnlyChannel(h.came);
    OnlyFromChannel(h.took);
    assert !s.worker.Holding?;
    assert Items(h.took) == Joined(h.flushes) + s.batch;
  }

  lemma {:induction false} OnlyChannel<T>(came: seq<Arrival<T>>)
    requires Into(came, IntoQueue) == [] && By(came, true) == []
    requires forall x :: x in came && x.place == Nowhere ==> x.retry
    ensures By(came, false) == Into(came, IntoChannel)
  {
    if came == [] {
    } else {
      OnlyChannel(came[..|came| - 1]);
      assert came[|came| - 1] in came;
    }
  }

  lemma {:induction false} OnlyFromChannel<T>(took: seq<Taken<T>>)
    requires From(took, true) == []
    ensures Items(took) == From(took, false)
  {
    if took == [] {
    } else {
      OnlyFromChannel(took[..|took| - 1]);
      assert Items(took) == Items(took[..|took| - 1]) + [took[|took| - 1].item];
    }
  }
}
