/**
 The folder-index rebuild on top of the write batcher.  A rebuild clones an empty
 destination table, submits one row per file through the batcher, waits until its
 in-flight counter is zero, and swaps the destination in.  All goroutines are
 interleaved at their atomic loads and stores.
 */
module FolderIndex {
  import opened Wrappers
  import WB = WriteBatcher

  datatype Row = Row(
    fileID: int, folderID: int, imageIndex: int, imageCount: int,
    prevID: Option<int>, nextID: Option<int>, firstID: int, lastID: int,
    generation: int)

  /** One write; exactly one of the three kinds. */
  datatype Write = FileWrite(file: int) | CacheWrite(entry: int) | IndexWrite(row: Row)

  type Batcher = WB.State<Write>

  datatype Rebuild = Off | Cloned | Activated | Populating | Waited | Swapped

  /** Where the worker is inside one flush. */
  datatype Flow =
    | NoFlush
    | Checked                        // not dropped; no flag read yet
    | ActiveRead(wanted: bool)       // the skip classifier has read the active flag
    | ActiveReadAgain                // rows wanted, and the flag was set when read again
    | DestRead                       // the destination table existed
    | Ready(insert: Option<int>)     // will insert the rows of this generation, or none
    | Succeeded(rows: seq<Write>)    // committed or dropped; OnSuccess has not read the generation
    | Crediting(rows: seq<Write>, loaded: bool)  // one decrement for each row

  datatype System = System(
    b: Batcher,
    active: bool,
    generation: int,
    inflight: int,
    dest: Option<multiset<Row>>,
    live: multiset<Row>,
    rebuild: Rebuild,
    flow: Flow,
    announced: multiset<Row>,  // SubmitFolderIndex has incremented, Submit has not decided
    undoing: nat,              // Submit failed, the undo has not read the counter
    undoLoaded: nat,           // the undo has read a counter above zero
    // what has happened so far
    foreign: set<int>,         // generations of rows left by earlier processes
    issued: set<int>,          // generations issued by this process
    acceptedNow: multiset<Row>, // rows accepted under the current generation
    lost: multiset<Row>,       // rows that a failed re-enqueue gave up, under the current generation
    lostCount: nat,
    uncredited: int,           // rows flushed after their generation was over
    cleanStart: bool)          // nothing old could be inserted when the destination was cloned

  // ----- Weighing rows ------------------------------------------------------------

  datatype Kind = OfGenerations(gens: set<int>) | NotOfGenerations(gens: set<int>) | Exactly(row: Row)

  function Weigh(k: Kind, w: Write): nat {
    match w
    case IndexWrite(r) =>
      (match k
       case OfGenerations(gens) => if r.generation in gens then 1 else 0
       case NotOfGenerations(gens) => if r.generation in gens then 0 else 1
       case Exactly(x) => if r == x then 1 else 0)
    case _ => 0
  }

  /** How many writes of a kind a sequence holds. */
  function Sum(k: Kind, q: seq<Write>): nat {
    if q == [] then 0 else Sum(k, q[..|q| - 1]) + Weigh(k, q[|q| - 1])
  }

  /** How many writes of a kind are in the batcher. */
  function Held(k: Kind, b: Batcher): nat {
    Sum(k, b.channel) + Sum(k, b.batch) + Sum(k, WB.InHand(b.worker)) + Sum(k, b.queue)
  }

  /** The rows of a batch that carry generation `g`. */
  function RowsOf(q: seq<Write>, g: int): seq<Write> {
    if q == [] then []
    else
      var rest, w := RowsOf(q[..|q| - 1], g), q[|q| - 1];
      if w.IndexWrite? && w.row.generation == g then rest + [w] else rest
  }

  predicate HasIndex(q: seq<Write>) {
    exists w :: w in q && w.IndexWrite?
  }

  predicate IndexOnly(q: seq<Write>) {
    forall w :: w in q ==> w.IndexWrite?
  }

  /** The table after inserting the rows of `q`. */
  function Inserted(t: multiset<Row>, q: seq<Write>): multiset<Row> {
    if q == [] then t
    else
      var w := q[|q| - 1];
      if w.IndexWrite? then Inserted(t, q[..|q| - 1]) + multiset{w.row} else Inserted(t, q[..|q| - 1])
  }

  lemma SumBack(k: Kind, q: seq<Write>, w: Write)
    ensures Sum(k, q + [w]) == Sum(k, q) + Weigh(k, w)
  {
    assert (q + [w])[..|q|] == q;
  }

  lemma {:induction false} SumFront(k: Kind, q: seq<Write>)
    requires q != []
    ensures Sum(k, q) == Weigh(k, q[0]) + Sum(k, q[1..])
  {
    if |q| == 1 {
      assert q[1..] == [];
    } else {
      var q' := q[..|q| - 1];
      SumFront(k, q');
      assert q[1..][..|q| - 2] == q'[1..];
    }
  }

  lemma RowsOfNone(g: int, k: Kind)
    ensures RowsOf([], g) == [] && Sum(k, []) == 0
  {
  }

  /** The rows of a generation weigh what the kind says of that generation. */
  lemma {:induction false} RowsOfWeight(q: seq<Write>, g: int, k: Kind)
    ensures Sum(k, RowsOf(q, g)) <= Sum(k, q)
    ensures k.Exactly? ==> Sum(k, RowsOf(q, g)) == if k.row.generation == g then Sum(k, q) else 0
    ensures k.OfGenerations? ==> Sum(k, RowsOf(q, g)) == if g in k.gens then |RowsOf(q, g)| else 0
    ensures k.NotOfGenerations? ==> Sum(k, RowsOf(q, g)) == if g in k.gens then 0 else |RowsOf(q, g)|
  {
    hide Sum, RowsOf;
    RowsOfNone(g, k);
    if q == [] {
    } else {
      var q', w := q[..|q| - 1], q[|q| - 1];
      assert q == q' + [w];
      RowsOfWeight(q', g, k);
      RowsOfBack(q', w, g);
      SumBack(k, RowsOf(q', g), w);
      SumBack(k, q', w);
    }
  }

  lemma RowsOfBack(q: seq<Write>, w: Write, g: int)
    ensures RowsOf(q + [w], g)
         == if w.IndexWrite? && w.row.generation == g then RowsOf(q, g) + [w] else RowsOf(q, g)
  {
    assert (q + [w])[..|q|] == q;
  }

  lemma {:induction false} InsertedCount(t: multiset<Row>, q: seq<Write>, x: Row)
    ensures Inserted(t, q)[x] == t[x] + Sum(Exactly(x), q)
  {
    if q == [] {
    } else {
      InsertedCount(t, q[..|q| - 1], x);
    }
  }

  lemma {:induction false} NoIndexNoWeight(q: seq<Write>, k: Kind)
    requires !HasIndex(q)
    ensures Sum(k, q) == 0
  {
    if q == [] {
    } else {
      var q' := q[..|q| - 1];
      assert forall w :: w in q' ==> w in q;
      NoIndexNoWeight(q', k);
      assert q[|q| - 1] in q;
    }
  }

  /** Growing a set of generations by one that no row carries changes no weight. */
  lemma {:induction false} SumGrow(q: seq<Write>, gens: set<int>, g: int, known: set<int>)
    requires Sum(NotOfGenerations(known), q) == 0 && g !in known
    ensures Sum(OfGenerations(gens + {g}), q) == Sum(OfGenerations(gens), q)
    ensures Sum(OfGenerations({g}), q) == 0
    ensures Sum(NotOfGenerations(known + {g}), q) == 0
  {
    if q == [] {
    } else {
      SumGrow(q[..|q| - 1], gens, g, known);
    }
  }

  // ----- Steps --------------------------------------------------------------------

  /** Steps of SubmitFolderIndex. */
  datatype IndexStep =
    | Announce(row: Row)
    | Place(row: Row, overflow: bool)
    | Refused(row: Row, why: WB.Refusal)
    | UndoRead
    | UndoAdd

  /** Steps of the worker inside a flush. */
  datatype FlushStep =
    | DropBatch
    | CheckBatch
    | ReadActive
    | ReadActiveAgain
    | ReadDest
    | ReadGeneration
    | CommitBatch
    | FailBatch
    | StartCredit
    | CreditRead
    | CreditAdd
    | CreditEnd

  /** Steps of RebuildFileFolderIndex. */
  datatype RebuildStep = CloneEmpty | Activate | Bump(now: int) | WaitDone | Swap | Deactivate | Abort

  datatype Step =
    | Batch(a: WB.Action<Write>)
    | Index(i: IndexStep)
    | Flush(f: FlushStep)
    | Build(r: RebuildStep)

  /** The next generation: the clock, or the one after the last when the clock will not do. */
  function BumpGeneration(prev: int, now: int): int {
    if now == 0 || now == prev then prev + 1 else now
  }

  /** Steps of the batcher that neither place an index row nor belong to a flush. */
  predicate BatchEnabled(cfg: WB.Config, s: System, a: WB.Action<Write>) {
    && WB.Enabled(cfg, s.b, a)
    && match a
       case Submit(Send(w)) => !w.IndexWrite?
       case Submit(Store(w)) => !w.IndexWrite?
       case Submit(_) => true
       case Life(_) => true
       case Flush(_) => false
       case _ => s.flow.NoFlush?
  }

  function LostBy(s: System, a: WB.Action<Write>): seq<Write> {
    if a.Requeue? && a.requeue.GiveUp? then WB.InHand(s.b.worker) else []
  }

  function BatchDo(cfg: WB.Config, s: System, a: WB.Action<Write>): System
    requires BatchEnabled(cfg, s, a)
  {
    var gone := LostBy(s, a);
    s.(b := WB.Do(cfg, s.b, a),
       lost := Inserted(s.lost, RowsOf(gone, s.generation)),
       lostCount := s.lostCount + Sum(OfGenerations(s.issued), gone))
  }

  function SubmitOf(i: IndexStep): WB.SubmitStep<Write>
    requires i.Place? || i.Refused?
  {
    match i
    case Place(r, overflow) => if overflow then WB.Store(IndexWrite(r)) else WB.Send(IndexWrite(r))
    case Refused(r, why) => WB.Refuse(IndexWrite(r), why)
  }

  predicate IndexEnabled(cfg: WB.Config, s: System, i: IndexStep) {
    match i
    case Announce(r) => s.rebuild.Populating? && r.generation == s.generation
    case Place(r, _) => r in s.announced && WB.SubmitEnabled(cfg, s.b, SubmitOf(i))
    case Refused(r, _) => r in s.announced && WB.SubmitEnabled(cfg, s.b, SubmitOf(i))
    case UndoRead => s.undoing > 0
    case UndoAdd => s.undoLoaded > 0
  }

  function IndexDo(cfg: WB.Config, s: System, i: IndexStep): System
    requires IndexEnabled(cfg, s, i)
  {
    match i
    case Announce(r) => s.(inflight := s.inflight + 1, announced := s.announced + multiset{r})
    case Place(r, _) =>
      s.(b := WB.SubmitDo(cfg, s.b, SubmitOf(i)),
         announced := s.announced - multiset{r},
         acceptedNow := if r.generation == s.generation then s.acceptedNow + multiset{r} else s.acceptedNow)
    case Refused(r, _) =>
      s.(b := WB.SubmitDo(cfg, s.b, SubmitOf(i)), announced := s.announced - multiset{r}, undoing := s.undoing + 1)
    case UndoRead =>
      s.(undoing := s.undoing - 1, undoLoaded := if s.inflight > 0 then s.undoLoaded + 1 else s.undoLoaded)
    case UndoAdd => s.(undoLoaded := s.undoLoaded - 1, inflight := s.inflight - 1)
  }

  /** The worker is inside a flush, with its batch still in hand. */
  predicate MidFlush(s: System) {
    s.b.worker.Flushing? && WB.WorkerFree(s.b)
  }

  predicate FlushEnabled(s: System, f: FlushStep) {
    match f
    case DropBatch => s.flow.NoFlush? && MidFlush(s) && !s.active && IndexOnly(s.b.batch)
    case CheckBatch => s.flow.NoFlush? && MidFlush(s) && !(!s.active && IndexOnly(s.b.batch))
    case ReadActive => s.flow.Checked? && MidFlush(s)
    case ReadActiveAgain => s.flow.ActiveRead? && MidFlush(s)
    case ReadDest => s.flow.ActiveReadAgain? && MidFlush(s)
    case ReadGeneration => s.flow.DestRead? && MidFlush(s)
    case CommitBatch => s.flow.Ready? && MidFlush(s) && (ToInsert(s) != [] ==> s.dest.Some?)
    case FailBatch => BeforeCommit(s.flow) && MidFlush(s)
    case StartCredit => s.flow.Succeeded?
    case CreditRead => s.flow.Crediting? && !s.flow.loaded && s.flow.rows != []
    case CreditAdd => s.flow.Crediting? && s.flow.loaded && s.flow.rows != []
    case CreditEnd => s.flow.Crediting? && s.flow.rows == []
  }

  predicate BeforeCommit(f: Flow) {
    f.Checked? || f.ActiveRead? || f.ActiveReadAgain? || f.DestRead? || f.Ready?
  }

  function ToInsert(s: System): seq<Write>
    requires s.flow.Ready?
  {
    match s.flow.insert
    case None => []
    case Some(g) => RowsOf(s.b.batch, g)
  }

  function FlushDo(s: System, f: FlushStep): System
    requires FlushEnabled(s, f)
  {
    match f
    case DropBatch => s.(b := WB.FlushDo(s.b, WB.Dropped), flow := Succeeded(s.b.batch))
    case CheckBatch => s.(flow := Checked)
    case ReadActive =>
      s.(flow := ActiveRead(HasIndex(s.b.batch) && !(!s.active && IndexOnly(s.b.batch))))
    case ReadActiveAgain => s.(flow := if s.flow.wanted && s.active then ActiveReadAgain else Ready(None))
    case ReadDest => s.(flow := if s.dest.Some? then DestRead else Ready(None))
    case ReadGeneration => s.(flow := Ready(Some(s.generation)))
    case CommitBatch =>
      s.(b := WB.FlushDo(s.b, WB.Committed), flow := Succeeded(s.b.batch),
         dest := if s.dest.Some? then Some(Inserted(s.dest.value, ToInsert(s))) else None)
    case FailBatch => s.(b := WB.FlushDo(s.b, WB.Failed), flow := NoFlush)
    case StartCredit =>
      var credited := RowsOf(s.flow.rows, s.generation);
      s.(flow := Crediting(credited, false),
         uncredited := s.uncredited + Sum(OfGenerations(s.issued), s.flow.rows) - |credited|)
    case CreditRead =>
      if s.inflight > 0 then s.(flow := s.flow.(loaded := true))
      else s.(flow := Crediting(s.flow.rows[1..], false))
    case CreditAdd => s.(flow := Crediting(s.flow.rows[1..], false), inflight := s.inflight - 1)
    case CreditEnd => s.(flow := NoFlush)
  }

  /** No row of the generation in force is held or announced, and no flush is about to insert a row. */
  predicate NothingOld(s: System) {
    && Held(OfGenerations({s.generation}), s.b) == 0
    && (forall r <- s.announced :: r.generation != s.generation)
    && (s.flow.Ready? ==> ToInsert(s) == [])
  }

  predicate BuildEnabled(s: System, r: RebuildStep) {
    match r
    case CloneEmpty => s.rebuild.Off?
    case Activate => s.rebuild.Cloned?
    case Bump(now) => s.rebuild.Activated? && BumpGeneration(s.generation, now) !in Known(s) + {0}
    case WaitDone => s.rebuild.Populating? && s.inflight == 0
    case Swap => s.rebuild.Waited? && s.dest.Some?
    case Deactivate => s.rebuild.Swapped?
    case Abort => !s.rebuild.Off?
  }

  function BuildDo(s: System, r: RebuildStep): System
    requires BuildEnabled(s, r)
  {
    match r
    case CloneEmpty => s.(rebuild := Cloned, dest := Some(multiset{}), cleanStart := NothingOld(s))
    case Activate => s.(rebuild := Activated, active := true)
    case Bump(now) =>
      var g := BumpGeneration(s.generation, now);
      s.(rebuild := Populating, generation := g, issued := s.issued + {g},
         acceptedNow := multiset{}, lost := multiset{})
    case WaitDone => s.(rebuild := Waited)
    case Swap => s.(rebuild := Swapped, live := s.dest.value, dest := None)
    case Deactivate => s.(rebuild := Off, active := false)
    case Abort => s.(rebuild := Off, active := false)
  }

  predicate Enabled(cfg: WB.Config, s: System, a: Step) {
    match a
    case Batch(x) => BatchEnabled(cfg, s, x)
    case Index(x) => IndexEnabled(cfg, s, x)
    case Flush(x) => FlushEnabled(s, x)
    case Build(x) => BuildEnabled(s, x)
  }

  function Do(cfg: WB.Config, s: System, a: Step): System
    requires Enabled(cfg, s, a)
  {
    match a
    case Batch(x) => BatchDo(cfg, s, x)
    case Index(x) => IndexDo(cfg, s, x)
    case Flush(x) => FlushDo(s, x)
    case Build(x) => BuildDo(s, x)
  }

  // ----- Invariants ---------------------------------------------------------------

  /** Every generation that a row in the system may carry. */
  function Known(s: System): set<int> {
    s.foreign + s.issued
  }

  ghost predicate RowsWithin(m: multiset<Row>, gens: set<int>) {
    forall r <- m :: r.generation in gens
  }

  /** Every index row carries a generation that some process issued. */
  ghost predicate Traced(s: System) {
    && 0 !in Known(s)
    && s.generation in s.issued + {0}
    && s.foreign !! s.issued
    && Held(NotOfGenerations(Known(s)), s.b) == 0
    && RowsWithin(s.announced, s.issued)
    && (s.dest.Some? ==> RowsWithin(s.dest.value, Known(s)))
    && (s.flow.Succeeded? ==> Sum(NotOfGenerations(Known(s)), s.flow.rows) == 0)
    && (BeforeCommit(s.flow) ==> s.b.worker.Flushing?)
    && (s.flow.Succeeded? || s.flow.Crediting? ==> s.b.worker.Settling?)
    && (s.flow.Ready? && s.flow.insert.Some? ==> s.flow.insert.value in s.issued + {0})
  }

  /** Flushed rows that the counter still includes. */
  function FlowTokens(s: System): nat {
    match s.flow
    case Succeeded(rows) => Sum(OfGenerations(s.issued), rows)
    case Crediting(rows, _) => |rows|
    case _ => 0
  }

  /** What the in-flight counter counts, exactly. */
  ghost function Tokens(s: System): int {
    |s.announced| + s.undoing + s.undoLoaded + Held(OfGenerations(s.issued), s.b)
    + s.lostCount + FlowTokens(s) + s.uncredited
  }

  ghost predicate Balanced(s: System) {
    && s.inflight == Tokens(s)
    && |s.lost| <= s.lostCount && s.uncredited >= 0
  }

  predicate Collecting(s: System) {
    s.rebuild.Populating? || s.rebuild.Waited?
  }

  /** A row of the current generation is still in the batcher, given up, or in the destination. */
  ghost predicate Accounted(s: System, x: Row)
    requires s.dest.Some?
  {
    s.acceptedNow[x] == Held(Exactly(x), s.b) + s.lost[x] + s.dest.value[x]
  }

  /** The flush in progress will not insert rows of the current generation. */
  predicate WillSkip(s: System) {
    match s.flow
    case ActiveRead(wanted) => !wanted
    case Ready(None) => true
    case Ready(Some(g)) => g != s.generation
    case _ => false
  }

  /** A flush that is about to skip its rows has none of the current generation. */
  predicate SkipsNothing(s: System) {
    WillSkip(s) ==> Sum(OfGenerations({s.generation}), s.b.batch) == 0
  }

  ghost predicate Complete(s: System) {
    && (s.rebuild.Waited? || s.rebuild.Swapped? ==> s.inflight == 0)
    && (Collecting(s) ==>
          && s.active && s.dest.Some? && s.generation in s.issued
          && (forall x: Row | x.generation == s.generation :: Accounted(s, x))
          && SkipsNothing(s))
    && (s.rebuild.Cloned? || s.rebuild.Activated? ==> s.dest.Some?)
    && (s.rebuild.Activated? ==> s.active)
    && (s.rebuild.Swapped? ==>
          && s.generation in s.issued
          && forall x: Row | x.generation == s.generation :: s.live[x] == s.acceptedNow[x])
    && RowsWithin(s.acceptedNow, {s.generation})
  }

  /** A flush in progress inserts no row of a generation that is over. */
  predicate InsertsCurrent(s: System) {
    s.flow.Ready? && s.flow.insert.Some? && s.flow.insert.value != s.generation ==> ToInsert(s) == []
  }

  /** With nothing old when the destination was cloned, no older row can enter it. */
  ghost predicate Clean(s: System) {
    && (s.rebuild.Cloned? || s.rebuild.Activated? ==> NothingOld(s) && s.dest == Some(multiset{}))
    && (Collecting(s) ==> s.dest.Some? && InsertsCurrent(s) && RowsWithin(s.dest.value, {s.generation}))
    && (s.rebuild.Swapped? ==> RowsWithin(s.live, {s.generation}))
  }

  ghost predicate Invariant(cfg: WB.Config, s: System) {
    && WB.Bookkeeping(cfg, s.b)
    && Traced(s)
    && Balanced(s)
    && Complete(s)
    && (s.cleanStart ==> Clean(s))
  }

  // ----- How each action of the batcher moves the weights --------------------------

  /** Weight that enters with a Submit. */
  function Entering(k: Kind, a: WB.SubmitStep<Write>): nat {
    match a
    case Send(w) => Weigh(k, w)
    case Store(w) => Weigh(k, w)
    case _ => 0
  }

  lemma SubmitWeight(cfg: WB.Config, b: Batcher, a: WB.SubmitStep<Write>, k: Kind)
    requires WB.SubmitEnabled(cfg, b, a)
    ensures Held(k, WB.SubmitDo(cfg, b, a)) == Held(k, b) + Entering(k, a)
  {
    if a.Send? || a.Store? {
      SumBack(k, b.channel, a.item);
      SumBack(k, b.queue, a.item);
    }
  }

  lemma SumOne(k: Kind, w: Write)
    ensures Sum(k, [w]) == Weigh(k, w) && Sum(k, []) == 0
  {
    SumBack(k, [], w);
    assert [] + [w] == [w];
  }

  lemma IntakeWeight(cfg: WB.Config, b: Batcher, a: WB.IntakeStep, k: Kind)
    requires WB.BatchShape(cfg, b) && WB.IntakeEnabled(b, a)
    ensures Held(k, WB.IntakeDo(cfg, b, a)) == Held(k, b)
  {
    hide Sum, Weigh;
    match a
    case Receive(_) =>
      SumFront(k, b.channel);
      SumBack(k, b.batch, b.channel[0]);
    case Dequeue =>
      SumFront(k, b.queue);
      SumOne(k, b.queue[0]);
    case CountDequeued(_) =>
      SumBack(k, b.batch, b.worker.item);
      SumOne(k, b.worker.item);
  }

  lemma ControlWeight(cfg: WB.Config, b: Batcher, a: WB.ControlStep, k: Kind)
    requires WB.BatchShape(cfg, b) && WB.ControlEnabled(b, a)
    ensures Held(k, WB.ControlDo(cfg, b, a)) == Held(k, b)
  {
    hide Sum, Weigh;
    assert WB.InHand(WB.ControlDo(cfg, b, a).worker) == WB.InHand(b.worker);
  }

  lemma FlushWeight(b: Batcher, a: WB.FlushStep, k: Kind)
    requires b.worker.Flushing?
    ensures Held(k, WB.FlushDo(b, a)) == Held(k, b) - (if a.Failed? then 0 else Sum(k, b.batch))
  {
    hide Sum, Weigh;
    RowsOfNone(0, k);
  }

  lemma RequeueWeight(cfg: WB.Config, b: Batcher, a: WB.RequeueStep, k: Kind)
    requires WB.RequeueEnabled(cfg, b, a)
    requires WB.BatchShape(cfg, b)
    ensures Held(k, WB.RequeueDo(cfg, b, a))
         == Held(k, b) - (if a.GiveUp? then Sum(k, WB.InHand(b.worker)) else 0)
  {
    hide Weigh, Sum;
    var rest := b.worker.rest;
    RowsOfNone(0, k);
    match a
    case Resend =>
      SumFront(k, rest);
      SumBack(k, b.channel, rest[0]);
    case MeetFull =>
    case Restore =>
      SumFront(k, rest);
      SumBack(k, b.queue, rest[0]);
    case GiveUp(_) =>
    case Done =>
  }

  /** Outside flushes and submits of index rows, a weight changes only by what a failed re-enqueue gives up. */
  lemma BatchWeight(cfg: WB.Config, s: System, a: WB.Action<Write>, k: Kind)
    requires WB.Bookkeeping(cfg, s.b) && BatchEnabled(cfg, s, a)
    ensures Held(k, BatchDo(cfg, s, a).b) == Held(k, s.b) - Sum(k, LostBy(s, a))
  {
    hide Held, Sum;
    assert WB.BatchShape(cfg, s.b);
    SumOne(k, FileWrite(0));
    match a
    case Submit(x) => SubmitWeight(cfg, s.b, x, k);
    case Life(x) => LifeWeight(cfg, s.b, x, k);
    case Intake(x) => IntakeWeight(cfg, s.b, x, k);
    case Control(x) => ControlWeight(cfg, s.b, x, k);
    case Requeue(x) => RequeueWeight(cfg, s.b, x, k);
  }

  lemma LifeWeight(cfg: WB.Config, b: Batcher, a: WB.LifeStep, k: Kind)
    requires WB.LifeEnabled(cfg, b, a)
    ensures Held(k, WB.LifeDo(cfg, b, a)) == Held(k, b)
  {
  }

  // ----- Comparing weights --------------------------------------------------------

  ghost predicate Below(k: Kind, l: Kind) {
    forall w :: Weigh(k, w) <= Weigh(l, w)
  }

  lemma {:induction false} SumBelow(k: Kind, l: Kind, q: seq<Write>)
    requires Below(k, l)
    ensures Sum(k, q) <= Sum(l, q)
  {
    if q == [] {
    } else {
      SumBelow(k, l, q[..|q| - 1]);
      assert Weigh(k, q[|q| - 1]) <= Weigh(l, q[|q| - 1]);
    }
  }

  lemma HeldBelow(k: Kind, l: Kind, b: Batcher)
    requires Below(k, l)
    ensures Held(k, b) <= Held(l, b)
  {
    SumBelow(k, l, b.channel);
    SumBelow(k, l, b.batch);
    SumBelow(k, l, WB.InHand(b.worker));
    SumBelow(k, l, b.queue);
  }

  lemma InHandWeight(k: Kind, b: Batcher)
    ensures Sum(k, WB.InHand(b.worker)) <= Held(k, b) && Sum(k, b.batch) <= Held(k, b)
  {
  }

  /** One row belongs to its generation, and a generation to any set that has it. */
  lemma KindsBelow(x: Row, gens: set<int>)
    requires x.generation in gens
    ensures Below(Exactly(x), OfGenerations({x.generation}))
    ensures Below(OfGenerations({x.generation}), OfGenerations(gens))
  {
  }

  lemma {:induction false} InsertedSize(t: multiset<Row>, q: seq<Write>, g: int)
    ensures |Inserted(t, RowsOf(q, g))| == |t| + |RowsOf(q, g)|
    ensures forall r <- Inserted(t, RowsOf(q, g)) :: r in t || r.generation == g
  {
    if q == [] {
    } else {
      var q', w := q[..|q| - 1], q[|q| - 1];
      assert q == q' + [w];
      InsertedSize(t, q', g);
      RowsOfBack(q', w, g);
      if w.IndexWrite? && w.row.generation == g {
        InsertedBack(t, RowsOf(q', g), w);
      }
    }
  }

  lemma InsertedBack(t: multiset<Row>, q: seq<Write>, w: Write)
    ensures Inserted(t, q + [w]) == if w.IndexWrite? then Inserted(t, q) + multiset{w.row} else Inserted(t, q)
  {
    assert (q + [w])[..|q|] == q;
  }

  /** Rows under the current generation all carry a generation that this process issued. */
  lemma CurrentRows(s: System, q: seq<Write>)
    requires s.generation in s.issued + {0} && 0 !in Known(s)
    requires Sum(NotOfGenerations(Known(s)), q) == 0
    ensures |RowsOf(q, s.generation)| <= Sum(OfGenerations(s.issued), q)
    ensures RowsOf(q, s.generation) != [] ==> s.generation in s.issued
    ensures forall k :: Sum(k, RowsOf(q, s.generation)) <= Sum(k, q)
  {
    RowsOfWeight(q, s.generation, OfGenerations(s.issued));
    RowsOfWeight(q, s.generation, NotOfGenerations(Known(s)));
    forall k ensures Sum(k, RowsOf(q, s.generation)) <= Sum(k, q) {
      RowsOfWeight(q, s.generation, k);
    }
  }

  /** Nothing that the counter counts is negative. */
  lemma Covers(s: System)
    requires Balanced(s)
    ensures |s.announced| + s.undoing + s.undoLoaded + Held(OfGenerations(s.issued), s.b)
            + s.lostCount + FlowTokens(s) <= s.inflight
  {
  }

  // ----- Steps of the batcher -----------------------------------------------------

  lemma BatchTraced(cfg: WB.Config, s: System, a: WB.Action<Write>)
    requires Invariant(cfg, s) && BatchEnabled(cfg, s, a)
    ensures Traced(BatchDo(cfg, s, a))
  {
    hide Held, Sum, Inserted, RowsOf, Balanced, Complete, Clean, WB.Do, WB.Bookkeeping, BatchEnabled;
    BatchWeight(cfg, s, a, NotOfGenerations(Known(s)));
    if !s.flow.NoFlush? {
      BatchKeepsBatch(cfg, s, a);
    }
  }

  lemma BatchBalanced(cfg: WB.Config, s: System, a: WB.Action<Write>)
    requires Invariant(cfg, s) && BatchEnabled(cfg, s, a)
    ensures Balanced(BatchDo(cfg, s, a))
  {
    hide Held, Sum, Inserted, RowsOf, Complete, Clean, BatchEnabled, WB.Do, WB.Bookkeeping;
    var gone := LostBy(s, a);
    BatchWeight(cfg, s, a, OfGenerations(s.issued));
    LostTraced(s, a);
    CurrentRows(s, gone);
    InsertedSize(s.lost, gone, s.generation);
  }

  lemma LostTraced(s: System, a: WB.Action<Write>)
    requires Traced(s)
    ensures Sum(NotOfGenerations(Known(s)), LostBy(s, a)) == 0
  {
    hide Sum;
    SumOne(NotOfGenerations(Known(s)), FileWrite(0));
    assert Sum(NotOfGenerations(Known(s)), WB.InHand(s.b.worker)) <= Held(NotOfGenerations(Known(s)), s.b);
  }

  lemma BatchAccounted(cfg: WB.Config, s: System, a: WB.Action<Write>, x: Row)
    requires WB.Bookkeeping(cfg, s.b) && BatchEnabled(cfg, s, a)
    requires s.dest.Some? && x.generation == s.generation && Accounted(s, x)
    ensures Accounted(BatchDo(cfg, s, a), x)
  {
    hide Held, Sum, Inserted, RowsOf, BatchEnabled, WB.Do, WB.Bookkeeping;
    var gone := LostBy(s, a);
    BatchWeight(cfg, s, a, Exactly(x));
    RowsOfWeight(gone, s.generation, Exactly(x));
    InsertedCount(s.lost, RowsOf(gone, s.generation), x);
  }

  lemma BatchKeepsBatch(cfg: WB.Config, s: System, a: WB.Action<Write>)
    requires BatchEnabled(cfg, s, a) && !s.flow.NoFlush?
    ensures WB.Do(cfg, s.b, a).batch == s.b.batch
    ensures WB.Do(cfg, s.b, a).worker == s.b.worker
  {
    match a
    case Submit(x) => SubmitKeepsBatch(cfg, s.b, x);
    case Life(_) =>
  }

  lemma SubmitKeepsBatch(cfg: WB.Config, b: Batcher, a: WB.SubmitStep<Write>)
    requires WB.SubmitEnabled(cfg, b, a)
    ensures WB.SubmitDo(cfg, b, a).batch == b.batch && WB.SubmitDo(cfg, b, a).worker == b.worker
  {
  }

  lemma BatchComplete(cfg: WB.Config, s: System, a: WB.Action<Write>)
    requires Invariant(cfg, s) && BatchEnabled(cfg, s, a)
    ensures Complete(BatchDo(cfg, s, a))
  {
    hide Held, Sum, Inserted, RowsOf, Accounted, Traced, Balanced, Clean, WB.Do, WB.Bookkeeping, BatchEnabled;
    var t := BatchDo(cfg, s, a);
    if Collecting(s) {
      forall x: Row | x.generation == s.generation ensures Accounted(t, x) {
        BatchAccounted(cfg, s, a, x);
      }
      if WillSkip(s) {
        BatchKeepsBatch(cfg, s, a);
      }
    }
  }

  lemma BatchClean(cfg: WB.Config, s: System, a: WB.Action<Write>)
    requires Invariant(cfg, s) && BatchEnabled(cfg, s, a) && Clean(s)
    ensures Clean(BatchDo(cfg, s, a))
  {
    hide Held, Sum, Inserted, RowsOf, Traced, Balanced, Complete, WB.Do, WB.Bookkeeping, BatchEnabled;
    BatchWeight(cfg, s, a, OfGenerations({s.generation}));
    if s.flow.Ready? {
      BatchKeepsBatch(cfg, s, a);
    }
  }

  lemma BatchKept(cfg: WB.Config, s: System, a: WB.Action<Write>)
    requires Invariant(cfg, s) && BatchEnabled(cfg, s, a)
    ensures Invariant(cfg, BatchDo(cfg, s, a))
  {
    hide Traced, Balanced, Complete, Clean, WB.Bookkeeping, WB.Do, WB.Enabled;
    BatchTraced(cfg, s, a);
    BatchBalanced(cfg, s, a);
    BatchComplete(cfg, s, a);
    if s.cleanStart {
      BatchClean(cfg, s, a);
    }
    WB.KeptBooks(cfg, s.b, a);
  }

  // ----- Steps of SubmitFolderIndex -----------------------------------------------

  /** A row enters the batcher when it is placed. */
  lemma IndexWeight(cfg: WB.Config, s: System, i: IndexStep, k: Kind)
    requires IndexEnabled(cfg, s, i)
    ensures Held(k, IndexDo(cfg, s, i).b) == Held(k, s.b) + (if i.Place? then Weigh(k, IndexWrite(i.row)) else 0)
  {
    hide Held, Sum, Weigh, WB.SubmitDo, WB.SubmitEnabled;
    if i.Place? || i.Refused? {
      SubmitWeight(cfg, s.b, SubmitOf(i), k);
    }
  }

  /** The worker and its batch stay as they are. */
  lemma IndexKeepsBatch(cfg: WB.Config, s: System, i: IndexStep)
    requires IndexEnabled(cfg, s, i)
    ensures IndexDo(cfg, s, i).b.batch == s.b.batch && IndexDo(cfg, s, i).b.worker == s.b.worker
  {
    hide WB.SubmitDo, WB.SubmitEnabled;
    if i.Place? || i.Refused? {
      SubmitKeepsBatch(cfg, s.b, SubmitOf(i));
    }
  }

  lemma IndexFrame(cfg: WB.Config, s: System, i: IndexStep)
    requires IndexEnabled(cfg, s, i)
    ensures var t := IndexDo(cfg, s, i);
            && t.rebuild == s.rebuild && t.generation == s.generation && t.issued == s.issued && t.foreign == s.foreign
            && t.flow == s.flow
            && t.dest == s.dest && t.live == s.live && t.active == s.active
  {
    hide WB.SubmitEnabled, WB.SubmitDo, Sum, Held;
  }

  lemma IndexAccepts(cfg: WB.Config, s: System, i: IndexStep)
    requires IndexEnabled(cfg, s, i) && RowsWithin(s.acceptedNow, {s.generation})
    ensures RowsWithin(IndexDo(cfg, s, i).acceptedNow, {s.generation})
  {
    hide WB.SubmitEnabled, WB.SubmitDo, Sum, Held;
  }

  /** Only rows of the current generation are announced, and only announced rows are placed. */
  lemma IndexRows(cfg: WB.Config, s: System, i: IndexStep)
    requires Traced(s) && Complete(s) && IndexEnabled(cfg, s, i)
    ensures RowsWithin(IndexDo(cfg, s, i).announced, s.issued)
    ensures i.Place? ==> Weigh(NotOfGenerations(Known(s)), IndexWrite(i.row)) == 0
  {
    hide Held, Sum, Accounted, SkipsNothing, WB.SubmitDo, WB.SubmitEnabled;
  }

  lemma IndexTraced(cfg: WB.Config, s: System, i: IndexStep)
    requires Traced(s) && Complete(s) && IndexEnabled(cfg, s, i)
    ensures Traced(IndexDo(cfg, s, i))
  {
    hide Held, Sum, Complete, RowsWithin, Weigh, IndexDo, IndexEnabled;
    IndexFrame(cfg, s, i);
    IndexRows(cfg, s, i);
    IndexWeight(cfg, s, i, NotOfGenerations(Known(s)));
    IndexKeepsBatch(cfg, s, i);
  }

  lemma PlaceBalanced(cfg: WB.Config, s: System, i: IndexStep)
    requires Traced(s) && Balanced(s) && IndexEnabled(cfg, s, i) && i.Place?
    ensures Balanced(IndexDo(cfg, s, i))
  {
    hide Held, Sum, Known, Traced, Weigh, WB.SubmitDo, WB.SubmitEnabled;
    IndexWeight(cfg, s, i, OfGenerations(s.issued));
    AnnouncedWeight(s, i.row);
  }

  lemma RefusedBalanced(cfg: WB.Config, s: System, i: IndexStep)
    requires Balanced(s) && IndexEnabled(cfg, s, i) && i.Refused?
    ensures Balanced(IndexDo(cfg, s, i))
  {
    hide Held, Sum, Known, Weigh, WB.SubmitDo, WB.SubmitEnabled;
    IndexWeight(cfg, s, i, OfGenerations(s.issued));
  }

  lemma IndexBalanced(cfg: WB.Config, s: System, i: IndexStep)
    requires Traced(s) && Balanced(s) && IndexEnabled(cfg, s, i)
    ensures Balanced(IndexDo(cfg, s, i))
  {
    hide Held, Sum, Known, Traced, Weigh, WB.SubmitDo, WB.SubmitEnabled;
    if i.Place? {
      PlaceBalanced(cfg, s, i);
    } else if i.Refused? {
      RefusedBalanced(cfg, s, i);
    } else {
      Covers(s);
    }
  }

  /** An announced row is counted once it is in the batcher. */
  lemma AnnouncedWeight(s: System, r: Row)
    requires Traced(s) && r in s.announced
    ensures Weigh(OfGenerations(s.issued), IndexWrite(r)) == 1
  {
    hide Held;
  }

  lemma IndexAccounted(cfg: WB.Config, s: System, i: IndexStep, x: Row)
    requires IndexEnabled(cfg, s, i)
    requires s.dest.Some? && x.generation == s.generation && Accounted(s, x)
    ensures Accounted(IndexDo(cfg, s, i), x)
  {
    hide Held, Sum, WB.SubmitDo, WB.SubmitEnabled;
    IndexWeight(cfg, s, i, Exactly(x));
  }

  /** With the counter at zero only a new row can be announced. */
  lemma IndexNeedsTokens(cfg: WB.Config, s: System, i: IndexStep)
    requires Balanced(s) && IndexEnabled(cfg, s, i)
    ensures s.rebuild.Populating? || s.inflight > 0
  {
    hide Held, Sum, FlowTokens, WB.SubmitEnabled;
    Covers(s);
  }

  lemma IndexComplete(cfg: WB.Config, s: System, i: IndexStep)
    requires Balanced(s) && Complete(s) && IndexEnabled(cfg, s, i)
    ensures Complete(IndexDo(cfg, s, i))
  {
    hide Held, Sum, RowsWithin, Accounted, Balanced, IndexEnabled, IndexDo;
    var t := IndexDo(cfg, s, i);
    IndexNeedsTokens(cfg, s, i);
    IndexFrame(cfg, s, i);
    IndexAccepts(cfg, s, i);
    IndexKeepsBatch(cfg, s, i);
    if Collecting(s) {
      forall x: Row | x.generation == s.generation ensures Accounted(t, x) {
        IndexAccounted(cfg, s, i, x);
      }
    }
  }

  lemma IndexClean(cfg: WB.Config, s: System, i: IndexStep)
    requires IndexEnabled(cfg, s, i) && Clean(s)
    ensures Clean(IndexDo(cfg, s, i))
  {
    hide Held, Sum, NothingOld, InsertsCurrent, RowsWithin, IndexEnabled, IndexDo;
    var t := IndexDo(cfg, s, i);
    assert t.rebuild == s.rebuild && t.generation == s.generation && t.dest == s.dest && t.live == s.live by {
      IndexFrame(cfg, s, i);
    }
    if NothingOld(s) && !s.rebuild.Populating? {
      IndexNothingOld(cfg, s, i);
    }
    if InsertsCurrent(s) {
      IndexInsertsCurrent(cfg, s, i);
    }
  }

  lemma IndexNothingOld(cfg: WB.Config, s: System, i: IndexStep)
    requires IndexEnabled(cfg, s, i) && NothingOld(s) && !s.rebuild.Populating?
    ensures NothingOld(IndexDo(cfg, s, i))
  {
    hide Held, Sum, RowsOf, WB.SubmitEnabled, WB.SubmitDo;
    IndexWeight(cfg, s, i, OfGenerations({s.generation}));
    IndexKeepsBatch(cfg, s, i);
  }

  lemma IndexInsertsCurrent(cfg: WB.Config, s: System, i: IndexStep)
    requires IndexEnabled(cfg, s, i) && InsertsCurrent(s)
    ensures InsertsCurrent(IndexDo(cfg, s, i))
  {
    hide RowsOf, WB.SubmitEnabled, WB.SubmitDo;
    IndexKeepsBatch(cfg, s, i);
  }

  lemma IndexBooks(cfg: WB.Config, s: System, i: IndexStep)
    requires WB.Bookkeeping(cfg, s.b) && IndexEnabled(cfg, s, i)
    ensures WB.Bookkeeping(cfg, IndexDo(cfg, s, i).b)
  {
    hide WB.Bookkeeping, WB.SubmitDo, WB.SubmitEnabled;
    if i.Place? || i.Refused? {
      WB.BooksBySubmit(cfg, s.b, SubmitOf(i));
    }
  }

  lemma IndexKept(cfg: WB.Config, s: System, i: IndexStep)
    requires Invariant(cfg, s) && IndexEnabled(cfg, s, i)
    ensures Invariant(cfg, IndexDo(cfg, s, i))
  {
    hide Traced, Balanced, Complete, Clean, WB.Bookkeeping, WB.SubmitDo, WB.SubmitEnabled, IndexEnabled;
    IndexTraced(cfg, s, i);
    IndexBalanced(cfg, s, i);
    IndexComplete(cfg, s, i);
    if s.cleanStart {
      IndexClean(cfg, s, i);
    }
    IndexBooks(cfg, s, i);
  }

  // ----- Steps of a flush ---------------------------------------------------------

  /** A flush takes its batch out of the batcher, or puts it back when it fails. */
  lemma FlushTakes(s: System, f: FlushStep, k: Kind)
    requires FlushEnabled(s, f)
    ensures Held(k, FlushDo(s, f).b)
         == Held(k, s.b) - (if f.DropBatch? || f.CommitBatch? then Sum(k, s.b.batch) else 0)
  {
    hide Held, Sum, RowsOf, Inserted;
    match f
    case DropBatch => FlushWeight(s.b, WB.Dropped, k);
    case CommitBatch => FlushWeight(s.b, WB.Committed, k);
    case FailBatch => FlushWeight(s.b, WB.Failed, k);
    case _ =>
  }

  lemma InsertedNone(t: multiset<Row>)
    ensures Inserted(t, []) == t
  {
  }

  /** A row that a flush inserts was in the batcher, under a generation that this process issued. */
  lemma InsertedFrom(s: System, t: multiset<Row>)
    requires Traced(s) && s.flow.Ready?
    ensures forall r <- Inserted(t, ToInsert(s)) ::
              r in t || (r.generation in s.issued && Held(OfGenerations({r.generation}), s.b) > 0)
  {
    hide Held, Sum, RowsOf, Inserted;
    InsertedNone(t);
    if s.flow.insert.Some? && ToInsert(s) != [] {
      var g := s.flow.insert.value;
      InsertedSize(t, s.b.batch, g);
      RowsOfWeight(s.b.batch, g, NotOfGenerations(Known(s)));
      RowsOfWeight(s.b.batch, g, OfGenerations({g}));
      InHandWeight(NotOfGenerations(Known(s)), s.b);
      InHandWeight(OfGenerations({g}), s.b);
    }
  }

  lemma InsertedWithin(s: System, t: multiset<Row>, gens: set<int>)
    requires Traced(s) && s.flow.Ready? && RowsWithin(t, gens)
    requires forall g <- s.issued - gens :: Held(OfGenerations({g}), s.b) == 0
    ensures RowsWithin(Inserted(t, ToInsert(s)), gens)
  {
    hide Held, Inserted, ToInsert, Traced;
    InsertedFrom(s, t);
  }

  /** What a flush leaves alone. */
  lemma FlushFrame(s: System, f: FlushStep)
    requires FlushEnabled(s, f)
    ensures var t := FlushDo(s, f);
            && t.generation == s.generation && t.issued == s.issued && t.foreign == s.foreign
            && t.announced == s.announced
            && t.dest == if f.CommitBatch? && s.dest.Some? then Some(Inserted(s.dest.value, ToInsert(s))) else s.dest
  {
    hide RowsOf, Inserted, HasIndex, IndexOnly, ToInsert, Sum, WB.FlushDo;
  }

  /** Where the flush is and where the worker is. */
  lemma FlushFlow(s: System, f: FlushStep)
    requires Traced(s) && FlushEnabled(s, f)
    ensures var t := FlushDo(s, f);
            && (BeforeCommit(t.flow) ==> t.b.worker.Flushing?)
            && (t.flow.Succeeded? || t.flow.Crediting? ==> t.b.worker.Settling?)
            && (t.flow.Ready? && t.flow.insert.Some? ==> t.flow.insert.value in s.issued + {0})
  {
    hide Held, RowsOf, Inserted, HasIndex, IndexOnly, ToInsert, RowsWithin, Sum, Known;
  }

  /** The rows of a flush that is over were in its batch. */
  lemma FlushRows(s: System, f: FlushStep)
    requires Traced(s) && FlushEnabled(s, f) && FlushDo(s, f).flow.Succeeded?
    ensures Sum(NotOfGenerations(Known(s)), FlushDo(s, f).flow.rows) == 0
  {
    hide Held, RowsOf, Inserted, HasIndex, IndexOnly, ToInsert, RowsWithin, Sum, WB.FlushDo, Known;
    InHandWeight(NotOfGenerations(Known(s)), s.b);
  }

  lemma FlushTraced(s: System, f: FlushStep)
    requires Traced(s) && FlushEnabled(s, f)
    ensures Traced(FlushDo(s, f))
  {
    hide Held, Sum, Inserted, ToInsert, RowsWithin, FlushDo, FlushEnabled;
    FlushFrame(s, f);
    FlushFlow(s, f);
    if FlushDo(s, f).flow.Succeeded? {
      FlushRows(s, f);
    }
    FlushTakes(s, f, NotOfGenerations(Known(s)));
    if f.CommitBatch? && s.dest.Some? {
      CommitTraced(s, f);
    }
  }

  lemma CommitTraced(s: System, f: FlushStep)
    requires Traced(s) && FlushEnabled(s, f) && f.CommitBatch? && s.dest.Some?
    ensures RowsWithin(Inserted(s.dest.value, ToInsert(s)), Known(s))
  {
    hide Held, Inserted, ToInsert, RowsWithin;
    InsertedWithin(s, s.dest.value, Known(s));
  }

  lemma FlushBalanced(s: System, f: FlushStep)
    requires Traced(s) && Balanced(s) && FlushEnabled(s, f)
    ensures Balanced(FlushDo(s, f))
  {
    hide Held, Sum, RowsOf, Inserted, HasIndex, IndexOnly, ToInsert, RowsWithin, WB.FlushDo;
    FlushTakes(s, f, OfGenerations(s.issued));
    match f
    case StartCredit => CurrentRows(s, s.flow.rows);
    case CreditRead => Covers(s);
    case _ =>
  }

  /** While the rebuild is active a flush moves the rows of the current generation into the destination. */
  lemma FlushMoves(s: System, f: FlushStep, x: Row)
    requires Traced(s) && s.active && s.dest.Some? && SkipsNothing(s) && FlushEnabled(s, f)
    requires x.generation == s.generation
    ensures var t := FlushDo(s, f);
            t.dest.Some? && Held(Exactly(x), t.b) + t.dest.value[x] == Held(Exactly(x), s.b) + s.dest.value[x]
  {
    hide Held, Sum, RowsOf, Inserted, HasIndex, Traced;
    FlushTakes(s, f, Exactly(x));
    if f.CommitBatch? {
      InsertedCount(s.dest.value, ToInsert(s), x);
      KindsBelow(x, {x.generation});
      SumBelow(Exactly(x), OfGenerations({x.generation}), s.b.batch);
      SumOne(Exactly(x), FileWrite(0));
      if s.flow.insert.Some? {
        RowsOfWeight(s.b.batch, s.flow.insert.value, Exactly(x));
      }
    }
  }

  lemma FlushAccounted(s: System, f: FlushStep, x: Row)
    requires Traced(s) && Complete(s) && Collecting(s) && FlushEnabled(s, f) && x.generation == s.generation
    ensures FlushDo(s, f).dest.Some? && Accounted(FlushDo(s, f), x)
  {
    hide Held, Sum, RowsOf, Inserted, HasIndex, Traced;
    assert Accounted(s, x);
    FlushMoves(s, f, x);
  }

  /** When the skip classifier wants no rows although the rebuild is active, the batch has none. */
  lemma FlushSkips(s: System, f: FlushStep)
    requires s.active && s.dest.Some? && SkipsNothing(s) && FlushEnabled(s, f)
    ensures SkipsNothing(FlushDo(s, f))
  {
    hide Held, Sum, RowsOf, Inserted, HasIndex;
    SumOne(OfGenerations({s.generation}), FileWrite(0));
    if f.ReadActive? && !HasIndex(s.b.batch) {
      NoIndexNoWeight(s.b.batch, OfGenerations({s.generation}));
    }
  }

  lemma FlushComplete(s: System, f: FlushStep)
    requires Traced(s) && Balanced(s) && Complete(s) && FlushEnabled(s, f)
    ensures Complete(FlushDo(s, f))
  {
    hide Held, Sum, RowsOf, Inserted, Accounted, HasIndex, IndexOnly, Traced, Balanced;
    var t := FlushDo(s, f);
    Covers(s);
    if Collecting(s) {
      forall x: Row | x.generation == s.generation ensures t.dest.Some? && Accounted(t, x) {
        FlushAccounted(s, f, x);
      }
      FlushSkips(s, f);
    }
  }

  /** No row of a batch carries a generation of which nothing is held. */
  lemma NoneHeld(s: System, g: int)
    requires Held(OfGenerations({g}), s.b) == 0
    ensures RowsOf(s.b.batch, g) == []
  {
    hide Held, Sum;
    InHandWeight(OfGenerations({g}), s.b);
    RowsOfWeight(s.b.batch, g, OfGenerations({g}));
  }

  lemma FlushClean(s: System, f: FlushStep)
    requires Clean(s) && FlushEnabled(s, f)
    ensures Clean(FlushDo(s, f))
  {
    hide Held, Sum, Inserted, NothingOld, InsertsCurrent, ToInsert, HasIndex, IndexOnly, RowsWithin, WB.FlushDo;
    if f.CommitBatch? && s.dest.Some? {
      CommitClean(s);
    }
    if NothingOld(s) {
      FlushNothingOld(s, f);
    }
    if InsertsCurrent(s) {
      FlushInsertsCurrent(s, f);
    }
  }

  lemma FlushNothingOld(s: System, f: FlushStep)
    requires NothingOld(s) && FlushEnabled(s, f)
    ensures NothingOld(FlushDo(s, f))
  {
    hide Held, Sum, RowsOf, Inserted, HasIndex, IndexOnly, WB.FlushDo;
    FlushTakes(s, f, OfGenerations({s.generation}));
    NoneHeld(s, s.generation);
  }

  lemma FlushInsertsCurrent(s: System, f: FlushStep)
    requires InsertsCurrent(s) && FlushEnabled(s, f)
    ensures InsertsCurrent(FlushDo(s, f))
  {
    hide Held, Sum, RowsOf, Inserted, HasIndex, IndexOnly, WB.FlushDo;
  }

  lemma CommitClean(s: System)
    requires Clean(s) && s.flow.Ready? && s.dest.Some?
    ensures s.rebuild.Cloned? || s.rebuild.Activated? ==> Inserted(s.dest.value, ToInsert(s)) == multiset{}
    ensures Collecting(s) ==> RowsWithin(Inserted(s.dest.value, ToInsert(s)), {s.generation})
  {
    hide Held, Sum, Inserted, RowsOf;
    InsertedNone(s.dest.value);
    if s.flow.insert.Some? {
      InsertedSize(s.dest.value, s.b.batch, s.flow.insert.value);
    }
  }

  lemma FlushBooks(cfg: WB.Config, s: System, f: FlushStep)
    requires WB.Bookkeeping(cfg, s.b) && FlushEnabled(s, f)
    ensures WB.Bookkeeping(cfg, FlushDo(s, f).b)
  {
    hide WB.Bookkeeping, WB.FlushDo;
    match f
    case DropBatch => WB.BooksByFlush(cfg, s.b, WB.Dropped);
    case CommitBatch => WB.BooksByFlush(cfg, s.b, WB.Committed);
    case FailBatch => WB.BooksByFlush(cfg, s.b, WB.Failed);
    case _ =>
  }

  lemma FlushKept(cfg: WB.Config, s: System, f: FlushStep)
    requires Invariant(cfg, s) && FlushEnabled(s, f)
    ensures Invariant(cfg, FlushDo(s, f))
  {
    hide Traced, Balanced, Complete, Clean, WB.Bookkeeping, FlushEnabled;
    FlushTraced(s, f);
    FlushBalanced(s, f);
    FlushComplete(s, f);
    if s.cleanStart {
      FlushClean(s, f);
    }
    FlushBooks(cfg, s, f);
  }

  // ----- Steps of the rebuild -----------------------------------------------------

  /** A generation that nothing carries yet joins the issued ones without changing any weight. */
  lemma HeldGrow(b: Batcher, gens: set<int>, g: int, known: set<int>)
    requires Held(NotOfGenerations(known), b) == 0 && g !in known
    ensures Held(OfGenerations(gens + {g}), b) == Held(OfGenerations(gens), b)
    ensures Held(OfGenerations({g}), b) == 0
    ensures Held(NotOfGenerations(known + {g}), b) == 0
  {
    SumGrow(b.channel, gens, g, known);
    SumGrow(b.batch, gens, g, known);
    SumGrow(WB.InHand(b.worker), gens, g, known);
    SumGrow(b.queue, gens, g, known);
  }

  lemma BuildTraced(s: System, r: RebuildStep)
    requires Traced(s) && BuildEnabled(s, r)
    ensures Traced(BuildDo(s, r))
  {
    hide Held, Sum;
    if r.Bump? {
      var g := BumpGeneration(s.generation, r.now);
      HeldGrow(s.b, s.issued, g, Known(s));
      assert Known(BuildDo(s, r)) == Known(s) + {g};
      if s.flow.Succeeded? {
        SumGrow(s.flow.rows, s.issued, g, Known(s));
      }
    }
  }

  lemma BuildBalanced(s: System, r: RebuildStep)
    requires Traced(s) && Balanced(s) && BuildEnabled(s, r)
    ensures Balanced(BuildDo(s, r))
  {
    hide Held, Sum;
    if r.Bump? {
      var g := BumpGeneration(s.generation, r.now);
      HeldGrow(s.b, s.issued, g, Known(s));
      if s.flow.Succeeded? {
        SumGrow(s.flow.rows, s.issued, g, Known(s));
      }
    }
  }

  /** Under a fresh generation nothing is accepted, held, lost or inserted yet. */
  lemma BumpComplete(s: System, now: int)
    requires Traced(s) && Complete(s) && BuildEnabled(s, Bump(now))
    ensures Complete(BuildDo(s, Bump(now)))
  {
    hide Held, Sum;
    var t := BuildDo(s, Bump(now));
    var g := t.generation;
    HeldGrow(s.b, s.issued, g, Known(s));
    InHandWeight(OfGenerations({g}), s.b);
    forall x: Row | x.generation == g ensures t.dest.Some? && Accounted(t, x) {
      KindsBelow(x, {g});
      HeldBelow(Exactly(x), OfGenerations({g}), s.b);
      assert x !in s.dest.value;
    }
  }

  /** At the swap the destination holds the rows that were accepted under the generation. */
  lemma SwapComplete(s: System)
    requires Balanced(s) && Complete(s) && BuildEnabled(s, Swap)
    ensures Complete(BuildDo(s, Swap))
  {
    hide Held, Sum, RowsWithin;
    var t := BuildDo(s, Swap);
    Covers(s);
    forall x: Row | x.generation == s.generation ensures t.live[x] == t.acceptedNow[x] {
      assert Accounted(s, x);
      KindsBelow(x, s.issued);
      HeldBelow(Exactly(x), OfGenerations({x.generation}), s.b);
      HeldBelow(OfGenerations({x.generation}), OfGenerations(s.issued), s.b);
    }
  }

  lemma BuildComplete(s: System, r: RebuildStep)
    requires Traced(s) && Balanced(s) && Complete(s) && BuildEnabled(s, r)
    ensures Complete(BuildDo(s, r))
  {
    hide Held, Sum, RowsWithin, Traced, Balanced;
    match r
    case Bump(now) => BumpComplete(s, now);
    case Swap => SwapComplete(s);
    case WaitDone => forall x: Row | x.generation == s.generation ensures Accounted(BuildDo(s, r), x) {
      assert Accounted(s, x);
    }
    case _ =>
  }

  lemma BuildClean(s: System, r: RebuildStep)
    requires BuildEnabled(s, r) && (s.cleanStart ==> Clean(s))
    ensures BuildDo(s, r).cleanStart ==> Clean(BuildDo(s, r))
  {
    hide Held, Sum, RowsOf;
  }

  /** A counter at zero leaves nothing old. */
  lemma ZeroMeansNothingOld(s: System)
    requires Traced(s) && Balanced(s) && s.inflight == 0
    ensures NothingOld(s)
  {
    hide Held, Sum, RowsOf;
    Covers(s);
    NoneOf(s, s.generation);
    if s.flow.Ready? && s.flow.insert.Some? {
      NoneOf(s, s.flow.insert.value);
      NoneHeld(s, s.flow.insert.value);
    }
  }

  lemma NoneOf(s: System, g: int)
    requires Traced(s) && Held(OfGenerations(s.issued), s.b) == 0 && g in s.issued + {0}
    ensures Held(OfGenerations({g}), s.b) == 0
  {
    hide Held, Sum;
    if g in s.issued {
      HeldBelow(OfGenerations({g}), OfGenerations(s.issued), s.b);
    } else {
      HeldBelow(OfGenerations({g}), NotOfGenerations(Known(s)), s.b);
    }
  }

  lemma BuildKept(cfg: WB.Config, s: System, r: RebuildStep)
    requires Invariant(cfg, s) && BuildEnabled(s, r)
    ensures Invariant(cfg, BuildDo(s, r))
  {
    hide Traced, Balanced, Complete, Clean, WB.Bookkeeping;
    BuildTraced(s, r);
    BuildBalanced(s, r);
    BuildComplete(s, r);
    BuildClean(s, r);
  }

  /** Every step of every goroutine keeps the invariant. */
  lemma Kept(cfg: WB.Config, s: System, a: Step)
    requires Invariant(cfg, s) && Enabled(cfg, s, a)
    ensures Invariant(cfg, Do(cfg, s, a))
  {
    hide Invariant;
    match a
    case Batch(x) => BatchKept(cfg, s, x);
    case Index(x) => IndexKept(cfg, s, x);
    case Flush(x) => FlushKept(cfg, s, x);
    case Build(x) => BuildKept(cfg, s, x);
  }
}
