/**
 Whole runs of the folder-index rebuild: what the in-flight counter and the generations
 guarantee when the destination is swapped in, and the window in which they do not.
 */
module FolderIndexRuns {
  import opened Wrappers
  import opened FolderIndex

  // ----- Runs ---------------------------------------------------------------------

  ghost predicate Run(cfg: WB.Config, s: System, acts: seq<Step>, t: System)
    decreases |acts|
  {
    if acts == [] then t == s
    else Enabled(cfg, s, acts[0]) && Run(cfg, Do(cfg, s, acts[0]), acts[1..], t)
  }

  /** A process that starts over the rows and writes that earlier processes left on disk. */
  function Start(cfg: WB.Config, backlog: seq<Write>, foreign: set<int>, live: multiset<Row>, deferDrain: bool): System
    requires !cfg.hasQueue ==> backlog == []
  {
    System(WB.Initial(cfg, backlog, deferDrain), false, 0, 0, None, live, Off, NoFlush,
           multiset{}, 0, 0, foreign, {}, multiset{}, multiset{}, 0, 0, false)
  }

  ghost predicate Reaches(cfg: WB.Config, backlog: seq<Write>, foreign: set<int>, live: multiset<Row>,
                          deferDrain: bool, acts: seq<Step>, t: System)
  {
    && WB.ValidConfig(cfg)
    && (!cfg.hasQueue ==> backlog == [])
    && 0 !in foreign
    && (forall w <- backlog | w.IndexWrite? :: w.row.generation in foreign)
    && Run(cfg, Start(cfg, backlog, foreign, live, deferDrain), acts, t)
  }

  lemma {:induction false} BacklogTraced(q: seq<Write>, foreign: set<int>)
    requires forall w <- q | w.IndexWrite? :: w.row.generation in foreign
    ensures Sum(NotOfGenerations(foreign), q) == 0 && Sum(OfGenerations({}), q) == 0
  {
    if q == [] {
    } else {
      assert forall w <- q[..|q| - 1] :: w in q;
      BacklogTraced(q[..|q| - 1], foreign);
      assert q[|q| - 1] in q;
    }
  }

  lemma StartHolds(cfg: WB.Config, backlog: seq<Write>, foreign: set<int>, live: multiset<Row>, deferDrain: bool)
    requires WB.ValidConfig(cfg) && (!cfg.hasQueue ==> backlog == []) && 0 !in foreign
    requires forall w <- backlog | w.IndexWrite? :: w.row.generation in foreign
    ensures Invariant(cfg, Start(cfg, backlog, foreign, live, deferDrain))
  {
    hide Held, Sum, WB.Conserved, WB.Bookkeeping, RowsWithin;
    var s := Start(cfg, backlog, foreign, live, deferDrain);
    BacklogTraced(backlog, foreign);
    StartWeight(cfg, backlog, deferDrain, NotOfGenerations(foreign));
    StartWeight(cfg, backlog, deferDrain, OfGenerations({}));
    WB.InitialHolds(cfg, backlog, deferDrain);
    assert Known(s) == foreign;
    EmptyWithin({});
    EmptyWithin({0});
  }

  lemma EmptyWithin(gens: set<int>)
    ensures RowsWithin(multiset{}, gens)
  {
  }

  lemma StartWeight(cfg: WB.Config, backlog: seq<Write>, deferDrain: bool, k: Kind)
    requires !cfg.hasQueue ==> backlog == []
    ensures Held(k, WB.Initial(cfg, backlog, deferDrain)) == Sum(k, backlog)
  {
    SumOne(k, FileWrite(0));
  }

  lemma {:induction false} RunKeeps(cfg: WB.Config, s: System, acts: seq<Step>, t: System)
    requires Invariant(cfg, s) && Run(cfg, s, acts, t)
    ensures Invariant(cfg, t)
    decreases |acts|
  {
    hide Invariant, Do, Enabled;
    if acts == [] {
    } else {
      Kept(cfg, s, acts[0]);
      RunKeeps(cfg, Do(cfg, s, acts[0]), acts[1..], t);
    }
  }

  lemma ReachesKeeps(cfg: WB.Config, backlog: seq<Write>, foreign: set<int>, live: multiset<Row>,
                     deferDrain: bool, acts: seq<Step>, t: System)
    requires Reaches(cfg, backlog, foreign, live, deferDrain, acts, t)
    ensures Invariant(cfg, t)
  {
    hide Invariant, Run;
    StartHolds(cfg, backlog, foreign, live, deferDrain);
    RunKeeps(cfg, Start(cfg, backlog, foreign, live, deferDrain), acts, t);
  }

  // ----- Theorems -----------------------------------------------------------------

  /**
   In every run the in-flight counter is at least the number of rows of the current
   generation that are announced, held by the batcher or given up; and the saturating
   decrements never saturate.
   */
  lemma InflightCovers(cfg: WB.Config, backlog: seq<Write>, foreign: set<int>, live: multiset<Row>,
                       deferDrain: bool, acts: seq<Step>, t: System)
    requires Reaches(cfg, backlog, foreign, live, deferDrain, acts, t)
    ensures t.inflight >= |t.announced| + Held(OfGenerations({t.generation}), t.b) + |t.lost|
    ensures IndexEnabled(cfg, t, UndoRead) || FlushEnabled(t, CreditRead) ==> t.inflight > 0
  {
    hide Held, Sum, Complete, Clean, RowsWithin, WB.Bookkeeping;
    ReachesKeeps(cfg, backlog, foreign, live, deferDrain, acts, t);
    Covers(t);
    if t.generation in t.issued {
      HeldBelow(OfGenerations({t.generation}), OfGenerations(t.issued), t.b);
    } else {
      HeldBelow(OfGenerations({t.generation}), NotOfGenerations(Known(t)), t.b);
    }
  }

  /** No row of a generation is anywhere in the system, nor can be announced. */
  ghost predicate Over(s: System, g: int) {
    && g in s.issued
    && Held(OfGenerations({g}), s.b) == 0
    && (forall r <- s.announced :: r.generation != g)
    && (s.rebuild.Populating? ==> s.generation != g)
  }

  /**
   Once the wait has seen the counter at zero, every row that was accepted under the
   generation is in the destination, as often as it was accepted, until the swap makes
   it live; nothing was lost; and the generation is over.
   */
  lemma SwapSafe(cfg: WB.Config, backlog: seq<Write>, foreign: set<int>, live: multiset<Row>,
                 deferDrain: bool, acts: seq<Step>, t: System)
    requires Reaches(cfg, backlog, foreign, live, deferDrain, acts, t)
    requires t.rebuild.Waited? || t.rebuild.Swapped?
    ensures t.rebuild.Waited? ==> t.dest.Some? && forall x: Row | x.generation == t.generation ::
                                                    t.dest.value[x] == t.acceptedNow[x]
    ensures t.rebuild.Swapped? ==> forall x: Row | x.generation == t.generation :: t.live[x] == t.acceptedNow[x]
    ensures t.lost == multiset{} && Over(t, t.generation)
  {
    hide Held, Sum, Clean, RowsWithin, WB.Bookkeeping;
    ReachesKeeps(cfg, backlog, foreign, live, deferDrain, acts, t);
    Covers(t);
    HeldBelow(OfGenerations({t.generation}), OfGenerations(t.issued), t.b);
    if t.rebuild.Waited? {
      forall x: Row | x.generation == t.generation ensures t.dest.value[x] == t.acceptedNow[x] {
        assert Accounted(t, x);
        KindsBelow(x, t.issued);
        HeldBelow(Exactly(x), OfGenerations({x.generation}), t.b);
      }
    }
  }

  lemma OverKept(cfg: WB.Config, s: System, a: Step, g: int)
    requires Invariant(cfg, s) && Enabled(cfg, s, a) && Over(s, g)
    ensures Over(Do(cfg, s, a), g)
  {
    hide Over, Traced, Balanced, Complete, Clean, WB.Bookkeeping, BatchEnabled, FlushEnabled, IndexEnabled,
         BuildEnabled, BatchDo, FlushDo, IndexDo, BuildDo;
    match a
    case Batch(x) => BatchOver(cfg, s, x, g);
    case Flush(x) => FlushOver(s, x, g);
    case Index(x) => IndexOver(cfg, s, x, g);
    case Build(x) => BuildOver(s, x, g);
  }

  lemma BatchOver(cfg: WB.Config, s: System, a: WB.Action<Write>, g: int)
    requires WB.Bookkeeping(cfg, s.b) && BatchEnabled(cfg, s, a) && Over(s, g)
    ensures Over(BatchDo(cfg, s, a), g)
  {
    hide Held, Sum, WB.Bookkeeping, WB.Do, BatchEnabled;
    BatchWeight(cfg, s, a, OfGenerations({g}));
  }

  lemma IndexOver(cfg: WB.Config, s: System, i: IndexStep, g: int)
    requires IndexEnabled(cfg, s, i) && Over(s, g)
    ensures Over(IndexDo(cfg, s, i), g)
  {
    hide Held, Sum, WB.SubmitDo, WB.SubmitEnabled;
    IndexWeight(cfg, s, i, OfGenerations({g}));
  }

  lemma FlushOver(s: System, f: FlushStep, g: int)
    requires FlushEnabled(s, f) && Over(s, g)
    ensures Over(FlushDo(s, f), g)
  {
    hide Held, Sum;
    FlushTakes(s, f, OfGenerations({g}));
  }

  lemma BuildOver(s: System, r: RebuildStep, g: int)
    requires BuildEnabled(s, r) && Over(s, g)
    ensures Over(BuildDo(s, r), g)
  {
    hide Held, Sum;
  }

  /** No later flush can insert a row of a generation that is over. */
  lemma {:induction false} NoLateInsert(cfg: WB.Config, s: System, g: int, acts: seq<Step>, t: System)
    requires Invariant(cfg, s) && Over(s, g) && Run(cfg, s, acts, t)
    ensures Over(t, g)
    ensures t.flow.Ready? ==> forall w <- ToInsert(t) :: w.IndexWrite? && w.row.generation != g
    decreases |acts|
  {
    hide Invariant, Over, Do, Enabled, ToInsert;
    if acts == [] {
      if t.flow.Ready? {
        OverInserts(t, g);
      }
    } else {
      OverKept(cfg, s, acts[0], g);
      Kept(cfg, s, acts[0]);
      NoLateInsert(cfg, Do(cfg, s, acts[0]), g, acts[1..], t);
    }
  }

  lemma OverInserts(s: System, g: int)
    requires Over(s, g) && s.flow.Ready?
    ensures forall w <- ToInsert(s) :: w.IndexWrite? && w.row.generation != g
  {
    hide Held, Sum, RowsOf;
    if s.flow.insert.Some? {
      var h := s.flow.insert.value;
      RowsOfCarry(s.b.batch, h);
      InHandWeight(OfGenerations({g}), s.b);
      RowsOfWeight(s.b.batch, h, OfGenerations({g}));
    }
  }

  lemma {:induction false} RowsOfCarry(q: seq<Write>, g: int)
    ensures forall w <- RowsOf(q, g) :: w.IndexWrite? && w.row.generation == g
  {
    if q == [] {
    } else {
      RowsOfCarry(q[..|q| - 1], g);
    }
  }

  /**
   The swapped-in table is exactly what was accepted if and only if no row of another
   generation got into it; and none does when nothing old could still be inserted when
   the destination was cloned.
   */
  lemma CleanSwap(cfg: WB.Config, backlog: seq<Write>, foreign: set<int>, live: multiset<Row>,
                  deferDrain: bool, acts: seq<Step>, t: System)
    requires Reaches(cfg, backlog, foreign, live, deferDrain, acts, t) && t.rebuild.Swapped?
    ensures t.live == t.acceptedNow <==> RowsWithin(t.live, {t.generation})
    ensures t.cleanStart ==> t.live == t.acceptedNow
  {
    hide Held, Sum, Traced, Balanced, WB.Bookkeeping;
    ReachesKeeps(cfg, backlog, foreign, live, deferDrain, acts, t);
    if RowsWithin(t.live, {t.generation}) {
      forall x: Row ensures t.live[x] == t.acceptedNow[x] {
        if x.generation != t.generation {
          assert x !in t.live && x !in t.acceptedNow;
        }
      }
    }
  }

  // ----- A counter that never returns to zero ---------------------------------------

  /** The two terms of the counter that no step takes back. */
  function Unreturned(s: System): int {
    s.lostCount + s.uncredited
  }

  /** The generations of this process that are over. */
  function Past(s: System): set<int> {
    s.issued - {s.generation}
  }

  /** What the counter will never lose: those two terms, and rows of generations that are over. */
  function Doomed(s: System): int {
    Unreturned(s) + Held(OfGenerations(Past(s)), s.b) + PastFlow(s)
  }

  function PastFlow(s: System): nat {
    if s.flow.Succeeded? then Sum(OfGenerations(Past(s)), s.flow.rows) else 0
  }

  lemma {:induction false} SumSplit(q: seq<Write>, gens: set<int>, g: int)
    ensures Sum(OfGenerations(gens), q)
         == Sum(OfGenerations(gens - {g}), q) + (if g in gens then |RowsOf(q, g)| else 0)
  {
    if q == [] {
    } else {
      SumSplit(q[..|q| - 1], gens, g);
    }
  }

  lemma HeldLess(b: Batcher, gens: set<int>, g: int)
    ensures Held(OfGenerations(gens - {g}), b) <= Held(OfGenerations(gens), b)
  {
    hide Held;
    HeldBelow(OfGenerations(gens - {g}), OfGenerations(gens), b);
  }

  lemma BatchDoomed(cfg: WB.Config, s: System, a: WB.Action<Write>)
    requires WB.Bookkeeping(cfg, s.b) && BatchEnabled(cfg, s, a)
    ensures Doomed(BatchDo(cfg, s, a)) >= Doomed(s)
    ensures LostBy(s, a) == [] ==> Doomed(BatchDo(cfg, s, a)) == Doomed(s)
  {
    hide Held, Sum, RowsOf, Inserted, WB.Do, WB.Bookkeeping, BatchEnabled;
    BatchWeight(cfg, s, a, OfGenerations(Past(s)));
    SumSplit(LostBy(s, a), s.issued, s.generation);
    RowsOfNone(0, OfGenerations(Past(s)));
    RowsOfNone(0, OfGenerations(s.issued));
  }

  lemma IndexDoomed(cfg: WB.Config, s: System, i: IndexStep)
    requires IndexEnabled(cfg, s, i)
    ensures Doomed(IndexDo(cfg, s, i))
         == Doomed(s) + (if i.Place? then Weigh(OfGenerations(Past(s)), IndexWrite(i.row)) else 0)
  {
    hide Held, Sum, Weigh, WB.SubmitDo, WB.SubmitEnabled;
    IndexWeight(cfg, s, i, OfGenerations(Past(s)));
  }

  lemma FlushDoomed(s: System, f: FlushStep)
    requires Traced(s) && FlushEnabled(s, f)
    ensures Doomed(FlushDo(s, f)) == Doomed(s)
  {
    hide Held, Sum, RowsOf, Inserted, HasIndex, IndexOnly, WB.FlushDo;
    FlushTakes(s, f, OfGenerations(Past(s)));
    if f.StartCredit? {
      CurrentRows(s, s.flow.rows);
      SumSplit(s.flow.rows, s.issued, s.generation);
    }
  }

  lemma BuildDoomed(s: System, r: RebuildStep)
    requires Traced(s) && BuildEnabled(s, r)
    ensures Doomed(BuildDo(s, r)) >= Doomed(s)
  {
    hide Held, Sum, RowsOf;
    if r.Bump? {
      var t := BuildDo(s, r);
      assert Past(t) == s.issued;
      HeldLess(s.b, s.issued, s.generation);
      if s.flow.Succeeded? {
        SumSplit(s.flow.rows, s.issued, s.generation);
      }
    }
  }

  lemma DoomedGrows(cfg: WB.Config, s: System, a: Step)
    requires Traced(s) && WB.Bookkeeping(cfg, s.b) && Enabled(cfg, s, a)
    ensures Doomed(Do(cfg, s, a)) >= Doomed(s)
  {
    hide Doomed, Traced, WB.Bookkeeping, BatchDo, IndexDo, FlushDo, BuildDo, BatchEnabled, IndexEnabled, FlushEnabled,
         BuildEnabled;
    match a
    case Batch(x) => BatchDoomed(cfg, s, x);
    case Index(x) => IndexDoomed(cfg, s, x);
    case Flush(x) => FlushDoomed(s, x);
    case Build(x) => BuildDoomed(s, x);
  }

  lemma StuckNow(cfg: WB.Config, s: System)
    requires Invariant(cfg, s)
    ensures Doomed(s) <= s.inflight
  {
    hide Held, Sum, RowsOf, Traced, Complete, Clean, WB.Bookkeeping;
    HeldLess(s.b, s.issued, s.generation);
    if s.flow.Succeeded? {
      SumSplit(s.flow.rows, s.issued, s.generation);
    }
  }

  /** The wait of a populating rebuild passes exactly when nothing that the counter counts is left. */
  lemma WaitExactly(cfg: WB.Config, s: System)
    requires Invariant(cfg, s) && s.rebuild.Populating?
    ensures BuildEnabled(s, WaitDone)
       <==> s.announced == multiset{} && s.undoing == 0 && s.undoLoaded == 0
            && Held(OfGenerations(s.issued), s.b) == 0 && FlowTokens(s) == 0 && Unreturned(s) == 0
  {
    hide Held, Sum, Traced, Complete, Clean, WB.Bookkeeping;
  }

  /**
   Once an announced row was given up, or its generation was over while it was still in
   the batcher, the counter stays above zero whatever happens, and no later rebuild of
   the process can pass its wait.
   */
  lemma {:induction false} StuckForever(cfg: WB.Config, s: System, acts: seq<Step>, t: System)
    requires Invariant(cfg, s) && Doomed(s) > 0 && Run(cfg, s, acts, t)
    ensures t.inflight > 0 && !BuildEnabled(t, WaitDone)
    decreases |acts|
  {
    hide Invariant, Doomed, Do, Enabled;
    if acts == [] {
      StuckNow(cfg, s);
    } else {
      Kept(cfg, s, acts[0]);
      InvariantTraces(cfg, s);
      DoomedGrows(cfg, s, acts[0]);
      StuckForever(cfg, Do(cfg, s, acts[0]), acts[1..], t);
    }
  }

  lemma InvariantTraces(cfg: WB.Config, s: System)
    requires Invariant(cfg, s)
    ensures Traced(s) && Balanced(s) && WB.Bookkeeping(cfg, s.b)
  {
  }

  // ----- When something old is left: rows of an aborted rebuild ---------------------

  lemma {:induction false} Then(cfg: WB.Config, s: System, acts: seq<Step>, t: System, a: Step)
    requires Run(cfg, s, acts, t) && Enabled(cfg, t, a)
    ensures Run(cfg, s, acts + [a], Do(cfg, t, a))
    decreases |acts|
  {
    hide Enabled, Do;
    if acts == [] {
      assert [a][1..] == [];
    } else {
      Then(cfg, Do(cfg, s, acts[0]), acts[1..], t, a);
      assert (acts + [a])[1..] == acts[1..] + [a];
    }
  }

  lemma {:induction false} RunOn(cfg: WB.Config, s: System, acts: seq<Step>, t: System, more: seq<Step>, u: System)
    requires Run(cfg, s, acts, t) && Run(cfg, t, more, u)
    ensures Run(cfg, s, acts + more, u)
    decreases |acts|
  {
    hide Enabled, Do;
    if acts == [] {
      assert acts + more == more;
    } else {
      RunOn(cfg, Do(cfg, s, acts[0]), acts[1..], t, more, u);
      assert (acts + more)[1..] == acts[1..] + more;
    }
  }

  /** The rows that a flush inserts when nothing else moves meanwhile. */
  function RowsToInsert(s: System): seq<Write> {
    if s.active && s.dest.Some? then RowsOf(s.b.batch, s.generation) else []
  }

  /** What such a flush does when it commits. */
  function FlushAlone(s: System): System {
    s.(b := if s.b.worker.Flushing? then WB.FlushDo(s.b, WB.Committed) else s.b,
       flow := Succeeded(s.b.batch),
       dest := if s.dest.Some? then Some(Inserted(s.dest.value, RowsToInsert(s))) else None)
  }

  lemma RowsNeedIndex(q: seq<Write>, g: int)
    requires !HasIndex(q)
    ensures RowsOf(q, g) == []
  {
    NoIndexNoWeight(q, OfGenerations({g}));
    RowsOfWeight(q, g, OfGenerations({g}));
  }

  /** The flush in progress will insert nothing. */
  ghost predicate InsertsNothing(s: System) {
    s.flow == ActiveRead(false) || s.flow == Ready(None)
  }

  lemma InsertsNothingStays(cfg: WB.Config, s: System, a: Step)
    requires InsertsNothing(s) && Enabled(cfg, s, a) && a != Flush(CommitBatch) && a != Flush(FailBatch)
    ensures InsertsNothing(Do(cfg, s, a))
  {
    hide WB.Do, WB.SubmitDo, Inserted, RowsOf, Sum;
  }

  lemma {:induction false} InsertsNothingRun(cfg: WB.Config, s: System, acts: seq<Step>, t: System)
    requires InsertsNothing(s) && Run(cfg, s, acts, t) && Flush(CommitBatch) !in acts && Flush(FailBatch) !in acts
    ensures InsertsNothing(t)
    decreases |acts|
  {
    hide InsertsNothing, Do, Enabled;
    if acts == [] {
    } else {
      assert acts[0] in acts;
      InsertsNothingStays(cfg, s, acts[0]);
      InsertsNothingRun(cfg, Do(cfg, s, acts[0]), acts[1..], t);
    }
  }

  /**
   A batch of index rows only for which the classifier finds the rebuild inactive inserts nothing,
   whatever happens before it commits, even if the rebuild becomes active meanwhile.
   */
  lemma InactiveInsertsNothing(cfg: WB.Config, s: System, acts: seq<Step>, t: System)
    requires FlushEnabled(s, ReadActive) && !s.active && IndexOnly(s.b.batch)
    requires Run(cfg, FlushDo(s, ReadActive), acts, t) && Flush(CommitBatch) !in acts && Flush(FailBatch) !in acts
    requires FlushEnabled(t, CommitBatch)
    ensures FlushDo(t, CommitBatch).dest == t.dest
  {
    hide Run, IndexOnly, WB.FlushDo;
    InsertsNothingRun(cfg, FlushDo(s, ReadActive), acts, t);
  }

  /** A flush can always go on, except that it must fail when it is to insert rows and the table is gone. */
  lemma FlushGoesOn(s: System)
    requires if s.flow.Succeeded? || s.flow.Crediting? then true else MidFlush(s)
    ensures (exists f :: f != FailBatch && FlushEnabled(s, f))
       <==> !(s.flow.Ready? && ToInsert(s) != [] && s.dest.None?)
  {
    hide RowsOf;
    var f := match s.flow
      case NoFlush => if !s.active && IndexOnly(s.b.batch) then DropBatch else CheckBatch
      case Checked => ReadActive
      case ActiveRead(_) => ReadActiveAgain
      case ActiveReadAgain => ReadDest
      case DestRead => ReadGeneration
      case Ready(_) => CommitBatch
      case Succeeded(_) => StartCredit
      case Crediting(rows, loaded) => if rows == [] then CreditEnd else if loaded then CreditAdd else CreditRead;
    if !(s.flow.Ready? && ToInsert(s) != [] && s.dest.None?) {
      assert FlushEnabled(s, f);
    }
  }

  // ----- The phases of a rebuild ----------------------------------------------------------------

  /** The active flag is set from its activation to the end; the destination exists until it is swapped in. */
  predicate Phased(s: System) {
    && (s.active <==> s.rebuild.Activated? || s.rebuild.Populating? || s.rebuild.Waited? || s.rebuild.Swapped?)
    && (s.rebuild.Cloned? || s.rebuild.Activated? || s.rebuild.Populating? || s.rebuild.Waited? ==> s.dest.Some?)
    && (s.rebuild.Swapped? ==> s.dest.None?)
  }

  lemma PhasedKept(cfg: WB.Config, s: System, a: Step)
    requires Phased(s) && Enabled(cfg, s, a)
    ensures Phased(Do(cfg, s, a))
  {
    hide Phased;
    match a
    case Batch(x) => SamePhase(s, BatchDo(cfg, s, x));
    case Index(x) => PhasedIndex(cfg, s, x);
    case Flush(x) => PhasedFlush(s, x);
    case Build(x) => PhasedBuild(s, x);
  }

  lemma SamePhase(s: System, t: System)
    requires Phased(s) && t.active == s.active && t.rebuild == s.rebuild && (s.dest.Some? <==> t.dest.Some?)
    ensures Phased(t)
  {
  }

  lemma PhasedIndex(cfg: WB.Config, s: System, i: IndexStep)
    requires Phased(s) && IndexEnabled(cfg, s, i)
    ensures Phased(IndexDo(cfg, s, i))
  {
    hide Phased, WB.SubmitDo;
    SamePhase(s, IndexDo(cfg, s, i));
  }

  lemma PhasedFlush(s: System, f: FlushStep)
    requires Phased(s) && FlushEnabled(s, f)
    ensures Phased(FlushDo(s, f))
  {
    hide Phased, WB.FlushDo, Inserted, RowsOf, Sum, HasIndex, IndexOnly;
    SamePhase(s, FlushDo(s, f));
  }

  lemma PhasedBuild(s: System, r: RebuildStep)
    requires Phased(s) && BuildEnabled(s, r)
    ensures Phased(BuildDo(s, r))
  {
  }

  lemma {:induction false} PhasedRun(cfg: WB.Config, s: System, acts: seq<Step>, t: System)
    requires Phased(s) && Run(cfg, s, acts, t)
    ensures Phased(t)
    decreases |acts|
  {
    hide Phased, Do, Enabled;
    if acts == [] {
    } else {
      PhasedKept(cfg, s, acts[0]);
      PhasedRun(cfg, Do(cfg, s, acts[0]), acts[1..], t);
    }
  }

  /** So it is in every run of a new process. */
  lemma EveryRunPhased(cfg: WB.Config, backlog: seq<Write>, foreign: set<int>, live: multiset<Row>, deferDrain: bool,
                       acts: seq<Step>, t: System)
    requires !cfg.hasQueue ==> backlog == []
    requires Run(cfg, Start(cfg, backlog, foreign, live, deferDrain), acts, t)
    ensures Phased(t)
  {
    PhasedRun(cfg, Start(cfg, backlog, foreign, live, deferDrain), acts, t);
  }

  /** A flush that is not dropped runs, step by step, to its commit. */
  lemma FlushAloneRuns(cfg: WB.Config, s: System) returns (acts: seq<Step>)
    requires s.flow.NoFlush? && MidFlush(s) && (s.active || !IndexOnly(s.b.batch))
    ensures Run(cfg, s, acts, FlushAlone(s))
  {
    hide Inserted, RowsOf, HasIndex, IndexOnly, WB.FlushDo, Run;
    RunNone(cfg, s);
    Then(cfg, s, [], s, Flush(CheckBatch));
    acts := [] + [Flush(CheckBatch)];
    Then(cfg, s, acts, s.(flow := Checked), Flush(ReadActive));
    acts := acts + [Flush(ReadActive)];
    Then(cfg, s, acts, s.(flow := ActiveRead(HasIndex(s.b.batch))), Flush(ReadActiveAgain));
    acts := acts + [Flush(ReadActiveAgain)];
    var ready := s.(flow := Ready(None));
    if HasIndex(s.b.batch) && s.active {
      Then(cfg, s, acts, s.(flow := ActiveReadAgain), Flush(ReadDest));
      acts := acts + [Flush(ReadDest)];
      if s.dest.Some? {
        Then(cfg, s, acts, s.(flow := DestRead), Flush(ReadGeneration));
        acts := acts + [Flush(ReadGeneration)];
        ready := s.(flow := Ready(Some(s.generation)));
      }
    } else if s.active {
      RowsNeedIndex(s.b.batch, s.generation);
    }
    assert Run(cfg, s, acts, ready);
    Then(cfg, s, acts, ready, Flush(CommitBatch));
    acts := acts + [Flush(CommitBatch)];
  }

  lemma RunNone(cfg: WB.Config, s: System)
    ensures Run(cfg, s, [], s)
  {
  }

  /**
   A flush that commits inside the window leaves in the destination exactly its rows of
   the previous generation; so the destination holds only rows of the new generation if
   and only if that batch carried no row of the previous one.
   */
  lemma StaleRows(cfg: WB.Config, s: System, now: int) returns (acts: seq<Step>, t: System)
    requires Invariant(cfg, s) && s.rebuild.Activated? && s.flow.NoFlush? && MidFlush(s)
    requires s.dest == Some(multiset{}) && BuildEnabled(s, Bump(now))
    ensures Run(cfg, s, acts, t) && t.rebuild.Populating? && t.dest.Some?
    ensures t.dest.value == Inserted(multiset{}, RowsOf(s.b.batch, s.generation))
    ensures RowsWithin(t.dest.value, {t.generation}) <==> RowsOf(s.b.batch, s.generation) == []
  {
    hide Inserted, RowsOf, Held, Sum, WB.FlushDo, WB.Bookkeeping, Balanced, Clean, Run;
    acts := FlushAloneRuns(cfg, s);
    var u := FlushAlone(s);
    Then(cfg, s, acts, u, Build(Bump(now)));
    acts := acts + [Build(Bump(now))];
    t := BuildDo(u, Bump(now));
    InsertedSize(multiset{}, s.b.batch, s.generation);
    if RowsWithin(t.dest.value, {t.generation}) {
      assert t.dest.value == multiset{} by {
        assert forall r <- t.dest.value :: false;
      }
    }
  }

  /** Crediting takes each row off the counter. */
  lemma {:induction false} CreditRuns(cfg: WB.Config, s: System, rows: seq<Write>) returns (acts: seq<Step>)
    requires s.flow == Crediting(rows, false) && s.inflight >= |rows|
    ensures Run(cfg, s, acts, s.(flow := Crediting([], false), inflight := s.inflight - |rows|))
    decreases |rows|
  {
    hide Run;
    RunNone(cfg, s);
    acts := [];
    if rows == [] {
    } else {
      Then(cfg, s, [], s, Flush(CreditRead));
      acts := [] + [Flush(CreditRead)];
      Then(cfg, s, acts, s.(flow := Crediting(rows, true)), Flush(CreditAdd));
      acts := acts + [Flush(CreditAdd)];
      var u := s.(flow := Crediting(rows[1..], false), inflight := s.inflight - 1);
      var more := CreditRuns(cfg, u, rows[1..]);
      RunOn(cfg, s, acts, u, more, s.(flow := Crediting([], false), inflight := s.inflight - |rows|));
      acts := acts + more;
    }
  }

  /** A rebuild that finds the counter at zero bumps, waits and swaps. */
  lemma SwapRuns(cfg: WB.Config, u: System, now: int) returns (acts: seq<Step>, t: System)
    requires u.rebuild.Activated? && u.inflight == 0 && u.dest.Some? && BuildEnabled(u, Bump(now))
    ensures Run(cfg, u, acts, t)
    ensures t.rebuild.Swapped? && t.live == u.dest.value && t.acceptedNow == multiset{}
    ensures t.generation == BumpGeneration(u.generation, now) && t.cleanStart == u.cleanStart
  {
    hide Run;
    RunNone(cfg, u);
    Then(cfg, u, [], u, Build(Bump(now)));
    acts := [] + [Build(Bump(now))];
    var u1 := BuildDo(u, Bump(now));
    Then(cfg, u, acts, u1, Build(WaitDone));
    acts := acts + [Build(WaitDone)];
    Then(cfg, u, acts, u1.(rebuild := Waited), Build(Swap));
    acts := acts + [Build(Swap)];
    t := BuildDo(u1.(rebuild := Waited), Swap);
  }

  /** The destination is cloned and the active flag set. */
  function Opened(s: System): System {
    s.(rebuild := Activated, active := true, dest := Some(multiset{}), cleanStart := NothingOld(s))
  }

  lemma OpenedRuns(cfg: WB.Config, s: System) returns (acts: seq<Step>)
    requires s.rebuild.Off?
    ensures Run(cfg, s, acts, Opened(s))
  {
    hide Run, NothingOld;
    RunNone(cfg, s);
    Then(cfg, s, [], s, Build(CloneEmpty));
    acts := [] + [Build(CloneEmpty)];
    Then(cfg, s, acts, BuildDo(s, CloneEmpty), Build(Activate));
    acts := acts + [Build(Activate)];
  }

  /** The flush inside the window, up to the last of its credits. */
  function Credited(s: System): System {
    var rows := RowsOf(s.b.batch, s.generation);
    FlushAlone(s).(
      flow := Crediting([], false), inflight := s.inflight - |rows|,
      uncredited := s.uncredited + Sum(OfGenerations(s.issued), s.b.batch) - |rows|)
  }

  lemma CreditedRuns(cfg: WB.Config, s: System) returns (acts: seq<Step>)
    requires s.flow.NoFlush? && MidFlush(s) && s.active
    requires s.inflight >= |RowsOf(s.b.batch, s.generation)|
    ensures Run(cfg, s, acts, Credited(s))
  {
    hide Run, RowsOf, Sum, Inserted, WB.FlushDo;
    acts := FlushAloneRuns(cfg, s);
    var u := FlushAlone(s);
    Then(cfg, s, acts, u, Flush(StartCredit));
    acts := acts + [Flush(StartCredit)];
    var v := FlushDo(u, StartCredit);
    var more := CreditRuns(cfg, v, v.flow.rows);
    RunOn(cfg, s, acts, v, more, Credited(s));
    acts := acts + more;
  }

  /**
   When all that the counter counts is one batch in the hand of the worker, a rebuild
   that starts now can end with exactly the rows of that batch, of the generation
   before it, as its table.  So what `CleanSwap` asks for is needed: the table of this
   run is what was accepted if and only if nothing old was left at the clone.
   */
  lemma StaleSwap(cfg: WB.Config, s: System, now: int) returns (acts: seq<Step>, t: System)
    requires Invariant(cfg, s) && s.rebuild.Off? && s.flow.NoFlush? && MidFlush(s)
    requires s.inflight == |RowsOf(s.b.batch, s.generation)|
    requires BumpGeneration(s.generation, now) !in Known(s) + {0}
    ensures Run(cfg, s, acts, t) && t.rebuild.Swapped? && t.acceptedNow == multiset{}
    ensures t.generation == BumpGeneration(s.generation, now)
    ensures t.live == Inserted(multiset{}, RowsOf(s.b.batch, s.generation))
    ensures t.live == t.acceptedNow <==> NothingOld(s)
  {
    hide Run, RowsOf, Sum, Inserted, NothingOld, Invariant, WB.FlushDo;
    acts := OpenedRuns(cfg, s);
    var o := Opened(s);
    var flush := CreditedRuns(cfg, o);
    var u := Credited(o);
    RunOn(cfg, s, acts, o, flush, u);
    acts := acts + flush;
    var swap;
    swap, t := SwapRuns(cfg, u, now);
    RunOn(cfg, s, acts, u, swap, t);
    acts := acts + swap;
    InsertedSize(multiset{}, s.b.batch, s.generation);
    NothingOldMeans(cfg, s);
  }

  /**
   A row of an aborted rebuild that is still in the batcher when the next rebuild bumps
   the generation is doomed, and by `StuckForever` no rebuild of the process completes
   any more.
   */
  lemma LateRow(cfg: WB.Config, s: System, now: int)
    requires Invariant(cfg, s) && BuildEnabled(s, Bump(now))
    ensures Doomed(BuildDo(s, Bump(now))) >= Held(OfGenerations(s.issued), s.b)
  {
    hide Held, Sum, RowsOf, Complete, Clean, WB.Bookkeeping;
    assert Past(BuildDo(s, Bump(now))) == s.issued;
  }

  lemma NothingOldMeans(cfg: WB.Config, s: System)
    requires Invariant(cfg, s) && s.inflight == |RowsOf(s.b.batch, s.generation)|
    ensures NothingOld(s) <==> RowsOf(s.b.batch, s.generation) == []
  {
    hide RowsOf, Sum, Traced, Balanced, Complete, Clean, WB.Bookkeeping;
    if NothingOld(s) {
      NoneHeld(s, s.generation);
    } else if s.inflight == 0 {
      ZeroMeansNothingOld(s);
    }
  }

  const SMALL := WB.Config(1, 1, false)
  const OLD_ROW := Row(1, 1, 1, 1, None, None, 1, 1, 5)

  function Fresh(): System {
    Start(SMALL, [], {}, multiset{}, false)
  }

  function Placed(): System {
    var w := IndexWrite(OLD_ROW);
    Fresh().(
      b := WB.Initial<Write>(SMALL, [], false).(
             channel := [w], submitting := WB.Sent(false), accepted := multiset{w}),
      active := true, generation := 5, inflight := 1, dest := Some(multiset{}), rebuild := Populating,
      issued := {5}, acceptedNow := multiset{OLD_ROW}, cleanStart := true)
  }

  /** A rebuild announces a row and places it in the channel. */
  lemma PlacedRuns() returns (acts: seq<Step>)
    ensures Run(SMALL, Fresh(), acts, Placed())
  {
    hide Run, Held, Sum;
    var s := Fresh();
    RunNone(SMALL, s);
    assert NothingOld(s) by {
      StartWeight(SMALL, [], false, OfGenerations({0}));
      RowsOfNone(0, OfGenerations({0}));
    }
    hide NothingOld;
    Then(SMALL, s, [], s, Build(CloneEmpty));
    acts := [] + [Build(CloneEmpty)];
    var s1 := s.(rebuild := Cloned, dest := Some(multiset{}), cleanStart := true);
    Then(SMALL, s, acts, s1, Build(Activate));
    acts := acts + [Build(Activate)];
    var s2 := s1.(rebuild := Activated, active := true);
    Then(SMALL, s, acts, s2, Build(Bump(5)));
    acts := acts + [Build(Bump(5))];
    var s3 := s2.(rebuild := Populating, generation := 5, issued := {5});
    assert BuildDo(s2, Bump(5)) == s3 by {
      assert {} + {5} == {5};
    }
    Then(SMALL, s, acts, s3, Index(Announce(OLD_ROW)));
    acts := acts + [Index(Announce(OLD_ROW))];
    var s4 := s3.(inflight := 1, announced := multiset{OLD_ROW});
    assert IndexDo(SMALL, s3, Announce(OLD_ROW)) == s4 by {
      assert multiset{} + multiset{OLD_ROW} == multiset{OLD_ROW};
    }
    Then(SMALL, s, acts, s4, Index(Place(OLD_ROW, false)));
    acts := acts + [Index(Place(OLD_ROW, false))];
    assert IndexDo(SMALL, s4, Place(OLD_ROW, false)) == Placed() by {
      var w := IndexWrite(OLD_ROW);
      assert multiset{OLD_ROW} - multiset{OLD_ROW} == multiset{};
      assert multiset{} + multiset{OLD_ROW} == multiset{OLD_ROW};
      assert multiset{} + multiset{w} == multiset{w} && [] + [w] == [w];
    }
  }

  function Aborted(): System {
    Placed().(
      b := Placed().b.(submitting := WB.Idle, pending := 1),
      rebuild := Off, active := false)
  }

  /** The rebuild is aborted. */
  lemma AbortedRuns() returns (acts: seq<Step>)
    ensures Run(SMALL, Fresh(), acts, Aborted())
  {
    hide Run, Held, Sum;
    acts := PlacedRuns();
    Then(SMALL, Fresh(), acts, Placed(), Build(Abort));
    acts := acts + [Build(Abort)];
    var s := Placed().(rebuild := Off, active := false);
    var count: WB.Action<Write> := WB.Submit(WB.CountPending);
    Then(SMALL, Fresh(), acts, s, Batch(count));
    acts := acts + [Batch(count)];
    LostNothing(SMALL, s, count);
  }

  /** The worker has the old row in its batch. */
  function WithOldRow(): System {
    Aborted().(
      b := WB.Initial<Write>(SMALL, [], false).(
             batch := [IndexWrite(OLD_ROW)], pending := 1, accepted := multiset{IndexWrite(OLD_ROW)},
             worker := WB.Flushing(WB.Selecting)))
  }

  lemma TakesOldRow()
    ensures var take: WB.Action<Write> := WB.Intake(WB.Receive(false));
            && WB.Enabled(SMALL, Aborted().b, take)
            && WB.Do(SMALL, Aborted().b, take) == WithOldRow().b
  {
    var w := IndexWrite(OLD_ROW);
    assert [w][1..] == [] && [] + [w] == [w];
  }

  lemma WithOldRowRuns() returns (acts: seq<Step>)
    ensures Run(SMALL, Fresh(), acts, WithOldRow())
  {
    hide Run, Held, Sum, WB.Do, WB.Enabled;
    acts := AbortedRuns();
    var take: WB.Action<Write> := WB.Intake(WB.Receive(false));
    TakesOldRow();
    Then(SMALL, Fresh(), acts, Aborted(), Batch(take));
    acts := acts + [Batch(take)];
    LostNothing(SMALL, Aborted(), take);
  }

  lemma LostNothing(cfg: WB.Config, s: System, a: WB.Action<Write>)
    requires BatchEnabled(cfg, s, a) && !a.Requeue?
    ensures BatchDo(cfg, s, a) == s.(b := WB.Do(cfg, s.b, a))
  {
  }

  /**
   The active flag is set before the generation is bumped: in this run a flush in
   between puts a row of an aborted rebuild into the destination, and the table that
   the next rebuild swaps in holds that row although the rebuild never submitted one.
   */
  lemma StaleRowGoesLive() returns (acts: seq<Step>, t: System)
    ensures Reaches(SMALL, [], {}, multiset{}, false, acts, t)
    ensures t.rebuild.Swapped? && t.acceptedNow == multiset{} && t.live == multiset{OLD_ROW}
    ensures OLD_ROW.generation != t.generation
  {
    hide Run, Held, Sum, Inserted, RowsOf, NothingOld, Invariant;
    var s := WithOldRow();
    acts := WithOldRowRuns();
    ReachesKeeps(SMALL, [], {}, multiset{}, false, acts, s);
    RowsOfOne();
    var more;
    more, t := StaleSwap(SMALL, s, 6);
    RunOn(SMALL, Fresh(), acts, s, more, t);
    acts := acts + more;
  }

  lemma RowsOfOne()
    ensures |RowsOf([IndexWrite(OLD_ROW)], 5)| == 1
    ensures Inserted(multiset{}, RowsOf([IndexWrite(OLD_ROW)], 5)) == multiset{OLD_ROW}
  {
    var w := IndexWrite(OLD_ROW);
    RowsOfBack([], w, 5);
    InsertedBack(multiset{}, [], w);
    assert [] + [w] == [w];
  }
}
