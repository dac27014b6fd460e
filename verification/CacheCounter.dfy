/**
 The size counter of the HTTP cache under concurrency: the batch worker stores entries,
 counts them, evicts and resyncs; other goroutines delete expired rows and rotate the
 table.  A rotation empties the table and resets the counter in two steps.
 */
module CacheCounter {
  import opened CacheSize

  /** What the worker is doing. */
  datatype Worker =
    | Idle
    | Storing(owed: nat)  // committed, not yet counted
    | Evicting(list: seq<Candidate>, target: int, freed: nat)
    | Resyncing(size: nat)

  /** Rotations may overlap: `resets` counts those that have cut over and not yet reset the counter. */
  datatype State = State(rows: Rows, counter: int, worker: Worker, resets: nat)

  datatype Step =
    | Commit(batch: seq<Entry>)
    | Count
    | StartEvict(maxTotal: int, list: seq<Candidate>)
    | DeleteNext
    | Subtract
    | ReadSize(size: nat)
    | StoreSize
    | Expire(ids: set<nat>)
    | CutOver
    | Reset

  ghost predicate Enabled(s: State, a: Step) {
    match a
    case Commit(_) => s.worker.Idle?
    case Count => s.worker.Storing?
    case StartEvict(maxTotal, list) => s.worker.Idle? && maxTotal > 0 && s.counter > maxTotal && Oldest(s.rows, list)
    case DeleteNext => s.worker.Evicting? && s.worker.list != [] && s.worker.freed < s.worker.target
    case Subtract => s.worker.Evicting?
    case ReadSize(size) => s.worker.Idle? && size == Total(s.rows)
    case StoreSize => s.worker.Resyncing?
    case Expire(_) => true
    case CutOver => true
    case Reset => s.resets > 0
  }

  function Do(s: State, a: Step): State
    requires Enabled(s, a)
  {
    match a
    case Commit(batch) => s.(rows := Stored(s.rows, batch), worker := Storing(Bytes(batch)))
    case Count => s.(counter := s.counter + s.worker.owed, worker := Idle)
    case StartEvict(maxTotal, list) => s.(worker := Evicting(list, s.counter - maxTotal + maxTotal / 10, 0))
    case DeleteNext =>
      var Evicting(list, target, freed) := s.worker;
      s.(rows := s.rows - {list[0].id}, worker := Evicting(list[1..], target, freed + list[0].size))
    case Subtract => s.(counter := s.counter - s.worker.freed, worker := Idle)
    case ReadSize(size) => s.(worker := Resyncing(size))
    case StoreSize => s.(counter := s.worker.size, worker := Idle)
    case Expire(ids) => s.(rows := s.rows - ids)
    case CutOver => s.(rows := map[], resets := s.resets + 1)
    case Reset => s.(counter := 0, resets := s.resets - 1)
  }

  // ----- The invariant ------------------------------------------------------------------------------

  /** Bytes of candidates whose rows have gone in another way; an eviction will subtract them all the same. */
  function Gone(list: seq<Candidate>, rows: Rows): nat {
    if list == [] then 0 else (if list[0].id in rows then 0 else list[0].size) + Gone(list[1..], rows)
  }

  /** The candidates that are still there have the size they were listed with, and no row is listed twice. */
  ghost predicate Listed(list: seq<Candidate>, rows: Rows) {
    && (forall c <- list | c.id in rows :: rows[c.id].size == c.size)
    && forall i, j :: 0 <= i < j < |list| ==> list[i].id != list[j].id
  }

  ghost predicate Covered(s: State) {
    match s.worker
    case Idle => s.counter >= Total(s.rows)
    case Storing(owed) => s.counter + owed >= Total(s.rows)
    case Evicting(list, _, freed) => s.counter - freed >= Total(s.rows) + Gone(list, s.rows) && Listed(list, s.rows)
    case Resyncing(size) => s.counter >= Total(s.rows) && size >= Total(s.rows)
  }

  lemma {:induction false} GoneDelete(list: seq<Candidate>, rows: Rows, k: nat)
    requires Listed(list, rows)
    ensures Gone(list, rows - {k})
         == Gone(list, rows) + (if k in rows && exists c :: c in list && c.id == k then rows[k].size else 0)
    ensures Listed(list, rows - {k})
  {
    if list == [] {
    } else {
      var rest := list[1..];
      assert forall c <- rest :: c in list;
      GoneDelete(rest, rows, k);
      assert list[0] in list;
      if list[0].id == k {
        forall c <- rest ensures c.id != k {
          var j :| 0 <= j < |rest| && rest[j] == c;
          assert list[j + 1] == c;
        }
      } else {
        assert (exists c :: c in list && c.id == k) <==> exists c :: c in rest && c.id == k by {
          if c :| c in list && c.id == k {
            assert c != list[0] && c in rest;
          }
        }
      }
    }
  }

  /** Deleting a row lowers the total at least as much as it raises what the eviction will subtract in vain. */
  lemma DeleteCovers(list: seq<Candidate>, rows: Rows, k: nat)
    requires Listed(list, rows)
    ensures Total(rows - {k}) + Gone(list, rows - {k}) <= Total(rows) + Gone(list, rows)
    ensures Listed(list, rows - {k}) && Total(rows - {k}) <= Total(rows)
  {
    GoneDelete(list, rows, k);
    TotalDelete(rows, k);
  }

  lemma {:induction false} ExpireCovers(list: seq<Candidate>, rows: Rows, ids: set<nat>)
    requires Listed(list, rows)
    ensures Total(rows - ids) + Gone(list, rows - ids) <= Total(rows) + Gone(list, rows)
    ensures Listed(list, rows - ids) && Total(rows - ids) <= Total(rows)
    decreases |ids|
  {
    if ids == {} {
      assert rows - ids == rows;
    } else {
      var k :| k in ids;
      DeleteCovers(list, rows, k);
      ExpireCovers(list, rows - {k}, ids - {k});
      assert (rows - {k}) - (ids - {k}) == rows - ids;
    }
  }

  lemma ListedNone(rows: Rows)
    ensures Listed([], rows) && Gone([], rows) == 0
  {
  }

  lemma OldestListed(rows: Rows, list: seq<Candidate>)
    requires Oldest(rows, list)
    ensures Listed(list, rows) && Gone(list, rows) == 0
  {
    forall c <- list ensures c.id in rows && rows[c.id].size == c.size {
      var i :| 0 <= i < |list| && list[i] == c;
    }
    AllThere(list, rows);
  }

  lemma {:induction false} AllThere(list: seq<Candidate>, rows: Rows)
    requires forall c <- list :: c.id in rows
    ensures Gone(list, rows) == 0
  {
    if list == [] {
    } else {
      assert list[0] in list && forall c <- list[1..] :: c in list;
      AllThere(list[1..], rows);
    }
  }

  /** Every step but the reset of a rotation keeps the counter from falling below the true total. */
  lemma Kept(s: State, a: Step)
    requires Covered(s) && Enabled(s, a) && !a.Reset?
    ensures Covered(Do(s, a))
  {
    hide Total, Gone, Listed, Oldest, Stored, Bytes;
    match a
    case Commit(batch) => TotalStored(s.rows, batch);
    case StartEvict(_, list) => OldestListed(s.rows, list);
    case DeleteNext => DeleteKept(s);
    case Expire(ids) =>
      ListedNone(s.rows);
      ListedNone(s.rows - ids);
      ExpireCovers(if s.worker.Evicting? then s.worker.list else [], s.rows, ids);
    case CutOver => CutOverKept(s);
    case _ =>
  }

  lemma DeleteKept(s: State)
    requires Covered(s) && Enabled(s, DeleteNext)
    ensures Covered(Do(s, DeleteNext))
  {
    hide Total;
    var list, rows := s.worker.list, s.rows;
    var c := list[0];
    assert c in list;
    GoneDelete(list, rows, c.id);
    TotalDelete(rows, c.id);
    assert forall d <- list[1..] :: d in list;
  }

  /** An empty table owes nothing, whatever the eviction still has listed. */
  lemma CutOverKept(s: State)
    requires Covered(s) && Enabled(s, CutOver)
    ensures Covered(Do(s, CutOver))
  {
    ListedNone(s.rows);
    ExpireCovers(if s.worker.Evicting? then s.worker.list else [], s.rows, s.rows.Keys);
    assert s.rows - s.rows.Keys == map[];
  }

  /** By how much the counter is above the stored total, once what the worker is doing is accounted for. */
  ghost function Drift(s: State): int {
    s.counter - Total(s.rows)
    + match s.worker
      case Storing(owed) => owed
      case Evicting(list, _, freed) => 0 - freed - Gone(list, s.rows)
      case _ => 0
  }

  /** The rows that other goroutines remove, with what an eviction will subtract for them in vain. */
  ghost function Removed(s: State, rows: Rows): int {
    Total(s.rows) - Total(rows)
    - if s.worker.Evicting? then Gone(s.worker.list, rows) - Gone(s.worker.list, s.rows) else 0
  }

  /**
   How each step moves the counter away from the stored total: by the bytes that a batch overwrites and
   by the rows that others remove, and never by counting, by evicting or by reading the size.
   */
  lemma DriftExact(s: State, a: Step)
    requires Covered(s) && Enabled(s, a)
    ensures a.Commit? ==> Drift(Do(s, a)) == Drift(s) + Overwritten(s.rows, a.batch)
    ensures a.Count? || a.StartEvict? || a.DeleteNext? || a.ReadSize? ==> Drift(Do(s, a)) == Drift(s)
    ensures a.Subtract? ==> Drift(Do(s, a)) == Drift(s) + Gone(s.worker.list, s.rows)
    ensures a.StoreSize? ==> Drift(Do(s, a)) == s.worker.size - Total(s.rows)
    ensures a.Expire? ==> Drift(Do(s, a)) == Drift(s) + Removed(s, s.rows - a.ids)
    ensures a.CutOver? ==> Drift(Do(s, a)) == Drift(s) + Removed(s, map[])
    ensures a.Reset? ==> Drift(Do(s, a)) == Drift(s) - s.counter
  {
    hide Total, Gone, Listed, Oldest, Stored, Bytes, Overwritten;
    match a
    case Commit(batch) => TotalStored(s.rows, batch);
    case StartEvict(_, list) => OldestListed(s.rows, list);
    case DeleteNext => DeleteDrifts(s);
    case _ =>
  }

  lemma DeleteDrifts(s: State)
    requires Covered(s) && Enabled(s, DeleteNext)
    ensures Drift(Do(s, DeleteNext)) == Drift(s)
  {
    hide Total;
    var list, rows := s.worker.list, s.rows;
    var c := list[0];
    assert c in list;
    GoneDelete(list, rows, c.id);
    TotalDelete(rows, c.id);
    assert forall d <- list[1..] :: d in list;
  }

  /** When a rotation may reset the counter: nothing counted is still stored, and no eviction has yet to subtract. */
  ghost predicate Settled(s: State) {
    match s.worker
    case Idle => Total(s.rows) == 0
    case Storing(owed) => Total(s.rows) <= owed
    case Evicting(list, _, freed) => freed == 0 && Total(s.rows) == 0 && Gone(list, s.rows) == 0
    case Resyncing(_) => Total(s.rows) == 0
  }

  /** The reset of a rotation keeps the counter right if and only if the rows are settled. */
  lemma ResetExact(s: State)
    requires Covered(s) && s.resets > 0
    ensures Covered(Do(s, Reset)) <==> Settled(s)
  {
    hide Total, Gone, Listed;
  }

  // ----- Runs -----------------------------------------------------------------------------------------

  /**
   No rotation cuts over during an eviction, and between a cutover and its reset the
   worker neither counts what it committed nor starts an eviction.
   */
  predicate Apart(s: State, a: Step) {
    && (a.CutOver? ==> !s.worker.Evicting?)
    && (s.resets > 0 ==> !a.Count? && !a.StartEvict?)
  }

  ghost predicate Run(s: State, steps: seq<Step>, t: State)
    decreases |steps|
  {
    if steps == [] then t == s
    else Enabled(s, steps[0]) && Run(Do(s, steps[0]), steps[1..], t)
  }

  /** The cover holds now and after each step. */
  ghost predicate AlwaysCovered(s: State, steps: seq<Step>)
    decreases |steps|
  {
    && Covered(s)
    && (steps != [] ==> Enabled(s, steps[0]) && AlwaysCovered(Do(s, steps[0]), steps[1..]))
  }

  /** Each reset finds the rows settled. */
  ghost predicate SettledResets(s: State, steps: seq<Step>)
    decreases |steps|
  {
    steps != [] ==>
      && Enabled(s, steps[0]) && (steps[0].Reset? ==> Settled(s))
      && SettledResets(Do(s, steps[0]), steps[1..])
  }

  /** In a run the counter covers the stored total throughout if and only if each reset happens in a settled state. */
  lemma {:induction false} CoveredExactly(s: State, steps: seq<Step>, t: State)
    requires Covered(s) && Run(s, steps, t)
    ensures AlwaysCovered(s, steps) <==> SettledResets(s, steps)
    decreases |steps|
  {
    hide Covered, Settled, Enabled, Do;
    if steps == [] {
    } else {
      if steps[0].Reset? {
        ResetPending(s);
        ResetExact(s);
      } else {
        Kept(s, steps[0]);
      }
      if Covered(Do(s, steps[0])) {
        CoveredExactly(Do(s, steps[0]), steps[1..], t);
      }
    }
  }

  lemma ResetPending(s: State)
    requires Enabled(s, Reset)
    ensures s.resets > 0
  {
  }

  ghost predicate ApartRun(s: State, steps: seq<Step>)
    decreases |steps|
  {
    steps != [] ==> Enabled(s, steps[0]) && Apart(s, steps[0]) && ApartRun(Do(s, steps[0]), steps[1..])
  }

  ghost predicate Safe(s: State) {
    Covered(s) && (s.resets > 0 ==> Settled(s) && !s.worker.Evicting?)
  }

  lemma SafeKept(s: State, a: Step)
    requires Safe(s) && Enabled(s, a) && Apart(s, a)
    ensures Safe(Do(s, a))
  {
    hide Total, Gone, Listed, Oldest, Stored, Bytes, Covered;
    if a.Reset? {
      ResetExact(s);
    } else {
      Kept(s, a);
      match a
      case Commit(batch) => TotalStored(s.rows, batch);
      case Expire(ids) =>
        ListedNone(s.rows);
        ExpireCovers([], s.rows, ids);
      case CutOver => NoRows();
      case _ =>
    }
  }

  /**
   In every run that keeps rotations apart from counting and evicting, the counter is
   never below the true stored total, less only what the worker has committed and is
   about to count.
   */
  lemma {:induction false} NeverBelow(s: State, steps: seq<Step>, t: State)
    requires Safe(s) && ApartRun(s, steps) && Run(s, steps, t)
    ensures Safe(t)
    ensures t.counter + (if t.worker.Storing? then t.worker.owed else 0) >= Total(t.rows)
    decreases |steps|
  {
    hide Enabled, Apart, Do, Total, Gone, Listed;
    if steps == [] {
    } else {
      SafeKept(s, steps[0]);
      NeverBelow(Do(s, steps[0]), steps[1..], t);
    }
  }

  // ----- One eviction -------------------------------------------------------------------------------------

  /** An eviction that began at `counter` has deleted `n` candidates. */
  ghost predicate Deleted(counter: int, maxTotal: int, list: seq<Candidate>, n: nat, s: State) {
    && n <= |list|
    && s.worker == Evicting(list[n..], counter - maxTotal + maxTotal / 10, Freed(list, n))
    && (n > 0 ==> counter - Freed(list, n - 1) > maxTotal - maxTotal / 10)
  }

  lemma DeletedKept(counter: int, maxTotal: int, list: seq<Candidate>, n: nat, s: State, a: Step)
    requires Deleted(counter, maxTotal, list, n, s) && Enabled(s, a) && !a.Subtract?
    ensures Deleted(counter, maxTotal, list, if a.DeleteNext? then n + 1 else n, Do(s, a))
  {
    hide Total, Oldest, SizeOf;
    if a.DeleteNext? {
      OneMore(s.rows, list, n);
    }
  }

  lemma {:induction false} DeletedRun(counter: int, maxTotal: int, list: seq<Candidate>, n: nat, s: State,
                                      steps: seq<Step>, t: State) returns (m: nat)
    requires Deleted(counter, maxTotal, list, n, s) && Run(s, steps, t) && Subtract !in steps
    ensures Deleted(counter, maxTotal, list, m, t)
    decreases |steps|
  {
    hide Enabled, Do, Deleted;
    if steps == [] {
      m := n;
    } else {
      DeletedKept(counter, maxTotal, list, n, s, steps[0]);
      var next := if steps[0].DeleteNext? then n + 1 else n;
      m := DeletedRun(counter, maxTotal, list, next, Do(s, steps[0]), steps[1..], t);
    }
  }

  /**
   Whatever other goroutines do during an eviction, it has deleted some `n` of its candidates, the
   oldest first, and will subtract their bytes; it goes on while there are more and the counter at its
   start less those bytes leaves too little room, so that it never deletes one more than it takes.
   */
  lemma EvictsNoMore(s: State, maxTotal: int, list: seq<Candidate>, steps: seq<Step>, t: State) returns (n: nat)
    requires Enabled(s, StartEvict(maxTotal, list)) && Run(Do(s, StartEvict(maxTotal, list)), steps, t)
    requires Subtract !in steps
    ensures n <= |list| && Enabled(t, Subtract) && Do(t, Subtract).counter == t.counter - Freed(list, n)
    ensures Enabled(t, DeleteNext) <==> n < |list| && s.counter - Freed(list, n) > maxTotal - maxTotal / 10
    ensures Enabled(t, DeleteNext) ==> Do(t, DeleteNext).rows == t.rows - {list[n].id}
    ensures n > 0 ==> s.counter - Freed(list, n - 1) > maxTotal - maxTotal / 10
  {
    NoneDeleted(s.rows, list);
    hide Total, Oldest, Freed, IDs;
    var u := Do(s, StartEvict(maxTotal, list));
    assert Deleted(s.counter, maxTotal, list, 0, u) by {
      assert list[0..] == list;
    }
    n := DeletedRun(s.counter, maxTotal, list, 0, u, steps, t);
  }

  // ----- When they are not kept apart --------------------------------------------------------------------

  /**
   A batch that is committed and counted between the cutover and the reset of a rotation
   is stored but no longer counted.
   */
  lemma RotationLosesBytes(s: State, e: Entry) returns (steps: seq<Step>, t: State)
    requires Covered(s) && s.worker.Idle? && s.resets == 0 && e.size > 0
    ensures Run(s, steps, t) && t.worker.Idle? && t.resets == 0 && t.counter == 0 && Total(t.rows) == e.size
  {
    hide Total, Gone, Listed;
    var s1 := Do(s, CutOver);
    OneEntry(e);
    TotalUpsert(map[], e);
    NoRows();
    var s2 := Do(s1, Commit([e]));
    var s3 := Do(s2, Count);
    t := Do(s3, Reset);
    steps := [CutOver, Commit([e]), Count, Reset];
    FourSteps(s, CutOver, Commit([e]), Count, Reset);
  }

  lemma OneEntry(e: Entry)
    ensures Stored(map[], [e]) == Upserted(map[], e) && Bytes([e]) == e.size
  {
    var batch := [e];
    assert batch[..|batch| - 1] == [] && batch[|batch| - 1] == e;
    assert Bytes(batch[..|batch| - 1]) == 0 && Stored(map[], batch[..|batch| - 1]) == map[];
  }

  /** An eviction that a rotation overtakes subtracts what the reset had already forgotten. */
  lemma RotationOvertakesEviction(s: State, maxTotal: int, list: seq<Candidate>) returns (t: State)
    requires Covered(s) && s.resets == 0 && Enabled(s, StartEvict(maxTotal, list)) && list != [] && list[0].size > 0
    ensures Run(s, [StartEvict(maxTotal, list), DeleteNext, CutOver, Reset, Subtract], t)
    ensures t.worker.Idle? && t.counter + list[0].size == 0 && Total(t.rows) == 0
  {
    hide Total, Gone, Listed, Oldest;
    NoRows();
    var s1 := Do(s, StartEvict(maxTotal, list));
    var s4 := Do(Do(Do(s1, DeleteNext), CutOver), Reset);
    t := Do(s4, Subtract);
    FourSteps(s1, DeleteNext, CutOver, Reset, Subtract);
    var steps := [StartEvict(maxTotal, list), DeleteNext, CutOver, Reset, Subtract];
    assert steps[1..] == [DeleteNext, CutOver, Reset, Subtract];
  }

  lemma FourSteps(s: State, a: Step, b: Step, c: Step, d: Step)
    requires Enabled(s, a) && Enabled(Do(s, a), b) && Enabled(Do(Do(s, a), b), c) && Enabled(Do(Do(Do(s, a), b), c), d)
    ensures Run(s, [a, b, c, d], Do(Do(Do(Do(s, a), b), c), d))
  {
    hide Enabled, Do;
    var t := Do(Do(Do(Do(s, a), b), c), d);
    assert [a, b, c, d][1..] == [b, c, d] && [b, c, d][1..] == [c, d] && [c, d][1..] == [d] && [d][1..] == [];
    assert Run(t, [], t);
    assert Run(Do(Do(Do(s, a), b), c), [d], t);
    assert Run(Do(Do(s, a), b), [c, d], t);
    assert Run(Do(s, a), [b, c, d], t);
  }
}
