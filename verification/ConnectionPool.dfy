/**
 Slot accounting of the connection pool.  Any number of threads run Get, Put, the
 monitor and Close; they are interleaved at their atomic loads and stores and their
 channel operations, with the load and the compare-and-swap of a reservation as two
 steps.
 */
module ConnectionPool {

  /** Who reserves a slot; the monitor has `left` connections to go. */
  datatype Owner = Getter | Monitor(left: nat)

  /** Where a thread is. */
  datatype Place =
    | Outside
    | GetTop              // about to load the closed flag
    | GetTake             // at the select that does not block
    | GetWait             // at the select that blocks
    | GetPing             // has taken a connection
    | Load(owner: Owner)  // about to load the count
    | CompareAndSwap(owner: Owner, seen: int)
    | Build(owner: Owner) // has reserved a slot, and opens a connection
    | PutCheck            // has a connection to put back
    | PutSend
    | MonitorTop
    | MonitorIdle         // about to load the number of idle connections
    | MonitorOpen(idle: nat)     // about to load the count
    | MonitorSend(left: nat)     // has a new connection for the channel, one of `left`
    | MonitorExcess       // about to load the number of idle connections again
    | MonitorShrink(left: nat)   // has `left` idle connections to close
    | CloseTop
    | CloseSignal
    | CloseDrain
    | CloseWait
    | Release(next: Place)  // has closed its connection, about to lower the count

  datatype Pool = Pool(
    max: nat,
    minIdle: nat,
    count: int,      // numConnections
    idle: nat,       // connections in the channel
    held: nat,       // connections that callers hold between Get and Put
    closed: bool,
    done: bool,
    sealed: bool,    // Close has closed the channel
    threads: seq<Place>)

  datatype Move =
    | BeginGet | BeginPut | BeginTick | BeginClose
    | SeeClosed | SeeOpen | Recycle
    | TakeIdle | SeeDone | Default | Cancelled
    | Healthy | Unhealthy
    | LoadCount | Swap
    | Built | BuildFailed
    | Send
    | Decrement
    | LoadIdle
    | SetClosed | CloseDone | CloseChannel(timedOut: bool)

  /** Whether a move can be taken from a place; `Default` is the branch of a select for when no other is ready. */
  predicate Enabled(p: Pool, t: nat, m: Move) {
    && t < |p.threads| && !p.sealed
    && var at := p.threads[t];
       match m
       case BeginGet => at.Outside?
       case BeginPut => at.Outside? && p.held > 0
       case BeginTick => at.Outside?
       case BeginClose => at.Outside?
       case SeeClosed => p.closed && (at.GetTop? || at.PutCheck? || at.MonitorTop? || at.CloseTop?)
       case SeeOpen => !p.closed && (at.GetTop? || at.PutCheck? || at.MonitorTop?)
       case Recycle => !p.closed && at.PutCheck?
       case TakeIdle => p.idle > 0 && (at.GetTake? || at.GetWait? || at.MonitorShrink? || at.CloseDrain?)
       case SeeDone => p.done && (at.GetTake? || at.GetWait? || at.PutSend?)
       case Default => CanDefault(p, at)
       case Cancelled => at.GetWait?
       case Healthy => at.GetPing?
       case Unhealthy => at.GetPing?
       case LoadCount => at.Load? || at.MonitorOpen?
       case LoadIdle => at.MonitorIdle? || at.MonitorExcess?
       case Swap => at.CompareAndSwap?
       case Built => at.Build?
       case BuildFailed => at.Build?
       case Send => p.idle < p.max && (at.PutSend? || at.MonitorSend?)
       case Decrement => at.Release?
       case SetClosed => !p.closed && at.CloseTop?
       case CloseDone => at.CloseSignal?
       case CloseChannel(timedOut) => at.CloseWait? && (timedOut || p.count == 0)
  }

  predicate CanDefault(p: Pool, at: Place) {
    match at
    case GetTake => p.idle == 0 && !p.done
    case PutSend => p.idle >= p.max && !p.done
    case MonitorSend(_) => p.idle >= p.max
    case MonitorShrink(_) => p.idle == 0
    case CloseDrain => p.idle == 0
    case _ => false
  }

  /** Where the monitor goes when it has `left` connections to open. */
  function Growing(left: int): Place {
    if left > 0 then Load(Monitor(left)) else MonitorExcess
  }

  /** Where the monitor goes when it has `left` idle connections to close. */
  function Shrinking(left: int): Place {
    if left > 0 then MonitorShrink(left) else Outside
  }

  function Min(a: int, b: int): int {
    if a <= b then a else b
  }

  function Moved(p: Pool, t: nat, to: Place): Pool
    requires t < |p.threads|
  {
    p.(threads := p.threads[t := to])
  }

  function Do(p: Pool, t: nat, m: Move): Pool
    requires Enabled(p, t, m)
  {
    var at := p.threads[t];
    match m
    case BeginGet => Moved(p, t, GetTop)
    case BeginPut => Moved(p.(held := p.held - 1), t, PutCheck)
    case BeginTick => Moved(p, t, MonitorTop)
    case BeginClose => Moved(p, t, CloseTop)
    case SeeClosed => Moved(p, t, if at.PutCheck? then Release(Outside) else Outside)
    case SeeOpen =>
      Moved(p, t, if at.GetTop? then GetTake else if at.PutCheck? then PutSend else MonitorIdle)
    case Recycle => Moved(p, t, Release(Outside))
    case TakeIdle =>
      Moved(p.(idle := p.idle - 1), t,
            if at.GetTake? || at.GetWait? then GetPing
            else if at.MonitorShrink? then Release(Shrinking(at.left - 1))
            else Release(at))
    case SeeDone => Moved(p, t, if at.PutSend? then Release(Outside) else Outside)
    case Default =>
      Moved(p, t,
            match at
            case GetTake => Load(Getter)
            case PutSend => Release(Outside)
            case MonitorSend(left) => Release(Growing(left - 1))
            case CloseDrain => CloseWait
            case _ => Outside)
    case Cancelled => Moved(p, t, Outside)
    case Healthy => Moved(p.(held := p.held + 1), t, Outside)
    case Unhealthy => Moved(p, t, Release(GetTop))
    case LoadCount =>
      Moved(p, t,
            if at.MonitorOpen? then Growing(Min(p.minIdle - at.idle, p.max - p.count))
            else if p.count < p.max then CompareAndSwap(at.owner, p.count)
            else if at.owner.Getter? then GetWait else MonitorExcess)
    case LoadIdle => Moved(p, t, if at.MonitorIdle? then MonitorOpen(p.idle) else Shrinking(p.idle - p.minIdle))
    case Swap =>
      if p.count == at.seen then Moved(p.(count := p.count + 1), t, Build(at.owner))
      else Moved(p, t, Load(at.owner))
    case Built =>
      if at.owner.Getter? then Moved(p.(held := p.held + 1), t, Outside) else Moved(p, t, MonitorSend(at.owner.left))
    case BuildFailed => Moved(p, t, Release(if at.owner.Getter? then Outside else MonitorExcess))
    case Send =>
      Moved(p.(idle := p.idle + 1), t, if at.PutSend? then Outside else Growing(at.left - 1))
    case Decrement => Moved(p.(count := p.count - 1), t, at.next)
    case SetClosed => Moved(p.(closed := true), t, CloseSignal)
    case CloseDone => Moved(p.(done := true), t, CloseDrain)
    case CloseChannel(_) => Moved(p.(sealed := true), t, Outside)
  }

  // ----- Accounting -----------------------------------------------------------------------------

  /** Whether a thread owns a slot: a connection in hand, one under construction, or a count it has yet to lower. */
  function Owns(at: Place): nat {
    if at.GetPing? || at.Build? || at.PutCheck? || at.PutSend? || at.MonitorSend? || at.Release? then 1 else 0
  }

  function Owned(threads: seq<Place>): nat {
    if threads == [] then 0 else Owned(threads[..|threads| - 1]) + Owns(threads[|threads| - 1])
  }

  /** Where a thread goes after lowering the count it owns nothing and waits for nothing; a swap expects a free slot. */
  predicate Proper(max: nat, at: Place) {
    && (at.Release? ==> Owns(at.next) == 0 && !at.next.CompareAndSwap? && !at.next.GetWait?)
    && (at.CompareAndSwap? ==> at.seen < max)
  }

  ghost predicate Accounted(p: Pool) {
    && p.count == p.idle + p.held + Owned(p.threads)
    && p.count <= p.max
    && forall t :: 0 <= t < |p.threads| ==> Proper(p.max, p.threads[t])
  }

  lemma {:induction false} OwnedUpdate(threads: seq<Place>, t: nat, to: Place)
    requires t < |threads|
    ensures Owned(threads[t := to]) == Owned(threads) - Owns(threads[t]) + Owns(to)
  {
    var k := |threads| - 1;
    if t == k {
      assert threads[t := to][..k] == threads[..k];
    } else {
      assert threads[t := to][..k] == threads[..k][t := to];
      OwnedUpdate(threads[..k], t, to);
    }
  }

  lemma {:induction false} OwnedAtLeast(threads: seq<Place>, t: nat)
    requires t < |threads|
    ensures Owned(threads) >= Owns(threads[t])
  {
    OwnedUpdate(threads, t, Outside);
  }

  /** Every move of every thread keeps the account. */
  lemma Kept(p: Pool, t: nat, m: Move)
    requires Accounted(p) && Enabled(p, t, m)
    ensures Accounted(Do(p, t, m))
  {
    hide Owned;
    var q := Do(p, t, m);
    OwnedUpdate(p.threads, t, q.threads[t]);
    assert q.threads == p.threads[t := q.threads[t]];
    assert Proper(p.max, p.threads[t]);
  }

  ghost predicate Run(p: Pool, moves: seq<(nat, Move)>, q: Pool)
    decreases |moves|
  {
    if moves == [] then q == p
    else Enabled(p, moves[0].0, moves[0].1) && Run(Do(p, moves[0].0, moves[0].1), moves[1..], q)
  }

  function New(max: nat, minIdle: nat, threads: nat): Pool {
    Pool(max, minIdle, 0, 0, 0, false, false, false, seq(threads, _ => Outside))
  }

  lemma {:induction false} NoneOwned(n: nat)
    ensures Owned(seq(n, _ => Outside)) == 0
  {
    if n == 0 {
    } else {
      NoneOwned(n - 1);
      assert seq(n, _ => Outside)[..n - 1] == seq(n - 1, _ => Outside);
    }
  }

  lemma {:induction false} RunKeeps(p: Pool, moves: seq<(nat, Move)>, q: Pool)
    requires Accounted(p) && Run(p, moves, q)
    ensures Accounted(q)
    decreases |moves|
  {
    hide Accounted, Enabled, Do;
    if moves == [] {
    } else {
      Kept(p, moves[0].0, moves[0].1);
      RunKeeps(Do(p, moves[0].0, moves[0].1), moves[1..], q);
    }
  }

  /**
   In every interleaving, until Close closes the channel and at the moment it does: the
   count is the connections in the channel, those that callers hold, and those that a
   thread has in hand or under construction; and it never exceeds the maximum.
   */
  lemma CountExact(max: nat, minIdle: nat, threads: nat, moves: seq<(nat, Move)>, p: Pool)
    requires Run(New(max, minIdle, threads), moves, p)
    ensures p.count == p.idle + p.held + Owned(p.threads)
    ensures p.count <= max && p.idle + p.held <= max
  {
    NoneOwned(threads);
    RunKeeps(New(max, minIdle, threads), moves, p);
    MaxKept(New(max, minIdle, threads), moves, p);
  }

  lemma {:induction false} MaxKept(p: Pool, moves: seq<(nat, Move)>, q: Pool)
    requires Run(p, moves, q)
    ensures q.max == p.max
    decreases |moves|
  {
    if moves == [] {
    } else {
      MaxKept(Do(p, moves[0].0, moves[0].1), moves[1..], q);
    }
  }

  predicate Harmless(next: Place) {
    !next.CloseSignal? && !next.Release?
  }

  /** Close signals only after it has marked the pool closed. */
  ghost predicate SignalsLast(p: Pool) {
    && (p.done ==> p.closed)
    && forall t :: 0 <= t < |p.threads| ==> !(p.threads[t].CloseSignal? && !p.closed)
                                            && !(p.threads[t].Release? && !Harmless(p.threads[t].next))
  }

  lemma SignalsKept(p: Pool, t: nat, m: Move)
    requires SignalsLast(p) && Enabled(p, t, m)
    ensures SignalsLast(Do(p, t, m))
  {
    hide Owned;
    var q := Do(p, t, m);
    assert q.threads == p.threads[t := q.threads[t]];
  }

  lemma {:induction false} DoneIsClosed(p: Pool, moves: seq<(nat, Move)>, q: Pool)
    requires SignalsLast(p) && Run(p, moves, q)
    ensures SignalsLast(q)
    decreases |moves|
  {
    hide SignalsLast, Enabled, Do;
    if moves == [] {
    } else {
      SignalsKept(p, moves[0].0, moves[0].1);
      DoneIsClosed(Do(p, moves[0].0, moves[0].1), moves[1..], q);
    }
  }

  /** Neither Put nor the monitor ever finds the channel full. */
  lemma NeverFull(max: nat, minIdle: nat, threads: nat, moves: seq<(nat, Move)>, p: Pool, t: nat)
    requires Run(New(max, minIdle, threads), moves, p)
    requires t < |p.threads| && (p.threads[t].PutSend? || p.threads[t].MonitorSend?)
    ensures p.idle < p.max && !CanDefault(p, p.threads[t])
  {
    CountExact(max, minIdle, threads, moves, p);
    MaxKept(New(max, minIdle, threads), moves, p);
    OwnedAtLeast(p.threads, t);
  }

  /**
   When Close finds the count at zero, no connection is left anywhere: none idle, held, in hand or
   under construction.
   */
  lemma CloseFindsNone(max: nat, minIdle: nat, threads: nat, moves: seq<(nat, Move)>, p: Pool, t: nat)
    requires Run(New(max, minIdle, threads), moves, p)
    requires Enabled(p, t, CloseChannel(false))
    ensures p.idle == 0 && p.held == 0
    ensures forall u :: 0 <= u < |p.threads| ==> Owns(p.threads[u]) == 0
  {
    CountExact(max, minIdle, threads, moves, p);
    forall u | 0 <= u < |p.threads| ensures Owns(p.threads[u]) == 0 {
      OwnedAtLeast(p.threads, u);
    }
  }

  /** A failed swap shows that another thread has moved the count; it never loses or invents a slot. */
  lemma SwapExact(p: Pool, t: nat)
    requires Accounted(p) && Enabled(p, t, Swap)
    ensures Do(p, t, Swap).count == p.count + Owns(Do(p, t, Swap).threads[t])
    ensures Do(p, t, Swap).threads[t].Build? <==> p.threads[t].seen == p.count
    ensures Do(p, t, Swap).threads[t].Build? ==> p.count < p.max
  {
    assert Proper(p.max, p.threads[t]);
  }
}
