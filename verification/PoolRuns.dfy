/**
 What Get, Put, a tick of the monitor and Close do when no other thread moves meanwhile:
 exactly which pools they can leave.
 */
module PoolRuns {
  import opened ConnectionPool

  /** Thread `t` makes all the moves, and comes back with the last one. */
  ghost predicate Alone(p: Pool, t: nat, moves: seq<Move>, q: Pool)
    decreases |moves|
  {
    && moves != []
    && Enabled(p, t, moves[0])
    && if Do(p, t, moves[0]).threads[t].Outside? then moves[1..] == [] && q == Do(p, t, moves[0])
       else Alone(Do(p, t, moves[0]), t, moves[1..], q)
  }

  /** Thread `t` can come back and leave `q`. */
  ghost predicate Returns(p: Pool, t: nat, q: Pool) {
    exists moves :: Alone(p, t, moves, q)
  }

  /** So it can by the move `m`. */
  ghost predicate ReturnsBy(p: Pool, t: nat, m: Move, q: Pool) {
    && Enabled(p, t, m)
    && var u := Do(p, t, m);
       if u.threads[t].Outside? then q == u else Returns(u, t, q)
  }

  lemma By(p: Pool, t: nat, m: Move, q: Pool)
    requires ReturnsBy(p, t, m, q)
    ensures Returns(p, t, q)
  {
    if Do(p, t, m).threads[t].Outside? {
      assert Alone(p, t, [m], q);
    } else {
      var moves :| Alone(Do(p, t, m), t, moves, q);
      assert ([m] + moves)[1..] == moves;
      assert Alone(p, t, [m] + moves, q);
    }
  }

  lemma FirstMove(p: Pool, t: nat, q: Pool) returns (m: Move)
    requires Returns(p, t, q)
    ensures ReturnsBy(p, t, m, q)
  {
    var moves :| Alone(p, t, moves, q);
    m := moves[0];
    if !Do(p, t, m).threads[t].Outside? {
      assert Alone(Do(p, t, m), t, moves[1..], q);
    }
  }

  /** Only this move can be made. */
  lemma OneMove(p: Pool, t: nat, m: Move, q: Pool)
    requires forall o :: Enabled(p, t, o) <==> o == m
    ensures Returns(p, t, q) <==> ReturnsBy(p, t, m, q)
  {
    hide Returns, Do, Enabled;
    if Returns(p, t, q) {
      var o := FirstMove(p, t, q);
    }
    if ReturnsBy(p, t, m, q) {
      By(p, t, m, q);
    }
  }

  /** Only these two moves can be made. */
  lemma TwoMoves(p: Pool, t: nat, a: Move, b: Move, q: Pool)
    requires forall o :: Enabled(p, t, o) <==> o == a || o == b
    ensures Returns(p, t, q) <==> ReturnsBy(p, t, a, q) || ReturnsBy(p, t, b, q)
  {
    hide Returns, Do, Enabled;
    if Returns(p, t, q) {
      var o := FirstMove(p, t, q);
    }
    if ReturnsBy(p, t, a, q) {
      By(p, t, a, q);
    }
    if ReturnsBy(p, t, b, q) {
      By(p, t, b, q);
    }
  }

  ghost predicate At(p: Pool, t: nat, at: Place) {
    t < |p.threads| && p.threads[t] == at && !p.sealed
  }

  /** The thread is back outside, and the pool counts these connections. */
  function Back(p: Pool, t: nat, count: int, idle: int, held: nat): Pool
    requires t < |p.threads| && idle >= 0
  {
    Moved(p.(count := count, idle := idle, held := held), t, Outside)
  }

  lemma BackAgain(p: Pool, t: nat, to: Place)
    requires t < |p.threads|
    ensures p.threads[t := to][t := Outside] == p.threads[t := Outside]
  {
  }

  /** A thread that has closed its connection lowers the count. */
  lemma FromRelease(p: Pool, t: nat, q: Pool)
    requires At(p, t, Release(Outside))
    ensures Returns(p, t, q) <==> q == Back(p, t, p.count - 1, p.idle, p.held)
  {
    hide Returns;
    OneMove(p, t, Decrement, q);
  }

  // ----- Get --------------------------------------------------------------------------

  lemma FromBuild(p: Pool, t: nat, q: Pool)
    requires At(p, t, Build(Getter))
    ensures Returns(p, t, q)
       <==> q == Back(p, t, p.count, p.idle, p.held + 1) || q == Back(p, t, p.count - 1, p.idle, p.held)
  {
    hide Returns;
    TwoMoves(p, t, Built, BuildFailed, q);
    FromRelease(Do(p, t, BuildFailed), t, q);
    BackAgain(p, t, Release(Outside));
  }

  lemma FromSwap(p: Pool, t: nat, q: Pool)
    requires At(p, t, CompareAndSwap(Getter, p.count))
    ensures Returns(p, t, q)
       <==> q == Back(p, t, p.count + 1, p.idle, p.held + 1) || q == Back(p, t, p.count, p.idle, p.held)
  {
    hide Returns;
    OneMove(p, t, Swap, q);
    FromBuild(Do(p, t, Swap), t, q);
    BackAgain(p, t, Build(Getter));
  }

  lemma FromWait(p: Pool, t: nat, q: Pool)
    requires At(p, t, GetWait) && p.idle == 0 && !p.done
    ensures Returns(p, t, q) <==> q == Back(p, t, p.count, p.idle, p.held)
  {
    hide Returns;
    OneMove(p, t, Cancelled, q);
  }

  lemma FromLoad(p: Pool, t: nat, q: Pool)
    requires At(p, t, Load(Getter)) && p.idle == 0 && !p.done
    ensures Returns(p, t, q)
       <==> || (p.count < p.max && q == Back(p, t, p.count + 1, 0, p.held + 1))
            || q == Back(p, t, p.count, 0, p.held)
  {
    hide Returns;
    OneMove(p, t, LoadCount, q);
    var u := Do(p, t, LoadCount);
    BackAgain(p, t, u.threads[t]);
    if p.count < p.max {
      FromSwap(u, t, q);
    } else {
      FromWait(u, t, q);
    }
  }

  /** After `failed` failed pings: an idle connection, else a new one if there is room, else none. */
  ghost predicate Got(p: Pool, t: nat, failed: nat, q: Pool)
    requires t < |p.threads|
  {
    var count := p.count - failed;
    if failed < p.idle then q == Back(p, t, count, p.idle - failed - 1, p.held + 1)
    else
      && failed == p.idle
      && ((count < p.max && q == Back(p, t, count + 1, 0, p.held + 1)) || q == Back(p, t, count, 0, p.held))
  }

  lemma FromPing(p: Pool, t: nat, q: Pool)
    requires At(p, t, GetPing)
    ensures Returns(p, t, q)
       <==> q == Back(p, t, p.count, p.idle, p.held + 1)
            || Returns(Moved(p.(count := p.count - 1), t, GetTop), t, q)
  {
    hide Returns;
    TwoMoves(p, t, Healthy, Unhealthy, q);
    var u := Do(p, t, Unhealthy);
    OneMove(u, t, Decrement, q);
    assert p.threads[t := Release(GetTop)][t := GetTop] == p.threads[t := GetTop];
  }

  lemma FromTake(p: Pool, t: nat, q: Pool)
    requires At(p, t, GetTop) && !p.closed && !p.done
    ensures p.idle == 0 ==> (Returns(p, t, q) <==> Got(p, t, 0, q))
    ensures p.idle > 0 ==>
              (Returns(p, t, q) <==> Got(p, t, 0, q)
                                     || Returns(p.(count := p.count - 1, idle := p.idle - 1), t, q))
  {
    hide Returns;
    OneMove(p, t, SeeOpen, q);
    var u := Do(p, t, SeeOpen);
    BackAgain(p, t, GetTake);
    if p.idle == 0 {
      OneMove(u, t, Default, q);
      var v := Do(u, t, Default);
      BackAgain(u, t, Load(Getter));
      FromLoad(v, t, q);
    } else {
      OneMove(u, t, TakeIdle, q);
      var v := Do(u, t, TakeIdle);
      BackAgain(u, t, GetPing);
      FromPing(v, t, q);
      assert v.threads[t := GetTop] == p.threads;
    }
  }

  lemma {:induction false} FromTop(p: Pool, t: nat, q: Pool)
    requires At(p, t, GetTop) && !p.closed && !p.done
    ensures Returns(p, t, q) <==> exists failed: nat :: Got(p, t, failed, q)
    decreases p.idle
  {
    hide Returns, Got;
    FromTake(p, t, q);
    if p.idle == 0 {
      NoneFails(p, t, q);
    } else {
      var u := p.(count := p.count - 1, idle := p.idle - 1);
      FromTop(u, t, q);
      OneFails(p, u, t, q);
    }
  }

  lemma NoneFails(p: Pool, t: nat, q: Pool)
    requires t < |p.threads| && p.idle == 0
    ensures Got(p, t, 0, q) <==> exists failed: nat :: Got(p, t, failed, q)
  {
  }

  lemma GotShifted(p: Pool, u: Pool, t: nat, failed: nat, q: Pool)
    requires t < |p.threads| && p.idle > 0 && u == p.(count := p.count - 1, idle := p.idle - 1)
    ensures Got(u, t, failed, q) <==> Got(p, t, failed + 1, q)
  {
    hide Moved;
  }

  lemma OneFails(p: Pool, u: Pool, t: nat, q: Pool)
    requires t < |p.threads| && p.idle > 0 && u == p.(count := p.count - 1, idle := p.idle - 1)
    ensures (Got(p, t, 0, q) || exists failed: nat :: Got(u, t, failed, q))
       <==> exists failed: nat :: Got(p, t, failed, q)
  {
    hide Got;
    if failed: nat :| Got(u, t, failed, q) {
      GotShifted(p, u, t, failed, q);
      assert Got(p, t, failed + 1, q);
    }
    if failed: nat :| Got(p, t, failed, q) {
      if failed > 0 {
        GotShifted(p, u, t, failed - 1, q);
        assert Got(u, t, failed - 1, q);
      }
    }
  }

  /**
   A thread that waits at the maximum goes on as soon as a connection is idle: it takes one whose ping
   succeeds, or opens one in the place of those whose ping failed; or its context ends.
   */
  lemma WaitExactly(p: Pool, t: nat, q: Pool)
    requires At(p, t, GetWait) && p.idle > 0 && !p.closed && !p.done
    ensures Returns(p, t, q)
       <==> q == Back(p, t, p.count, p.idle, p.held) || exists failed: nat :: Got(p, t, failed, q)
  {
    hide Returns, Got;
    TwoMoves(p, t, TakeIdle, Cancelled, q);
    var u := Do(p, t, TakeIdle);
    FromPing(u, t, q);
    BackAgain(p, t, GetPing);
    var v := Moved(p.(count := p.count - 1, idle := p.idle - 1), t, GetTop);
    assert Moved(u.(count := u.count - 1), t, GetTop) == v by {
      assert p.threads[t := GetPing][t := GetTop] == p.threads[t := GetTop];
    }
    FromTop(v, t, q);
    var w := p.(count := p.count - 1, idle := p.idle - 1);
    forall failed: nat ensures Got(v, t, failed, q) <==> Got(w, t, failed, q) {
      GotAnywhere(v, w, t, failed, q);
    }
    OneFails(p, w, t, q);
    assert Got(p, t, 0, q) <==> q == Back(p, t, p.count, p.idle - 1, p.held + 1) by {
      GotFirst(p, t, q);
    }
  }

  lemma GotFirst(p: Pool, t: nat, q: Pool)
    requires t < |p.threads| && p.idle > 0
    ensures Got(p, t, 0, q) <==> q == Back(p, t, p.count, p.idle - 1, p.held + 1)
  {
  }

  lemma GotAnywhere(p: Pool, u: Pool, t: nat, failed: nat, q: Pool)
    requires t < |u.threads| && p == Moved(u, t, GetTop)
    ensures Got(p, t, failed, q) <==> Got(u, t, failed, q)
  {
    BackAgain(u, t, GetTop);
  }

  /** A call that begins with `m`, in which only thread `t` moves, can leave `q`. */
  ghost predicate Leaves(p: Pool, t: nat, m: Move, q: Pool)
    requires Enabled(p, t, m)
  {
    Returns(Do(p, t, m), t, q)
  }

  /** A connection that was idle is handed out, after `failed` others failed their ping and were closed. */
  predicate HandsOutIdle(p: Pool, failed: nat, q: Pool) {
    && failed < p.idle
    && q == p.(count := p.count - failed, idle := p.idle - failed - 1, held := p.held + 1)
  }

  /** No ping succeeded, and a new connection is handed out. */
  predicate HandsOutNew(p: Pool, q: Pool) {
    && p.count - p.idle < p.max
    && q == p.(count := p.count - p.idle + 1, idle := 0, held := p.held + 1)
  }

  /** No ping succeeded, and opening failed, or the context ended while waiting. */
  predicate HandsOutNone(p: Pool, q: Pool) {
    q == p.(count := p.count - p.idle, idle := 0)
  }

  /**
   A Get on its own, over an open pool, hands out an idle connection whose ping succeeds and
   closes those whose ping fails; with none left it opens a new one if the count is below
   the maximum; and it returns without one only when none is idle any more.  A closed pool
   it leaves as it is.
   */
  lemma GetExactly(p: Pool, t: nat, q: Pool)
    requires At(p, t, Outside) && (p.done ==> p.closed)
    ensures p.closed ==> (Leaves(p, t, BeginGet, q) <==> q == p)
    ensures !p.closed ==>
              (Leaves(p, t, BeginGet, q) <==>
               (exists failed: nat :: HandsOutIdle(p, failed, q)) || HandsOutNew(p, q) || HandsOutNone(p, q))
  {
    hide Returns;
    var u := Do(p, t, BeginGet);
    BackAgain(p, t, GetTop);
    assert p.threads[t := Outside] == p.threads;
    if p.closed {
      OneMove(u, t, SeeClosed, q);
    } else {
      FromTop(u, t, q);
      forall failed: nat ensures Got(u, t, failed, q) <==>
        HandsOutIdle(p, failed, q) || (failed == p.idle && (HandsOutNew(p, q) || HandsOutNone(p, q)))
      {
      }
      hide Got, HandsOutIdle, HandsOutNew, HandsOutNone;
      if HandsOutNew(p, q) || HandsOutNone(p, q) {
        assert Got(u, t, p.idle, q);
      }
    }
  }

  /** In any interleaving, a thread comes to wait for a connection only by finding the count at the maximum. */
  lemma WaitsOnlyWhenFull(p: Pool, t: nat, m: Move)
    requires Accounted(p) && Enabled(p, t, m)
    requires Do(p, t, m).threads[t].GetWait?
    ensures m == LoadCount && p.count == p.max
  {
    assert Proper(p.max, p.threads[t]);
  }

  /**
   In any interleaving from a new pool, short of its context ending or of Close giving up, a thread
   cannot move exactly while it waits for a connection in an open pool with none idle, or waits in
   Close for connections that are still counted.
   */
  lemma StuckExactly(max: nat, minIdle: nat, threads: nat, moves: seq<(nat, Move)>, p: Pool, t: nat)
    requires Run(New(max, minIdle, threads), moves, p) && t < |p.threads| && !p.sealed
    ensures (forall m :: Enabled(p, t, m) ==> m == Cancelled || m == CloseChannel(true))
       <==> || (p.threads[t].GetWait? && p.idle == 0 && !p.done)
            || (p.threads[t].CloseWait? && p.count != 0)
  {
    NoneOwned(threads);
    RunKeeps(New(max, minIdle, threads), moves, p);
    DoneIsClosed(New(max, minIdle, threads), moves, p);
    StuckOnly(p, t);
  }

  lemma StuckOnly(p: Pool, t: nat)
    requires Accounted(p) && t < |p.threads| && !p.sealed && (p.done ==> p.closed)
    ensures (forall m :: Enabled(p, t, m) ==> m == Cancelled || m == CloseChannel(true))
       <==> || (p.threads[t].GetWait? && p.idle == 0 && !p.done)
            || (p.threads[t].CloseWait? && p.count != 0)
  {
    var m := ReadyMove(p, t);
    OwnedAtLeast(p.threads, t);
    if p.threads[t].GetWait? && p.idle == 0 && !p.done {
    } else if p.threads[t].CloseWait? && p.count != 0 {
    } else {
      assert Enabled(p, t, m);
    }
  }

  /** A move that the thread can make, if it can make any. */
  function ReadyMove(p: Pool, t: nat): Move
    requires t < |p.threads|
  {
    match p.threads[t]
    case Outside => BeginGet
    case GetTop => if p.closed then SeeClosed else SeeOpen
    case GetTake => if p.idle > 0 then TakeIdle else if p.done then SeeDone else Default
    case GetWait => if p.idle > 0 then TakeIdle else SeeDone
    case GetPing => Healthy
    case Load(_) => LoadCount
    case CompareAndSwap(_, _) => Swap
    case Build(_) => Built
    case PutCheck => if p.closed then SeeClosed else SeeOpen
    case PutSend => Send
    case MonitorTop => if p.closed then SeeClosed else SeeOpen
    case MonitorIdle => LoadIdle
    case MonitorOpen(_) => LoadCount
    case MonitorSend(_) => Send
    case MonitorExcess => LoadIdle
    case MonitorShrink(_) => if p.idle > 0 then TakeIdle else Default
    case CloseTop => if p.closed then SeeClosed else SetClosed
    case CloseSignal => CloseDone
    case CloseDrain => if p.idle > 0 then TakeIdle else Default
    case CloseWait => CloseChannel(false)
    case Release(_) => Decrement
  }

  // ----- Put --------------------------------------------------------------------------

  lemma FromSend(p: Pool, t: nat, q: Pool)
    requires At(p, t, PutSend) && !p.done
    ensures Returns(p, t, q) <==> if p.idle < p.max then q == Back(p, t, p.count, p.idle + 1, p.held)
                                  else q == Back(p, t, p.count - 1, p.idle, p.held)
  {
    hide Returns;
    if p.idle < p.max {
      OneMove(p, t, Send, q);
    } else {
      OneMove(p, t, Default, q);
      FromRelease(Do(p, t, Default), t, q);
      BackAgain(p, t, Release(Outside));
    }
  }

  lemma FromCheck(p: Pool, t: nat, q: Pool)
    requires At(p, t, PutCheck) && (p.done ==> p.closed)
    ensures Returns(p, t, q)
       <==> || q == Back(p, t, p.count - 1, p.idle, p.held)
            || (!p.closed && p.idle < p.max && q == Back(p, t, p.count, p.idle + 1, p.held))
  {
    hide Returns;
    BackAgain(p, t, Release(Outside));
    BackAgain(p, t, PutSend);
    if p.closed {
      OneMove(p, t, SeeClosed, q);
      FromRelease(Do(p, t, SeeClosed), t, q);
    } else {
      TwoMoves(p, t, SeeOpen, Recycle, q);
      FromSend(Do(p, t, SeeOpen), t, q);
      FromRelease(Do(p, t, Recycle), t, q);
    }
  }

  /**
   A Put on its own makes the connection idle or, as when it recycles, closes it; over a closed
   pool it always closes it.
   */
  lemma PutExactly(p: Pool, t: nat, q: Pool)
    requires At(p, t, Outside) && p.held > 0 && (p.done ==> p.closed)
    ensures Leaves(p, t, BeginPut, q)
       <==> || q == p.(count := p.count - 1, held := p.held - 1)
            || (!p.closed && p.idle < p.max && q == p.(idle := p.idle + 1, held := p.held - 1))
  {
    hide Returns;
    FromCheck(Do(p, t, BeginPut), t, q);
    BackAgain(p, t, PutCheck);
    assert p.threads[t := Outside] == p.threads;
  }

  // ----- A tick of the monitor ----------------------------------------------------------

  /** One connection is closed, and `left` more follow. */
  lemma CloseOne(p: Pool, t: nat, left: nat, q: Pool)
    requires At(p, t, MonitorShrink(left)) && 0 < left <= p.idle
    ensures left > 1 ==>
              (Returns(p, t, q) <==>
               Returns(Moved(p.(count := p.count - 1, idle := p.idle - 1), t, MonitorShrink(left - 1)), t, q))
    ensures left == 1 ==> (Returns(p, t, q) <==> q == Back(p, t, p.count - 1, p.idle - 1, p.held))
  {
    hide Returns;
    OneMove(p, t, TakeIdle, q);
    var u := Do(p, t, TakeIdle);
    var to := Shrinking(left - 1);
    OneMove(u, t, Decrement, q);
    assert p.threads[t := Release(to)][t := to] == p.threads[t := to];
  }

  lemma {:induction false} FromShrink(p: Pool, t: nat, left: nat, q: Pool)
    requires At(p, t, MonitorShrink(left)) && 0 < left <= p.idle
    ensures Returns(p, t, q) <==> q == Back(p, t, p.count - left, p.idle - left, p.held)
    decreases left
  {
    hide Returns;
    CloseOne(p, t, left, q);
    if left > 1 {
      FromShrink(Moved(p.(count := p.count - 1, idle := p.idle - 1), t, MonitorShrink(left - 1)), t, left - 1, q);
      BackAgain(p, t, MonitorShrink(left - 1));
    }
  }

  function Excess(p: Pool): nat {
    if p.idle > p.minIdle then p.idle - p.minIdle else 0
  }

  lemma FromExcess(p: Pool, t: nat, q: Pool)
    requires At(p, t, MonitorExcess)
    ensures Returns(p, t, q) <==> q == Back(p, t, p.count - Excess(p), p.idle - Excess(p), p.held)
  {
    hide Returns;
    OneMove(p, t, LoadIdle, q);
    if Excess(p) > 0 {
      FromShrink(Do(p, t, LoadIdle), t, Excess(p), q);
      BackAgain(p, t, MonitorShrink(Excess(p)));
    }
  }

  /** One connection is opened and `left` more follow, or opening fails. */
  lemma OpenOne(p: Pool, t: nat, left: nat, q: Pool)
    requires At(p, t, Load(Monitor(left))) && 0 < left && p.idle < p.minIdle <= p.max && p.count < p.max
    ensures var more := Moved(p.(count := p.count + 1, idle := p.idle + 1), t, Growing(left - 1));
            Returns(p, t, q) <==> q == Back(p, t, p.count, p.idle, p.held) || Returns(more, t, q)
  {
    hide Returns;
    OneMove(p, t, LoadCount, q);
    var u := Do(p, t, LoadCount);
    OneMove(u, t, Swap, q);
    var v := Do(u, t, Swap);
    BuildOne(v, t, left, q);
    assert v.threads == p.threads[t := Build(Monitor(left))];
    assert v.threads[t := Outside] == p.threads[t := Outside];
    assert v.threads[t := Growing(left - 1)] == p.threads[t := Growing(left - 1)];
  }

  lemma SendOne(p: Pool, t: nat, left: nat, q: Pool)
    requires At(p, t, MonitorSend(left)) && 0 < left && p.idle < p.max
    ensures Returns(p, t, q) <==> Returns(Moved(p.(idle := p.idle + 1), t, Growing(left - 1)), t, q)
  {
    hide Returns;
    OneMove(p, t, Send, q);
  }

  lemma FailOne(p: Pool, t: nat, q: Pool)
    requires At(p, t, Release(MonitorExcess)) && p.idle < p.minIdle
    ensures Returns(p, t, q) <==> q == Back(p, t, p.count - 1, p.idle, p.held)
  {
    hide Returns;
    OneMove(p, t, Decrement, q);
    FromExcess(Do(p, t, Decrement), t, q);
    BackAgain(p, t, MonitorExcess);
  }

  lemma BuildOne(p: Pool, t: nat, left: nat, q: Pool)
    requires At(p, t, Build(Monitor(left))) && 0 < left && p.idle < p.minIdle <= p.max
    ensures Returns(p, t, q) <==> q == Back(p, t, p.count - 1, p.idle, p.held)
                                  || Returns(Moved(p.(idle := p.idle + 1), t, Growing(left - 1)), t, q)
  {
    hide Returns, Growing;
    TwoMoves(p, t, Built, BuildFailed, q);
    SendOne(Do(p, t, Built), t, left, q);
    FailOne(Do(p, t, BuildFailed), t, q);
    BackAgain(p, t, Release(MonitorExcess));
    assert p.threads[t := MonitorSend(left)][t := Growing(left - 1)] == p.threads[t := Growing(left - 1)];
  }

  /** The monitor opened `n` connections and made them idle. */
  ghost predicate Grown(p: Pool, t: nat, n: nat, q: Pool)
    requires t < |p.threads|
  {
    q == Back(p, t, p.count + n, p.idle + n, p.held)
  }

  lemma {:induction false} FromGrow(p: Pool, t: nat, left: nat, q: Pool)
    requires At(p, t, Growing(left)) && p.idle + left <= p.minIdle <= p.max && p.count + left <= p.max
    ensures Returns(p, t, q) <==> exists n: nat :: n <= left && Grown(p, t, n, q)
    decreases left
  {
    hide Returns;
    if left == 0 {
      FromExcess(p, t, q);
      assert Grown(p, t, 0, q) <==> Returns(p, t, q);
    } else {
      var u := Moved(p.(count := p.count + 1, idle := p.idle + 1), t, Growing(left - 1));
      OpenOne(p, t, left, q);
      FromGrow(u, t, left - 1, q);
      GrownShifted(p, u, t, left, q);
    }
  }

  lemma GrownShifted(p: Pool, u: Pool, t: nat, left: nat, q: Pool)
    requires t < |p.threads| && left > 0
    requires u == Moved(p.(count := p.count + 1, idle := p.idle + 1), t, Growing(left - 1))
    ensures (exists n: nat :: n <= left && Grown(p, t, n, q))
       <==> q == Back(p, t, p.count, p.idle, p.held) || exists n: nat :: n <= left - 1 && Grown(u, t, n, q)
  {
    BackAgain(p, t, Growing(left - 1));
    assert forall n: nat :: Grown(u, t, n, q) <==> Grown(p, t, n + 1, q);
    assert Grown(p, t, 0, q) <==> q == Back(p, t, p.count, p.idle, p.held);
    hide Grown;
    if n: nat :| n <= left && Grown(p, t, n, q) {
      if n > 0 {
        assert Grown(u, t, n - 1, q);
      }
    }
    if n: nat :| n <= left - 1 && Grown(u, t, n, q) {
      assert Grown(p, t, n + 1, q);
    }
  }

  lemma FromTick(p: Pool, t: nat, q: Pool)
    requires At(p, t, MonitorTop) && !p.closed
    ensures Returns(p, t, q)
       <==> Returns(Moved(p, t, Growing(Min(p.minIdle - p.idle, p.max - p.count))), t, q)
  {
    hide Returns, Growing;
    OneMove(p, t, SeeOpen, q);
    var u := Do(p, t, SeeOpen);
    OneMove(u, t, LoadIdle, q);
    var v := Do(u, t, LoadIdle);
    OneMove(v, t, LoadCount, q);
    var to := Growing(Min(p.minIdle - p.idle, p.max - p.count));
    GrowingInside(Min(p.minIdle - p.idle, p.max - p.count));
    assert p.threads[t := MonitorIdle][t := MonitorOpen(p.idle)][t := to] == p.threads[t := to];
  }

  lemma GrowingInside(left: int)
    ensures !Growing(left).Outside?
  {
  }

  /** The pool has `n` more connections, all idle. */
  predicate Opened(p: Pool, n: nat, q: Pool) {
    q == p.(count := p.count + n, idle := p.idle + n)
  }

  /**
   A tick on its own opens as many connections as the pool is below its minimum of idle ones and
   the maximum allows, or fewer when opening one fails; or it closes all above the minimum.
   */
  lemma TickExactly(p: Pool, t: nat, q: Pool)
    requires At(p, t, Outside) && p.minIdle <= p.max && p.count <= p.max
    ensures p.closed ==> (Leaves(p, t, BeginTick, q) <==> q == p)
    ensures !p.closed && p.idle >= p.minIdle ==>
              (Leaves(p, t, BeginTick, q) <==> q == p.(count := p.count - (p.idle - p.minIdle), idle := p.minIdle))
    ensures !p.closed && p.idle < p.minIdle ==>
              (Leaves(p, t, BeginTick, q) <==>
               exists n: nat :: n <= Min(p.minIdle - p.idle, p.max - p.count) && Opened(p, n, q))
  {
    hide Returns;
    var u := Do(p, t, BeginTick);
    assert p.threads[t := Outside] == p.threads;
    BackAgain(p, t, MonitorTop);
    if p.closed {
      OneMove(u, t, SeeClosed, q);
    } else {
      FromTick(u, t, q);
      var left := Min(p.minIdle - p.idle, p.max - p.count);
      AfterTick(p, Moved(u, t, Growing(left)), t, q);
    }
  }

  lemma AfterTick(p: Pool, u: Pool, t: nat, q: Pool)
    requires At(p, t, Outside) && p.minIdle <= p.max && p.count <= p.max
    requires At(u, t, Growing(Min(p.minIdle - p.idle, p.max - p.count))) && u == p.(threads := u.threads)
    requires u.threads[t := Outside] == p.threads
    ensures p.idle >= p.minIdle ==>
              (Returns(u, t, q) <==> q == p.(count := p.count - (p.idle - p.minIdle), idle := p.minIdle))
    ensures p.idle < p.minIdle ==>
              (Returns(u, t, q) <==>
               exists n: nat :: n <= Min(p.minIdle - p.idle, p.max - p.count) && Opened(p, n, q))
  {
    hide Returns;
    if p.idle >= p.minIdle {
      FromExcess(u, t, q);
    } else {
      FromGrow(u, t, Min(p.minIdle - p.idle, p.max - p.count), q);
      assert forall n: nat :: Grown(u, t, n, q) <==> Opened(p, n, q);
      hide Grown, Opened;
    }
  }

  // ----- Close --------------------------------------------------------------------------

  /** The channel is closed, after the connections that were idle. */
  function Sealed(p: Pool, t: nat): Pool
    requires t < |p.threads|
  {
    Back(p, t, p.count - p.idle, 0, p.held).(sealed := true)
  }

  lemma {:induction false} FromDrain(p: Pool, t: nat, q: Pool)
    requires At(p, t, CloseDrain)
    ensures Returns(p, t, q) <==> q == Sealed(p, t)
    decreases p.idle
  {
    hide Returns;
    if p.idle == 0 {
      OneMove(p, t, Default, q);
      FromCloseWait(Do(p, t, Default), t, q);
      BackAgain(p, t, CloseWait);
    } else {
      OneMove(p, t, TakeIdle, q);
      var u := Do(p, t, TakeIdle);
      OneMove(u, t, Decrement, q);
      var v := Do(u, t, Decrement);
      FromDrain(v, t, q);
      assert v.threads == p.threads;
    }
  }

  lemma FromCloseWait(p: Pool, t: nat, q: Pool)
    requires At(p, t, CloseWait) && p.idle == 0
    ensures Returns(p, t, q) <==> q == Sealed(p, t)
  {
    hide Returns;
    if p.count == 0 {
      TwoMoves(p, t, CloseChannel(true), CloseChannel(false), q);
    } else {
      OneMove(p, t, CloseChannel(true), q);
    }
  }

  lemma FromSignal(p: Pool, t: nat, q: Pool)
    requires At(p, t, CloseSignal)
    ensures Returns(p, t, q) <==> q == Sealed(p.(done := true), t)
  {
    hide Returns;
    OneMove(p, t, CloseDone, q);
    FromDrain(Do(p, t, CloseDone), t, q);
    BackAgain(p, t, CloseDrain);
  }

  /** A Close on its own closes every idle connection and then the channel; a second one changes nothing. */
  lemma CloseExactly(p: Pool, t: nat, q: Pool)
    requires At(p, t, Outside)
    ensures Leaves(p, t, BeginClose, q)
       <==> q == if p.closed then p
                 else p.(closed := true, done := true, sealed := true, count := p.count - p.idle, idle := 0)
  {
    hide Returns;
    var u := Do(p, t, BeginClose);
    assert p.threads[t := Outside] == p.threads;
    BackAgain(p, t, CloseTop);
    if p.closed {
      OneMove(u, t, SeeClosed, q);
    } else {
      OneMove(u, t, SetClosed, q);
      FromSignal(Do(u, t, SetClosed), t, q);
      BackAgain(u, t, CloseSignal);
    }
  }
}
