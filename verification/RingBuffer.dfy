/**
 The double-ended queue: a circular buffer whose length is a power of two, indexed with
 a bit mask, doubled when it is full and halved when it is a quarter full.
 */
module RingBuffer {
  const MIN_CAPACITY := 16

  datatype QueueError = ErrEmpty | ErrClosed | ErrFull

  // ----- Bit masks ----------------------------------------------------------------

  /** The bitwise and of two naturals. */
  function BitAnd(a: nat, b: nat): nat {
    if a == 0 || b == 0 then 0
    else 2 * BitAnd(a / 2, b / 2) + (if a % 2 == 1 && b % 2 == 1 then 1 else 0)
  }

  predicate PowerOfTwo(n: nat) {
    n == 1 || (n > 1 && n % 2 == 0 && PowerOfTwo(n / 2))
  }

  lemma Halves(x: nat, n: nat)
    requires n > 0
    ensures x % (2 * n) == 2 * ((x / 2) % n) + x % 2
  {
    var q, r := (x / 2) / n, (x / 2) % n;
    assert x == 2 * (n * q + r) + x % 2;
    assert x == (2 * n) * q + (2 * r + x % 2) by {
      assert (2 * n) * q == 2 * (n * q);
    }
    Remainder(x, 2 * n, q, 2 * r + x % 2);
  }

  lemma Remainder(x: nat, n: nat, q: nat, r: nat)
    requires n > 0 && r < n && x == n * q + r
    ensures x % n == r
  {
    var d := x / n - q;
    assert n * d == n * (x / n) - n * q;
    if d >= 1 {
      Times(n, d - 1);
    } else if d <= -1 {
      Times(n, -d - 1);
      assert n * (-d - 1) == -(n * d) - n;
    }
  }

  lemma Times(a: nat, b: nat)
    ensures a * b >= 0
  {
  }

  /** Masking with one less than a power of two is reduction modulo that power. */
  lemma {:induction false} MaskIsModulo(x: nat, n: nat)
    requires PowerOfTwo(n)
    ensures BitAnd(x, n - 1) == x % n
    decreases n
  {
    if n == 1 {
    } else {
      var m := n / 2;
      assert (n - 1) / 2 == m - 1 && (n - 1) % 2 == 1;
      Halves(x, m);
      MaskIsModulo(x / 2, m);
      if x == 0 {
        assert x % n == 0;
      }
    }
  }

  // ----- The live window of a buffer ------------------------------------------------

  /** The slot of the `i`th element after `head`. */
  function Slot(head: nat, i: nat, n: nat): (k: nat)
    requires head < n && i <= n
    ensures k < n
  {
    if head + i < n then head + i else head + i - n
  }

  /** Slots are positions modulo the length, which is what the mask computes. */
  lemma MaskedSlot(head: nat, i: nat, n: nat)
    requires PowerOfTwo(n) && head < n && i <= n
    ensures BitAnd(head + i, n - 1) == Slot(head, i, n) == (head + i) % n
  {
    MaskIsModulo(head + i, n);
    var q := if head + i < n then 0 else 1;
    Remainder(head + i, n, q, head + i - n * q);
  }

  /** The elements in the window of `size` slots that starts at `head`. */
  function Window<T>(b: seq<T>, head: nat, size: nat): (w: seq<T>)
    requires head < |b| && size <= |b|
    ensures |w| == size
  {
    seq(size, i requires 0 <= i < size => b[Slot(head, i, |b|)])
  }

  /** Every slot outside the window holds the zero value. */
  predicate Blank<T(==)>(b: seq<T>, head: nat, size: nat, zero: T)
    requires head < |b| && size <= |b|
  {
    forall i :: size <= i < |b| ==> b[Slot(head, i, |b|)] == zero
  }

  lemma EmptyWindow<T>(b: seq<T>, zero: T)
    requires |b| > 0 && forall k :: 0 <= k < |b| ==> b[k] == zero
    ensures Window(b, 0, 0) == [] && Blank(b, 0, 0, zero)
  {
  }

  /** Moving the window to the beginning of another buffer. */
  lemma Rearranged<T>(b: seq<T>, c: seq<T>, head: nat, size: nat, zero: T)
    requires head < |b| && size <= |b| && size < |c|
    requires forall k :: 0 <= k < size ==> c[k] == b[Slot(head, k, |b|)]
    requires forall k :: size <= k < |c| ==> c[k] == zero
    ensures Window(c, 0, size) == Window(b, head, size) && Blank(c, 0, size, zero)
  {
  }

  lemma SlotInjective(head: nat, i: nat, j: nat, n: nat)
    requires head < n && i < n && j < n && i != j
    ensures Slot(head, i, n) != Slot(head, j, n)
  {
  }

  lemma PushBack<T>(b: seq<T>, head: nat, size: nat, zero: T, x: T)
    requires head < |b| && size < |b| && Blank(b, head, size, zero)
    ensures var b' := b[Slot(head, size, |b|) := x];
            Window(b', head, size + 1) == Window(b, head, size) + [x] && Blank(b', head, size + 1, zero)
  {
    var b' := b[Slot(head, size, |b|) := x];
    forall i: nat | i < |b| && i != size ensures b'[Slot(head, i, |b|)] == b[Slot(head, i, |b|)] {
      SlotInjective(head, i, size, |b|);
    }
  }

  /** The slot before `head`, and what it is followed by. */
  lemma BeforeHead(head: nat, i: nat, n: nat)
    requires head < n && i < n
    ensures Slot(Slot(head, n - 1, n), i + 1, n) == Slot(head, i, n)
  {
  }

  lemma PushFront<T>(b: seq<T>, head: nat, size: nat, zero: T, x: T)
    requires head < |b| && size < |b| && Blank(b, head, size, zero)
    ensures var h := Slot(head, |b| - 1, |b|);
            var b' := b[h := x];
            Window(b', h, size + 1) == [x] + Window(b, head, size) && Blank(b', h, size + 1, zero)
  {
    var n := |b|;
    var h := Slot(head, n - 1, n);
    var b' := b[h := x];
    forall i: nat | i < n - 1 ensures b'[Slot(h, i + 1, n)] == b[Slot(head, i, n)] {
      BeforeHead(head, i, n);
      SlotInjective(head, i, n - 1, n);
    }
    forall i | size + 1 <= i < n ensures b'[Slot(h, i, n)] == zero {
      assert b'[Slot(h, (i - 1) + 1, n)] == b[Slot(head, i - 1, n)];
    }
    assert Window(b', h, size + 1) == [x] + Window(b, head, size);
  }

  lemma PopFront<T>(b: seq<T>, head: nat, size: nat, zero: T)
    requires head < |b| && 0 < size <= |b| && Blank(b, head, size, zero)
    ensures var h := Slot(head, 1, |b|);
            var b' := b[head := zero];
            Window(b', h, size - 1) == Window(b, head, size)[1..] && Blank(b', h, size - 1, zero)
  {
    var n := |b|;
    var h := Slot(head, 1, n);
    var b' := b[head := zero];
    forall i: nat | i < n - 1 ensures b'[Slot(h, i, n)] == b[Slot(head, i + 1, n)] {
      assert Slot(h, i, n) == Slot(head, i + 1, n);
      SlotInjective(head, 0, i + 1, n);
    }
    forall i | size - 1 <= i < n ensures b'[Slot(h, i, n)] == zero {
      if i == n - 1 {
        assert Slot(h, i, n) == head;
      }
    }
    assert Window(b', h, size - 1) == Window(b, head, size)[1..];
  }

  lemma PopBack<T>(b: seq<T>, head: nat, size: nat, zero: T)
    requires head < |b| && 0 < size <= |b| && Blank(b, head, size, zero)
    ensures var b' := b[Slot(head, size - 1, |b|) := zero];
            Window(b', head, size - 1) == Window(b, head, size)[..size - 1] && Blank(b', head, size - 1, zero)
  {
    var n := |b|;
    var b' := b[Slot(head, size - 1, n) := zero];
    forall i: nat | i < n && i != size - 1 ensures b'[Slot(head, i, n)] == b[Slot(head, i, n)] {
      SlotInjective(head, i, size - 1, n);
    }
  }

  // ----- Moving the two indices with a mask ----------------------------------------

  lemma NextHead(head: nat, size: nat, n: nat)
    requires PowerOfTwo(n) && head < n && 0 < size <= n
    ensures BitAnd(head + 1, n - 1) == Slot(head, 1, n)
    ensures Slot(Slot(head, 1, n), size - 1, n) == Slot(head, size, n)
  {
    MaskedSlot(head, 1, n);
  }

  lemma NextTail(tail: nat, head: nat, size: nat, n: nat)
    requires PowerOfTwo(n) && head < n && size < n && tail == Slot(head, size, n)
    ensures BitAnd(tail + 1, n - 1) == Slot(head, size + 1, n)
  {
    MaskedSlot(tail, 1, n);
  }

  lemma PreviousHead(head: nat, size: nat, n: nat)
    requires PowerOfTwo(n) && head < n && size < n
    ensures BitAnd(head - 1 + n, n - 1) == Slot(head, n - 1, n)
    ensures Slot(Slot(head, n - 1, n), size + 1, n) == Slot(head, size, n)
  {
    MaskedSlot(head, n - 1, n);
  }

  lemma PreviousTail(tail: nat, head: nat, size: nat, n: nat)
    requires PowerOfTwo(n) && head < n && 0 < size <= n && tail == Slot(head, size, n)
    ensures BitAnd(tail - 1 + n, n - 1) == Slot(head, size - 1, n)
  {
    MaskedSlot(tail, n - 1, n);
  }

  // ----- Capacity and cost ----------------------------------------------------------

  /** The capacity with which an add of a queue of this size and capacity ends. */
  function Grown(size: nat, cap: nat): nat {
    if size == cap then 2 * cap else cap
  }

  /** The capacity with which a remove ends that leaves this size. */
  function Shrunk(size: nat, cap: nat): nat {
    if cap > MIN_CAPACITY && size <= cap / 4 then (if cap / 2 > MIN_CAPACITY then cap / 2 else MIN_CAPACITY) else cap
  }

  lemma Sixteen()
    ensures PowerOfTwo(MIN_CAPACITY)
  {
    assert PowerOfTwo(1) && PowerOfTwo(2) && PowerOfTwo(4) && PowerOfTwo(8);
  }

  lemma Doubled(n: nat)
    requires PowerOfTwo(n)
    ensures PowerOfTwo(2 * n)
  {
    assert 2 * n / 2 == n;
  }

  lemma Halve(n: nat)
    requires PowerOfTwo(n) && n > 1
    ensures n == 2 * (n / 2) && PowerOfTwo(n / 2)
  {
  }

  lemma BigPower(n: nat)
    requires PowerOfTwo(n) && n > MIN_CAPACITY
    ensures n >= 2 * MIN_CAPACITY && n % 4 == 0
  {
    hide PowerOfTwo;
    Halve(n);
    var a := n / 2;
    Halve(a);
    var b := a / 2;
    Halve(b);
    var c := b / 2;
    Halve(c);
  }

  /** What is saved up for the next resize: how far the size is from half the capacity. */
  function Potential(size: nat, cap: nat): int {
    if 2 * size >= cap then 2 * size - cap else cap / 2 - size
  }

  function AddCost(size: nat, cap: nat): nat {
    if size == cap then size else 0
  }

  function RemoveCost(size: nat, cap: nat): nat {
    if Shrunk(size, cap) != cap then size else 0
  }

  /** The copying of an add is paid for by its two credits and the saved potential. */
  lemma AddPaid(size: nat, cap: nat)
    requires size <= cap && PowerOfTwo(cap) && cap >= MIN_CAPACITY
    ensures AddCost(size, cap) + Potential(size + 1, Grown(size, cap)) <= Potential(size, cap) + 2
  {
  }

  /** The same for a remove that leaves `size` elements. */
  lemma RemovePaid(size: nat, cap: nat)
    requires size < cap && PowerOfTwo(cap) && cap >= MIN_CAPACITY
    ensures RemoveCost(size, cap) + Potential(size, Shrunk(size, cap)) <= Potential(size + 1, cap) + 2
    ensures PowerOfTwo(Shrunk(size, cap)) && MIN_CAPACITY <= Shrunk(size, cap) && size <= Shrunk(size, cap)
  {
    if cap > MIN_CAPACITY {
      BigPower(cap);
    }
  }

  /** At least a quarter full, or as small as queues get. */
  predicate Fits(size: nat, cap: nat) {
    size <= cap && (cap == MIN_CAPACITY || size >= cap / 4)
  }

  /** A queue that is a quarter full stays so over adds and removes: the capacity follows the size down. */
  lemma StaysFit(size: nat, cap: nat)
    requires Fits(size, cap) && PowerOfTwo(cap) && cap >= MIN_CAPACITY
    ensures Fits(size + 1, Grown(size, cap))
    ensures size > 0 ==> Fits(size - 1, Shrunk(size - 1, cap))
  {
    if cap > MIN_CAPACITY {
      BigPower(cap);
    }
  }

  // ----- The sequence it refines ----------------------------------------------------

  datatype Op<T> = AddBack(x: T) | AddFront(x: T) | RemoveFront | RemoveBack

  datatype Reply<T> = Added | Removed(x: T) | Refused(error: QueueError)

  datatype Effect<T> = Effect(contents: seq<T>, reply: Reply<T>)

  /** What one operation does to a double-ended sequence. */
  function Apply<T>(s: seq<T>, closed: bool, maxCap: int, op: Op<T>): Effect<T> {
    if op.AddBack? || op.AddFront? then
      if closed then Effect(s, Refused(ErrClosed))
      else if 0 < maxCap <= |s| then Effect(s, Refused(ErrFull))
      else Effect(if op.AddBack? then s + [op.x] else [op.x] + s, Added)
    else
      if s == [] then Effect(s, Refused(ErrEmpty))
      else if closed then Effect(s, Refused(ErrClosed))
      else if op.RemoveFront? then Effect(s[1..], Removed(s[0]))
      else Effect(s[..|s| - 1], Removed(s[|s| - 1]))
  }

  /** The sequence and the results after a run of operations. */
  function ApplyAll<T>(s: seq<T>, closed: bool, maxCap: int, ops: seq<Op<T>>): (seq<T>, seq<Reply<T>>) {
    if ops == [] then (s, [])
    else
      var (s', rs) := ApplyAll(s, closed, maxCap, ops[..|ops| - 1]);
      var e := Apply(s', closed, maxCap, ops[|ops| - 1]);
      (e.contents, rs + [e.reply])
  }

  /** A positive maximum is never exceeded. */
  lemma {:induction false} MaxCapHolds<T>(s: seq<T>, closed: bool, maxCap: int, ops: seq<Op<T>>)
    requires maxCap > 0 ==> |s| <= maxCap
    ensures maxCap > 0 ==> |ApplyAll(s, closed, maxCap, ops).0| <= maxCap
  {
    if ops == [] {
    } else {
      MaxCapHolds(s, closed, maxCap, ops[..|ops| - 1]);
    }
  }

  /** Adding at one end and removing at the same end gives the element back and leaves the rest as it was. */
  lemma LastInFirstOut<T>(s: seq<T>, maxCap: int, x: T)
    requires maxCap <= 0 || |s| < maxCap
    ensures ApplyAll(s, false, maxCap, [AddBack(x), RemoveBack]) == (s, [Added, Removed(x)])
    ensures ApplyAll(s, false, maxCap, [AddFront(x), RemoveFront]) == (s, [Added, Removed(x)])
  {
    ApplyTwo(s, maxCap, AddBack(x), RemoveBack);
    ApplyTwo(s, maxCap, AddFront(x), RemoveFront);
    assert (s + [x])[..|s|] == s && ([x] + s)[1..] == s;
  }

  lemma ApplyTwo<T>(s: seq<T>, maxCap: int, a: Op<T>, b: Op<T>)
    ensures var e := Apply(s, false, maxCap, a);
            var f := Apply(e.contents, false, maxCap, b);
            ApplyAll(s, false, maxCap, [a, b]) == (f.contents, [e.reply, f.reply])
  {
    ApplyAllBack(s, maxCap, [], a);
    ApplyAllBack(s, maxCap, [a], b);
    assert [] + [a] == [a] && [a] + [b] == [a, b];
    var e := Apply(s, false, maxCap, a);
    var f := Apply(e.contents, false, maxCap, b);
    assert [] + [e.reply] == [e.reply] && [e.reply] + [f.reply] == [e.reply, f.reply];
  }

  lemma ApplyAllBack<T>(s: seq<T>, maxCap: int, ops: seq<Op<T>>, op: Op<T>)
    ensures var (s', rs) := ApplyAll(s, false, maxCap, ops);
            var e := Apply(s', false, maxCap, op);
            ApplyAll(s, false, maxCap, ops + [op]) == (e.contents, rs + [e.reply])
  {
    assert (ops + [op])[..|ops|] == ops;
  }

  // ----- The queue --------------------------------------------------------------------

  /** The capacity that a queue is made for. */
  function Wanted(initialCap: int, maxCap: int): int {
    var asked := if initialCap < MIN_CAPACITY then MIN_CAPACITY else initialCap;
    if 0 < maxCap < asked then maxCap else asked
  }

  /** The least power of two from the minimum up that holds what is wanted. */
  predicate FirstCapacity(wanted: int, cap: nat) {
    && PowerOfTwo(cap) && cap >= MIN_CAPACITY && wanted <= cap
    && (cap == MIN_CAPACITY || cap / 2 < wanted)
  }

  /** There is only one such capacity. */
  lemma FirstCapacityOne(wanted: int, a: nat, b: nat)
    requires FirstCapacity(wanted, a) && FirstCapacity(wanted, b)
    ensures a == b
  {
    if a < b {
      PowersApart(a, b);
    } else if b < a {
      PowersApart(b, a);
    }
  }

  /** Different powers of two are a factor of two apart. */
  lemma {:induction false} PowersApart(a: nat, b: nat)
    requires PowerOfTwo(a) && PowerOfTwo(b) && a < b
    ensures a <= b / 2
  {
    if a == 1 {
    } else {
      PowersApart(a / 2, b / 2);
    }
  }

  class Queue<T(==)> {
    const zero: T
    const maxCap: int
    var buf: array<T>
    var head: nat
    var tail: nat
    var size: nat
    var closed: bool
    ghost var copied: nat  // elements that resizes have copied so far

    ghost predicate Valid()
      reads this, buf
    {
      && PowerOfTwo(buf.Length) && buf.Length >= MIN_CAPACITY
      && head < buf.Length && size <= buf.Length
      && tail == Slot(head, size, buf.Length)
      && (maxCap > 0 ==> size <= maxCap)
      && Blank(buf[..], head, size, zero)
    }

    ghost function Contents(): seq<T>
      reads this, buf
      requires Valid()
    {
      Window(buf[..], head, size)
    }

    ghost function Saved(): int
      reads this
    {
      Potential(size, buf.Length)
    }

    constructor (initialCap: int, maxCap: int, zero: T)
      ensures Valid() && Contents() == [] && !closed && this.maxCap == maxCap && this.zero == zero
      ensures copied == 0 && fresh(buf)
      ensures FirstCapacity(Wanted(initialCap, maxCap), buf.Length)
    {
      var wanted := if initialCap < MIN_CAPACITY then MIN_CAPACITY else initialCap;
      if maxCap > 0 && maxCap < wanted {
        wanted := maxCap;
      }
      var cap := MIN_CAPACITY;
      Sixteen();
      hide PowerOfTwo, Window, Blank;
      while cap < wanted
        invariant PowerOfTwo(cap) && cap >= MIN_CAPACITY
        invariant cap == MIN_CAPACITY || cap / 2 < wanted
        decreases wanted - cap
      {
        Doubled(cap);
        cap := 2 * cap;
      }
      this.zero := zero;
      this.maxCap := maxCap;
      buf := new T[cap](_ => zero);
      head, tail, size, closed, copied := 0, 0, 0, false, 0;
      new;
      EmptyWindow(buf[..], zero);
    }

    method Resize(newCap: nat)
      requires Valid() && PowerOfTwo(newCap) && newCap >= MIN_CAPACITY && size < newCap
      modifies this
      ensures Valid() && closed == old(closed) && size == old(size)
      ensures Contents() == old(Contents()) && buf.Length == newCap && fresh(buf)
      ensures copied == old(copied) + size
    {
      hide PowerOfTwo, BitAnd, Blank, Window;
      var z := zero;
      var newBuf := new T[newCap](_ => z);
      ghost var moved := 0;
      for i := 0 to size
        modifies newBuf
        invariant moved == i
        invariant forall k :: 0 <= k < i ==> newBuf[k] == buf[Slot(head, k, buf.Length)]
        invariant forall k :: i <= k < newCap ==> newBuf[k] == zero
      {
        MaskedSlot(head, i, buf.Length);
        newBuf[i] := buf[BitAnd(head + i, buf.Length - 1)];
        moved := moved + 1;
      }
      copied := copied + moved;
      Rearranged(buf[..], newBuf[..], head, size, zero);
      buf := newBuf;
      head := 0;
      tail := size;
    }

    /** Halves the buffer when it is no more than a quarter full. */
    method ShrinkIfNeeded()
      requires Valid() && size < buf.Length
      modifies this
      ensures Valid() && closed == old(closed) && size == old(size)
      ensures Contents() == old(Contents()) && buf.Length == Shrunk(size, old(buf.Length))
      ensures buf == old(buf) || fresh(buf)
      ensures copied == old(copied) + RemoveCost(size, old(buf.Length))
    {
      hide PowerOfTwo, BitAnd, Blank, Window;
      RemovePaid(size, buf.Length);
      var cap := buf.Length;
      if cap <= MIN_CAPACITY {
        return;
      }
      BigPower(cap);
      if size <= cap / 4 {
        Resize(if cap / 2 > MIN_CAPACITY then cap / 2 else MIN_CAPACITY);
      }
    }

    method AddBack(x: T) returns (reply: Reply<T>)
      requires Valid()
      modifies this, buf
      ensures Valid() && closed == old(closed)
      ensures Effect(Contents(), reply) == Apply(old(Contents()), closed, maxCap, Op.AddBack(x))
      ensures buf == old(buf) || fresh(buf)
      ensures copied + Saved() <= old(copied + Saved()) + 2
    {
      hide PowerOfTwo, BitAnd, Blank, Slot, Potential, Window;
      if closed {
        return Refused(ErrClosed);
      }
      if maxCap > 0 && size >= maxCap {
        return Refused(ErrFull);
      }
      AddPaid(size, buf.Length);
      if size == buf.Length {
        Doubled(buf.Length);
        Resize(2 * buf.Length);
      }
      PushBack(buf[..], head, size, zero, x);
      buf[tail] := x;
      NextTail(tail, head, size, buf.Length);
      tail := BitAnd(tail + 1, buf.Length - 1);
      size := size + 1;
      return Added;
    }

    method AddFront(x: T) returns (reply: Reply<T>)
      requires Valid()
      modifies this, buf
      ensures Valid() && closed == old(closed)
      ensures Effect(Contents(), reply) == Apply(old(Contents()), closed, maxCap, Op.AddFront(x))
      ensures buf == old(buf) || fresh(buf)
      ensures copied + Saved() <= old(copied + Saved()) + 2
    {
      hide PowerOfTwo, BitAnd, Blank, Slot, Potential, Window;
      if closed {
        return Refused(ErrClosed);
      }
      if maxCap > 0 && size >= maxCap {
        return Refused(ErrFull);
      }
      AddPaid(size, buf.Length);
      if size == buf.Length {
        Doubled(buf.Length);
        Resize(2 * buf.Length);
      }
      PushFront(buf[..], head, size, zero, x);
      PreviousHead(head, size, buf.Length);
      head := BitAnd(head - 1 + buf.Length, buf.Length - 1);
      buf[head] := x;
      size := size + 1;
      return Added;
    }

    method RemoveFront() returns (reply: Reply<T>)
      requires Valid()
      modifies this, buf
      ensures Valid() && closed == old(closed)
      ensures Effect(Contents(), reply) == Apply(old(Contents()), closed, maxCap, Op.RemoveFront)
      ensures buf == old(buf) || fresh(buf)
      ensures copied + Saved() <= old(copied + Saved()) + 2
    {
      hide PowerOfTwo, BitAnd, Blank, Potential;
      if size == 0 {
        return Refused(ErrEmpty);
      }
      if closed {
        return Refused(ErrClosed);
      }
      PopFront(buf[..], head, size, zero);
      RemovePaid(size - 1, buf.Length);
      var x := buf[head];
      buf[head] := zero;
      NextHead(head, size, buf.Length);
      head := BitAnd(head + 1, buf.Length - 1);
      size := size - 1;
      ShrinkIfNeeded();
      return Removed(x);
    }

    method RemoveBack() returns (reply: Reply<T>)
      requires Valid()
      modifies this, buf
      ensures Valid() && closed == old(closed)
      ensures Effect(Contents(), reply) == Apply(old(Contents()), closed, maxCap, Op.RemoveBack)
      ensures buf == old(buf) || fresh(buf)
      ensures copied + Saved() <= old(copied + Saved()) + 2
    {
      hide PowerOfTwo, BitAnd, Blank, Slot, Potential;
      if size == 0 {
        return Refused(ErrEmpty);
      }
      if closed {
        return Refused(ErrClosed);
      }
      PopBack(buf[..], head, size, zero);
      RemovePaid(size - 1, buf.Length);
      PreviousTail(tail, head, size, buf.Length);
      tail := BitAnd(tail - 1 + buf.Length, buf.Length - 1);
      var x := buf[tail];
      buf[tail] := zero;
      size := size - 1;
      ShrinkIfNeeded();
      return Removed(x);
    }

    method PeekFront() returns (reply: Reply<T>)
      requires Valid()
      ensures reply == Apply(Contents(), closed, maxCap, Op.RemoveFront).reply
    {
      hide PowerOfTwo, BitAnd, Blank;
      if size == 0 {
        return Refused(ErrEmpty);
      }
      if closed {
        return Refused(ErrClosed);
      }
      return Removed(buf[head]);
    }

    method PeekBack() returns (reply: Reply<T>)
      requires Valid()
      ensures reply == Apply(Contents(), closed, maxCap, Op.RemoveBack).reply
    {
      hide PowerOfTwo, BitAnd, Blank;
      if size == 0 {
        return Refused(ErrEmpty);
      }
      if closed {
        return Refused(ErrClosed);
      }
      PreviousTail(tail, head, size, buf.Length);
      return Removed(buf[BitAnd(tail - 1 + buf.Length, buf.Length - 1)]);
    }

    method Slice() returns (result: array<T>)
      requires Valid()
      ensures fresh(result) && result[..] == Contents()
    {
      hide PowerOfTwo, BitAnd, Blank;
      var z := zero;
      result := new T[size](_ => z);
      for i := 0 to size
        invariant forall k :: 0 <= k < i ==> result[k] == buf[Slot(head, k, buf.Length)]
      {
        MaskedSlot(head, i, buf.Length);
        result[i] := buf[BitAnd(head + i, buf.Length - 1)];
      }
    }

    method Clear()
      requires Valid()
      modifies this
      ensures Valid() && Contents() == [] && closed == old(closed)
      ensures fresh(buf) && buf.Length == MIN_CAPACITY && copied == old(copied)
    {
      hide PowerOfTwo, BitAnd, Blank, Window;
      head, tail, size := 0, 0, 0;
      var z := zero;
      buf := new T[MIN_CAPACITY](_ => z);
      Sixteen();
      EmptyWindow(buf[..], zero);
    }

    method Close()
      requires Valid()
      modifies this`closed
      ensures Valid() && closed && Contents() == old(Contents())
    {
      closed := true;
    }

    /** Any run of operations answers as the plain sequence does, and copies little. */
    method Run(ops: seq<Op<T>>) returns (replies: seq<Reply<T>>)
      requires Valid()
      modifies this, buf
      ensures Valid() && closed == old(closed)
      ensures (Contents(), replies) == ApplyAll(old(Contents()), closed, maxCap, ops)
      ensures copied + Saved() <= old(copied + Saved()) + 2 * |ops|
    {
      replies := [];
      for i := 0 to |ops|
        invariant Valid() && closed == old(closed)
        invariant buf == old(buf) || fresh(buf)
        invariant (Contents(), replies) == ApplyAll(old(Contents()), closed, maxCap, ops[..i])
        invariant copied + Saved() <= old(copied + Saved()) + 2 * i
      {
        assert ops[..i + 1][..i] == ops[..i];
        var reply;
        match ops[i] {
          case AddBack(x) => reply := AddBack(x);
          case AddFront(x) => reply := AddFront(x);
          case RemoveFront => reply := RemoveFront();
          case RemoveBack => reply := RemoveBack();
        }
        replies := replies + [reply];
      }
      assert ops[..|ops|] == ops;
    }
  }

  /** Over any run on a new queue the resizes copy at most two elements per operation and half the first capacity. */
  method RunFromNew<T(==)>(initialCap: int, maxCap: int, zero: T, ops: seq<Op<T>>)
    returns (q: Queue<T>, replies: seq<Reply<T>>, c: nat)
    ensures fresh(q) && q.Valid()
    ensures (q.Contents(), replies) == ApplyAll([], false, maxCap, ops)
    ensures FirstCapacity(Wanted(initialCap, maxCap), c) && q.copied <= 2 * |ops| + c / 2
  {
    q := new Queue<T>(initialCap, maxCap, zero);
    c := q.buf.Length;
    replies := q.Run(ops);
  }
}
