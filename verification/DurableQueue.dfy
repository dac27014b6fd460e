/**
 The durable queue: a FIFO kept in numbered segment files, of which only the first
 and the last are in memory.
 */
module DurableQueue {
  import opened Wrappers
  import opened Bytes
  import opened SegmentLog
  import opened QueueDisk
  import opened SegmentFile

  /** Every directory recorded after `t0` is what a stop while going from `before` to `after` may leave. */
  ghost predicate Crashes<T(!new)>(c: Codec<T>, perSegment: nat, t0: seq<Disk>, t1: seq<Disk>, before: seq<T>,
                            after: seq<T>) {
    && t0 <= t1
    && forall i | |t0| <= i < |t1| :: CrashImage(c, perSegment, t1[i], before, after)
  }

  /** Every directory recorded after `t0` holds the queue `s`. */
  ghost predicate Keeps<T(!new)>(c: Codec<T>, perSegment: nat, t0: seq<Disk>, t1: seq<Disk>, s: seq<T>) {
    && t0 <= t1
    && forall i | |t0| <= i < |t1| :: Holds(c, perSegment, t1[i], s)
  }

  /** No directory recorded after `t0` has a record that is too long to load. */
  ghost predicate Loads<T>(c: Codec<T>, t0: seq<Disk>, t1: seq<Disk>) {
    && t0 <= t1
    && forall i | |t0| <= i < |t1| :: NoneTooLong(c, t1[i])
  }

  /** The only error of a pop that returns an item. */
  predicate CannotRead(err: Option<QueueError>) {
    err.Some? ==> err.value.UnreadableSegment? && err.value.error == CorruptedSegment(TooLong)
  }

  class DQue<T(!new)> {
    const dir: Directory
    const codec: Codec<T>
    const perSegment: nat
    var firstSegment: Segment?<T>
    var lastSegment: Segment?<T>
    var cachedDiskBytes: int
    var closed: bool

    /** The chain of segments that the directory holds. */
    ghost var segs: seq<SegState<T>>

    ghost function Repr(): set<object?>
      reads this
    {
      {this, dir, firstSegment, lastSegment}
    }

    ghost predicate Valid()
      reads this, Repr()
    {
      && perSegment > 0
      && Sound(codec)
      && (!closed ==>
            && firstSegment != null && lastSegment != null
            && Attached(firstSegment) && Attached(lastSegment)
            && Represents(codec, perSegment, dir.files, Items(segs), firstSegment.number, segs)
            && lastSegment.number == firstSegment.number + |segs| - 1
            && (|segs| == 1 <==> firstSegment == lastSegment)
            && firstSegment.State() == segs[0]
            && lastSegment.State() == segs[|segs| - 1]
            && cachedDiskBytes == dir.otherBytes + TotalSize(dir.files))
    }

    ghost predicate Attached(seg: Segment<T>)
      reads seg
    {
      seg.dir == dir && seg.codec == codec && seg.open
    }

    /** The queue as a plain sequence, oldest item first. */
    ghost function Contents(): seq<T>
      reads this
    {
      Items(segs)
    }

    constructor (dir: Directory, codec: Codec<T>, perSegment: nat)
      ensures this.dir == dir && this.codec == codec && this.perSegment == perSegment
      ensures firstSegment == null && lastSegment == null && !closed
    {
      this.dir := dir;
      this.codec := codec;
      this.perSegment := perSegment;
      firstSegment, lastSegment := null, null;
      cachedDiskBytes := 0;
      closed := false;
      segs := [];
    }

    /** Appends an item of any size whose length the prefix can hold. */
    method Enqueue(x: T) returns (err: Option<QueueError>)
      requires Valid()
      modifies this`lastSegment, this`cachedDiskBytes, this`segs, dir, lastSegment
      ensures closed == old(closed)
      ensures fresh(Repr() - old(Repr()))
      ensures closed ==>
                && Valid()
                && err == Some(QueueClosed)
                && dir.files == old(dir.files) && dir.trace == old(dir.trace)
      ensures !closed ==> err == None
      ensures !closed && Short(codec, x) ==>
                && Valid()
                && Contents() == old(Contents()) + [x]
                && Crashes(codec, perSegment, old(dir.trace), dir.trace, old(Contents()), Contents())
      ensures NoneTooLong(codec, old(dir.files)) && Fits(codec, x) ==>
                NoneTooLong(codec, dir.files) && Loads(codec, old(dir.trace), dir.trace)
      ensures !closed && Short(codec, x) && !Fits(codec, x) ==> !Readable(codec, dir.files, lastSegment.number)
    {
      if closed {
        return Some(QueueClosed);
      }
      if lastSegment.State().SizeOnDisk() >= perSegment {
        StartSegment();
      }
      AddLast(x);
      return None;
    }

    /** Replaces a full last segment by a new one. */
    method StartSegment()
      requires Valid() && !closed
      requires lastSegment.State().SizeOnDisk() >= perSegment
      modifies this`lastSegment, this`segs, dir, lastSegment`open
      ensures Valid() && fresh(lastSegment)
      ensures lastSegment.State().SizeOnDisk() == 0
      ensures Contents() == old(Contents())
      ensures Keeps(codec, perSegment, old(dir.trace), dir.trace, Contents())
      ensures NoneTooLong(codec, old(dir.files)) ==>
                NoneTooLong(codec, dir.files) && Loads(codec, old(dir.trace), dir.trace)
    {
      hide Replay, Items, NoneTooLong;
      ghost var d, lo, before := dir.files, firstSegment.number, Contents();
      LoadsCreate(codec, d, lo + |segs|);
      ChainGrow(perSegment, segs);
      ImageCreate(codec, d, lo, segs);
      TotalSizePut(d, lo + |segs|, []);
      var r := NewSegment(dir, codec, lastSegment.number + 1);
      if firstSegment != lastSegment {
        lastSegment.Close();
      }
      lastSegment := r.value;
      segs := segs + [EmptySegment()];
      assert HoldsAt(codec, perSegment, dir.files, before, lo, segs);
    }

    /** Adds to a last segment that has room and keeps the cached total; does not ask whether the item fits. */
    method AddLast(x: T)
      requires Valid() && !closed
      requires lastSegment.State().SizeOnDisk() < perSegment
      modifies this`cachedDiskBytes, this`segs, dir, lastSegment`objects
      ensures lastSegment.State() == old(lastSegment.State()).Added(x)
      ensures cachedDiskBytes == dir.otherBytes + TotalSize(dir.files)
      ensures Short(codec, x) ==>
                && Valid()
                && Contents() == old(Contents()) + [x]
                && Crashes(codec, perSegment, old(dir.trace), dir.trace, old(Contents()), Contents())
      ensures NoneTooLong(codec, old(dir.files)) && Fits(codec, x) ==>
                NoneTooLong(codec, dir.files) && Loads(codec, old(dir.trace), dir.trace)
      ensures Short(codec, x) && !Fits(codec, x) ==> !Readable(codec, dir.files, lastSegment.number)
    {
      hide Replay, Items, Image, Chain, Record, Prefix, Fits, Short, CrashImage, NoneTooLong, Readable;
      ghost var d, lo, n := dir.files, firstSegment.number, |segs| - 1;
      ghost var before, hi := Contents(), lastSegment.number;
      LastOnDisk(codec, perSegment, d, before, lo, segs);
      AppendLoads(codec, d, hi, x);
      var oldSize := dir.SizeOf(lastSegment.number);
      lastSegment.Add(x);
      cachedDiskBytes := cachedDiskBytes + dir.SizeOf(lastSegment.number) - oldSize;
      TotalSizePut(d, hi, d[hi] + Record(codec, x));
      if Short(codec, x) {
        AppendShort(codec, perSegment, d, before, lo, segs, x);
        segs := segs[n := segs[n].Added(x)];
      }
    }

    /** The head of the queue, or QueueEmpty exactly when the queue is empty. */
    method Peek() returns (r: Result<T, QueueError>)
      requires Valid()
      ensures closed ==> r == Failure(QueueClosed)
      ensures !closed ==> r == if Contents() == [] then Failure(QueueEmpty) else Success(Contents()[0])
    {
      if closed {
        return Failure(QueueClosed);
      }
      EmptyFirst(perSegment, segs);
      if firstSegment.objects == [] {
        return Failure(QueueEmpty);
      }
      return Success(firstSegment.objects[0]);
    }

    /** The head is the last item of the first segment, and the next segment must be read from disk but cannot. */
    ghost predicate Blocked()
      reads this, Repr()
    {
      && |segs| > 2 && |segs[0].objects| == 1
      && firstSegment != null && !Readable(codec, dir.files, firstSegment.number + 1)
    }

    /** The first segment is gone and the next one could not be read; the directory still holds the queue. */
    ghost predicate Stuck()
      reads this, Repr()
    {
      && !closed && firstSegment != null && firstSegment.objects == []
      && Contents() != [] && Holds(codec, perSegment, dir.files, Contents())
    }

    lemma NotStuck()
      requires Valid()
      ensures !Stuck() && perSegment > 0 && Sound(codec)
    {
      if !closed {
        EmptyFirst(perSegment, segs);
      }
    }

    /**
     Removes and returns the head of the queue.  The head is returned even when the next
     segment cannot be read; after that the queue says that it is empty.
     */
    method Dequeue() returns (x: Option<T>, err: Option<QueueError>)
      requires Valid() || Stuck()
      modifies this`firstSegment, this`lastSegment, this`cachedDiskBytes, this`segs, dir, firstSegment
      ensures closed == old(closed) && fresh(Repr() - old(Repr()))
      ensures old(Stuck()) ==> Stuck()
      ensures closed || old(Contents()) == [] || old(Stuck()) ==>
                && x == None && err == Some(if closed then QueueClosed else QueueEmpty)
                && Contents() == old(Contents())
                && dir.files == old(dir.files) && dir.trace == old(dir.trace)
                && (old(Valid()) ==> Valid())
      ensures !closed && old(Contents()) != [] && !old(Stuck()) ==>
                && x == Some(old(Contents())[0])
                && Contents() == old(Contents())[1..]
                && Keeps(codec, perSegment, old(dir.trace), dir.trace, Contents())
                && CannotRead(err) && (err.Some? <==> old(Blocked()))
                && if old(Blocked()) then Stuck() else Valid()
      ensures NoneTooLong(codec, old(dir.files)) ==>
                && NoneTooLong(codec, dir.files) && Loads(codec, old(dir.trace), dir.trace)
                && (old(Valid()) ==> Valid()) && (x.Some? ==> err == None)
    {
      hide Items, Represents, Holds, Blocked, NoneTooLong;
      if closed {
        return None, Some(QueueClosed);
      }
      if Valid() {
        FirstOfContents();
      }
      if firstSegment.objects == [] {
        return None, Some(QueueEmpty);
      }
      x, err := TakeHead();
    }

    /** The first segment is empty exactly when the whole queue is. */
    lemma FirstOfContents()
      requires Valid() && !closed
      ensures firstSegment.objects == [] <==> Contents() == []
    {
      EmptyFirst(perSegment, segs);
    }

    /** Takes the head, and moves to the next segment when the first one is drained. */
    method TakeHead() returns (x: Option<T>, err: Option<QueueError>)
      requires Valid() && !closed && firstSegment.objects != []
      modifies this`firstSegment, this`lastSegment, this`cachedDiskBytes, this`segs, dir, firstSegment
      ensures !closed && fresh(Repr() - old(Repr()))
      ensures old(Contents()) != [] && x == Some(old(Contents())[0]) && Contents() == old(Contents())[1..]
      ensures Keeps(codec, perSegment, old(dir.trace), dir.trace, Contents())
      ensures CannotRead(err)
      ensures err.Some? <==> old(Blocked())
      ensures if old(Blocked()) then Stuck() else Valid()
      ensures NoneTooLong(codec, old(dir.files)) ==>
                NoneTooLong(codec, dir.files) && Loads(codec, old(dir.trace), dir.trace) && err == None
    {
      hide Items, NoneTooLong, Readable, Replay, HoldsAt, Holds;
      var head := RemoveFirst();
      x, err := Some(head), None;
      if firstSegment.objects == [] && firstSegment.State().SizeOnDisk() >= perSegment {
        err := DropFirstSegment();
      }
    }

    /** The queue is consistent except that its first segment may be drained. */
    ghost predicate ValidButDrained()
      reads this, Repr()
    {
      && perSegment > 0
      && Sound(codec)
      && !closed
      && firstSegment != null && lastSegment != null
      && Attached(firstSegment) && Attached(lastSegment)
      && HoldsAt(codec, perSegment, dir.files, Items(segs), firstSegment.number, segs)
      && lastSegment.number == firstSegment.number + |segs| - 1
      && (|segs| == 1 <==> firstSegment == lastSegment)
      && firstSegment.State() == segs[0]
      && lastSegment.State() == segs[|segs| - 1]
      && cachedDiskBytes == dir.otherBytes + TotalSize(dir.files)
    }

    /** Takes the head off a first segment that has one. */
    method RemoveFirst() returns (x: T)
      requires Valid() && !closed && firstSegment.objects != []
      modifies this`cachedDiskBytes, this`segs, dir, firstSegment`objects, firstSegment`removeCount
      ensures ValidButDrained()
      ensures old(Contents()) == [x] + Contents()
      ensures |segs| == |old(segs)| && segs[1..] == old(segs)[1..] && |segs[0].objects| == |old(segs)[0].objects| - 1
      ensures |segs| > 1 ==> Drained(perSegment, segs[0]) == (|old(segs)[0].objects| == 1)
      ensures Readable(codec, dir.files, firstSegment.number + 1)
         <==> Readable(codec, old(dir.files), firstSegment.number + 1)
      ensures Keeps(codec, perSegment, old(dir.trace), dir.trace, Contents())
      ensures NoneTooLong(codec, old(dir.files)) ==>
                NoneTooLong(codec, dir.files) && Loads(codec, old(dir.trace), dir.trace)
    {
      hide Replay, Items, NoneTooLong;
      ghost var d, lo := dir.files, firstSegment.number;
      FirstWritten(codec, perSegment, d, Contents(), lo, segs);
      MarkLoads(codec, d, lo);
      var oldSize := dir.SizeOf(firstSegment.number);
      var head := firstSegment.Remove();
      x := head.value;
      cachedDiskBytes := cachedDiskBytes + dir.SizeOf(firstSegment.number) - oldSize;
      ReplayMarker(Uncapped(codec), segs[0]);
      ImageWrite(codec, d, lo, segs, 0, MARKER, segs[0].Removed());
      ChainMark(perSegment, segs);
      TotalSizePut(d, lo, d[lo] + MARKER);
      segs := segs[0 := segs[0].Removed()];
      assert HoldsAt(codec, perSegment, dir.files, Contents(), lo, segs);
    }

    /** Deletes a drained first segment and moves on to the next one, unless it must be read and cannot be. */
    method DropFirstSegment() returns (err: Option<QueueError>)
      requires ValidButDrained() && Drained(perSegment, firstSegment.State())
      modifies this`firstSegment, this`lastSegment, this`cachedDiskBytes, this`segs, dir, firstSegment
      ensures !closed && fresh(Repr() - old(Repr()))
      ensures Contents() == old(Contents())
      ensures Keeps(codec, perSegment, old(dir.trace), dir.trace, Contents())
      ensures CannotRead(err)
      ensures err.Some? <==> |old(segs)| > 2 && !Readable(codec, old(dir.files), old(firstSegment.number) + 1)
      ensures if err.Some? then Stuck() else Valid()
      ensures NoneTooLong(codec, old(dir.files)) ==>
                NoneTooLong(codec, dir.files) && Loads(codec, old(dir.trace), dir.trace) && err == None
    {
      hide Replay, Items, NoneTooLong, Readable, HoldsAt;
      ghost var d, lo := dir.files, firstSegment.number;
      DropOnDisk(codec, perSegment, d, Contents(), lo, segs);
      TotalSizeRemove(d, lo);
      var number := firstSegment.number;
      var deletedSize := dir.SizeOf(number);
      firstSegment.Delete();
      cachedDiskBytes := cachedDiskBytes - deletedSize;
      segs := segs[1..];
      err := None;
      if number == lastSegment.number {
        EmptyItems<T>();
        TotalSizeEmpty();
        ReplaceOnlySegment(number);
      } else {
        err := NextSegment(number);
      }
    }

    /** Starts over with a new segment after the only one was deleted. */
    method ReplaceOnlySegment(number: nat)
      requires perSegment > 0 && Sound(codec) && !closed
      requires dir.files == map[] && cachedDiskBytes == dir.otherBytes
      modifies this`firstSegment, this`lastSegment, this`cachedDiskBytes, this`segs, dir
      ensures Valid() && fresh(firstSegment) && fresh(lastSegment)
      ensures Contents() == []
      ensures Keeps(codec, perSegment, old(dir.trace), dir.trace, [])
      ensures NoneTooLong(codec, dir.files) && Loads(codec, old(dir.trace), dir.trace)
    {
      hide Replay, Items, NoneTooLong;
      FreshChain(codec, perSegment, dir.files, number + 1);
      NothingTooLong(codec);
      LoadsCreate(codec, dir.files, number + 1);
      TotalSizePut(dir.files, number + 1, []);
      TotalSizeEmpty();
      var r := NewSegment(dir, codec, number + 1);
      firstSegment := r.value;
      lastSegment := r.value;
      cachedDiskBytes := cachedDiskBytes + dir.SizeOf(number + 1);
      segs := [EmptySegment()];
    }

    /** Makes the segment after a deleted first one the first: the last one, or one read from disk. */
    method NextSegment(number: nat) returns (err: Option<QueueError>)
      requires perSegment > 0 && Sound(codec) && !closed
      requires firstSegment != null && firstSegment.objects == []
      requires lastSegment != null && Attached(lastSegment)
      requires HoldsAt(codec, perSegment, dir.files, Items(segs), number + 1, segs)
      requires !Drained(perSegment, segs[0])
      requires lastSegment.number == number + |segs|
      requires lastSegment.State() == segs[|segs| - 1]
      requires cachedDiskBytes == dir.otherBytes + TotalSize(dir.files)
      modifies this`firstSegment
      ensures err.Some? <==> |segs| > 1 && !Readable(codec, dir.files, number + 1)
      ensures err.Some? ==> err == Some(UnreadableSegment(number + 1, CorruptedSegment(TooLong))) && Stuck()
      ensures err == None ==> Valid() && (firstSegment == lastSegment || fresh(firstSegment))
      ensures err.Some? ==> firstSegment == old(firstSegment)
    {
      hide Replay, Items;
      if number + 1 == lastSegment.number {
        firstSegment := lastSegment;
        return None;
      }
      FirstOpened(codec, dir.files, number + 1, segs);
      var r := OpenSegment(dir, codec, number + 1);
      if r.Failure? {
        EmptyFirst(perSegment, segs);
        assert HoldsAt(codec, perSegment, dir.files, Items(segs), number + 1, segs);
        return Some(r.error);
      }
      firstSegment := r.value;
      return None;
    }

    /** The number of items, in closed form from the two segments in memory. */
    method Size() returns (n: int)
      requires Valid()
      ensures n == if closed then 0 else |Contents()|
    {
      if closed {
        return 0;
      }
      if firstSegment.number == lastSegment.number {
        assert segs == [segs[0]];
        ItemsOne(segs[0]);
        return |firstSegment.objects|;
      }
      ItemsLength(perSegment, segs);
      var between := lastSegment.number - firstSegment.number - 1;
      return |firstSegment.objects| + between * perSegment + |lastSegment.objects|;
    }

    /** The cached total, which is what listing the directory would give. */
    method DiskBytes() returns (n: int)
      requires Valid()
      ensures n == if closed then 0 else dir.otherBytes + TotalSize(dir.files)
    {
      return if closed then 0 else cachedDiskBytes;
    }

    /** Gives up the two segments; the directory keeps the queue. */
    method Close() returns (err: Option<QueueError>)
      requires Valid()
      modifies this`firstSegment, this`lastSegment, this`closed, firstSegment, lastSegment
      ensures Valid() && closed
      ensures err == if old(closed) then Some(QueueClosed) else None
      ensures !old(closed) ==> Holds(codec, perSegment, dir.files, Contents())
      ensures !old(closed) ==> firstSegment == null && lastSegment == null
    {
      if closed {
        return Some(QueueClosed);
      }
      assert Holds(codec, perSegment, dir.files, Contents());
      firstSegment.Close();
      if firstSegment != lastSegment {
        lastSegment.Close();
      }
      closed := true;
      firstSegment, lastSegment := null, null;
      return None;
    }

    /** Finds the smallest and the largest segment number. */
    method SegmentRange() returns (minNum: nat, maxNum: nat)
      ensures minNum == MinNumber(dir.files.Keys) && maxNum == MaxNumber(dir.files.Keys)
    {
      minNum, maxNum := MAX_INT32, 0;
      var rest := dir.files.Keys;
      while rest != {}
        invariant rest <= dir.files.Keys
        invariant minNum <= MAX_INT32 && (minNum == MAX_INT32 || minNum in dir.files)
        invariant maxNum == 0 || maxNum in dir.files
        invariant forall k :: k in dir.files && k !in rest ==> minNum <= k <= maxNum
        decreases rest
      {
        var k :| k in rest;
        rest := rest - {k};
        if k > maxNum {
          maxNum := k;
        }
        if k < minNum {
          minNum := k;
        }
      }
    }

    /** Populates the two segments from the directory. */
    method Load() returns (err: Option<QueueError>)
      requires perSegment > 0 && firstSegment == null
      modifies this`firstSegment, this`lastSegment, dir
      ensures dir.trace == old(dir.trace) + RecoverImages(codec, perSegment, old(dir.files))
      ensures match Recover(codec, perSegment, old(dir.files))
              case OpenFailed(e, d) => err == Some(e) && dir.files == d
              case OpenedQueue(lo, hi, first, last, d) =>
                && err == None && dir.files == d
                && firstSegment != null && lastSegment != null
                && fresh(firstSegment) && fresh(lastSegment)
                && Attached(firstSegment) && Attached(lastSegment)
                && firstSegment.number == lo && firstSegment.State() == first
                && lastSegment.number == hi && lastSegment.State() == last
                && (lo == hi <==> firstSegment == lastSegment)
    {
      hide Replay, MinNumber, MaxNumber;
      var minNum, maxNum := SegmentRange();
      ghost var lo, hi := minNum, maxNum;
      if maxNum > 0 {
        var r;
        r, minNum := FirstUsable(minNum, maxNum);
        if r.Failure? {
          return Some(r.error);
        }
        if r.value.Some? {
          firstSegment := r.value.value;
        }
      }
      if firstSegment == null {
        var r := NewSegment(dir, codec, 1);
        if r.Failure? {
          return Some(r.error);
        }
        firstSegment := r.value;
        lastSegment := r.value;
      } else if minNum == maxNum {
        lastSegment := firstSegment;
      } else {
        var r := OpenSegment(dir, codec, maxNum);
        if r.Failure? {
          return Some(r.error);
        }
        lastSegment := r.value;
      }
      return None;
    }

    /** The first segment from `lo` on that is not drained; drained ones are deleted. */
    method FirstUsable(lo: nat, hi: nat) returns (r: Result<Option<Segment<T>>, QueueError>, minNum: nat)
      modifies dir
      ensures dir.trace == old(dir.trace) + ScanImages(codec, perSegment, old(dir.files), lo, hi)
      ensures match ScanFrom(codec, perSegment, old(dir.files), lo, hi)
              case ScanFailed(e, d) => r == Failure(e) && dir.files == d
              case NothingUsable(d) => r == Success(None) && dir.files == d
              case Usable(k, s, d) =>
                && r.Success? && r.value.Some? && fresh(r.value.value)
                && Attached(r.value.value)
                && r.value.value.number == k == minNum && r.value.value.State() == s
                && dir.files == d
    {
      hide SegmentAt, ScanFrom, ScanImages;
      minNum := lo;
      while minNum <= hi
        invariant ScanFrom(codec, perSegment, dir.files, minNum, hi)
            == ScanFrom(codec, perSegment, old(dir.files), lo, hi)
        invariant dir.trace + ScanImages(codec, perSegment, dir.files, minNum, hi)
               == old(dir.trace) + ScanImages(codec, perSegment, old(dir.files), lo, hi)
        decreases (hi as int) - minNum
      {
        ScanTurn(codec, perSegment, dir.files, minNum, hi);
        var seg0 := OpenSegment(dir, codec, minNum);
        if seg0.Failure? {
          return Failure(seg0.error), minNum;
        }
        var seg := seg0.value;
        if |seg.objects| > 0 || seg.State().SizeOnDisk() < perSegment {
          return Success(Some(seg)), minNum;
        }
        seg.Delete();
        minNum := minNum + 1;
      }
      ScanOver(codec, perSegment, dir.files, minNum, hi);
      return Success(None), minNum;
    }

    /** The two segments in memory are the ends of a usable chain on disk that holds `s`. */
    ghost predicate Carries(s: seq<T>)
      requires firstSegment != null && lastSegment != null
      reads this, Repr()
    {
      exists chain ::
        && Represents(codec, perSegment, dir.files, s, firstSegment.number, chain)
        && lastSegment.number == firstSegment.number + |chain| - 1
        && firstSegment.State() == chain[0]
        && lastSegment.State() == chain[|chain| - 1]
    }

    /** Records the chain that the directory holds from the first segment on, if there is one. */
    ghost method Adopt()
      requires perSegment > 0 && Sound(codec) && !closed
      requires firstSegment != null && lastSegment != null
      requires Attached(firstSegment) && Attached(lastSegment)
      requires firstSegment.number == lastSegment.number <==> firstSegment == lastSegment
      requires cachedDiskBytes == dir.otherBytes + TotalSize(dir.files)
      modifies this`segs
      ensures forall s | Carries(s) :: Valid() && Contents() == s
    {
      hide Replay, Items;
      if chain :| Image(codec, dir.files, firstSegment.number, chain) {
        segs := chain;
        forall s | Carries(s) ensures Valid() && Contents() == s {
          var chain' :| Represents(codec, perSegment, dir.files, s, firstSegment.number, chain')
            && lastSegment.number == firstSegment.number + |chain'| - 1
            && firstSegment.State() == chain'[0]
            && lastSegment.State() == chain'[|chain'| - 1];
          ImageUnique(codec, dir.files, firstSegment.number, chain, chain');
        }
      }
    }
  }

  lemma EmptyItems<T>()
    ensures Items<T>([]) == []
  {
  }

  /** A single new file is the chain of an empty queue. */
  lemma FreshChain<T(!new)>(c: Codec<T>, perSegment: nat, d: Disk, k: nat)
    requires perSegment > 0 && d == map[] && k >= 1
    ensures Represents(c, perSegment, d[k := []], [], k, [EmptySegment()])
  {
    var none: seq<SegState<T>> := [];
    assert Image(c, d, k, none);
    ImageCreate(c, d, k, none);
    assert none + [EmptySegment()] == [EmptySegment()];
    ItemsOne<T>(EmptySegment());
  }

  lemma LastOnDisk<T>(c: Codec<T>, perSegment: nat, d: Disk, s: seq<T>, lo: nat, segs: seq<SegState<T>>)
    requires Represents(c, perSegment, d, s, lo, segs)
    ensures segs != [] && lo + |segs| - 1 in d && Written(c, d, lo + |segs| - 1) == Loaded(segs[|segs| - 1])
  {
    assert segs[|segs| - 1] == segs[(lo + |segs| - 1) - lo];
  }

  lemma FirstWritten<T>(c: Codec<T>, perSegment: nat, d: Disk, s: seq<T>, lo: nat, segs: seq<SegState<T>>)
    requires HoldsAt(c, perSegment, d, s, lo, segs)
    ensures segs != [] && lo in d && Written(c, d, lo) == Loaded(segs[0])
  {
  }

  /** What deleting a drained first segment leaves. */
  lemma DropOnDisk<T(!new)>(c: Codec<T>, perSegment: nat, d: Disk, s: seq<T>, lo: nat, segs: seq<SegState<T>>)
    requires perSegment > 0 && c.limit < TWO_TO_THE_32 && HoldsAt(c, perSegment, d, s, lo, segs)
    requires Drained(perSegment, segs[0])
    ensures segs != [] && lo in d && Items(segs[1..]) == s
    ensures |segs| == 1 ==> d - {lo} == map[]
    ensures |segs| > 1 ==> HoldsAt(c, perSegment, d - {lo}, s, lo + 1, segs[1..]) && !Drained(perSegment, segs[1])
    ensures Holds(c, perSegment, d - {lo}, s)
    ensures Readable(c, d - {lo}, lo + 1) <==> Readable(c, d, lo + 1)
    ensures NoneTooLong(c, d) ==>
              NoneTooLong(c, d - {lo}) && (|segs| > 1 ==> Readable(c, d - {lo}, lo + 1))
  {
    hide Replay, Items, NoneTooLong, Readable, Chain, Image;
    FirstWritten(c, perSegment, d, s, lo, segs);
    LowInside(c, d, lo, segs);
    ImageDrop(c, d, lo, segs);
    ChainDrop(perSegment, segs);
    LoadsDrop(c, d, lo);
    if |segs| > 1 {
      SecondUsable(perSegment, segs);
      if NoneTooLong(c, d) {
        SecondReadable(c, d, lo, segs);
      }
    } else {
      EmptyItems<T>();
      assert segs[1..] == [];
    }
  }

  // ----- Records that are too long -------------------------------------------------------

  lemma NothingTooLong<T>(c: Codec<T>)
    ensures NoneTooLong(c, map[])
  {
  }

  lemma LoadsCreate<T>(c: Codec<T>, d: Disk, k: nat)
    ensures NoneTooLong(c, d) ==> NoneTooLong(c, d[k := []])
  {
    var d' := d[k := []];
    assert forall j | j in d && j != k :: SegmentAt(c, d', j) == SegmentAt(c, d, j);
  }

  lemma LoadsDrop<T>(c: Codec<T>, d: Disk, k: nat)
    ensures NoneTooLong(c, d) ==> NoneTooLong(c, d - {k})
    ensures forall j | j != k :: Readable(c, d - {k}, j) <==> Readable(c, d, j)
  {
    hide Replay;
    forall j | j in d && j != k ensures SegmentAt(c, d - {k}, j) == SegmentAt(c, d, j) {
    }
  }

  /** Changing one file to one that has no record that is too long. */
  lemma LoadsPut<T>(c: Codec<T>, d: Disk, k: nat, f: seq<byte>)
    requires NoneTooLong(c, d) && Replay(c, f, EmptySegment()) != Rejected(CorruptedSegment(TooLong))
    ensures NoneTooLong(c, d[k := f])
  {
    hide Replay;
    var d' := d[k := f];
    assert forall j | j in d && j != k :: SegmentAt(c, d', j) == SegmentAt(c, d, j);
  }

  /** When nothing is too long every segment of a chain can be read. */
  lemma SecondReadable<T>(c: Codec<T>, d: Disk, lo: nat, segs: seq<SegState<T>>)
    requires c.limit < TWO_TO_THE_32 && Image(c, d, lo, segs) && |segs| > 1 && NoneTooLong(c, d)
    ensures Readable(c, d, lo + 1)
  {
    hide Replay, Image, NoneTooLong;
    SecondOpened(c, d, lo, segs);
    ThisLoads(c, d, lo + 1);
  }

  lemma MarkLoads<T>(c: Codec<T>, d: Disk, k: nat)
    requires c.limit < TWO_TO_THE_32 && k in d && Written(c, d, k).Loaded? && Written(c, d, k).state.objects != []
    ensures NoneTooLong(c, d) ==> NoneTooLong(c, d[k := d[k] + MARKER])
  {
    hide Replay, NoneTooLong;
    ReadsWritten(c, d, k);
    ReadableMark(c, d, k);
    if NoneTooLong(c, d) {
      ThisLoads(c, d, k);
      LoadsPut(c, d, k, d[k] + MARKER);
    }
  }

  lemma ThisLoads<T>(c: Codec<T>, d: Disk, k: nat)
    requires NoneTooLong(c, d) && k in d
    ensures SegmentAt(c, d, k) != Rejected(CorruptedSegment(TooLong))
  {
  }

  lemma AppendLoads<T(!new)>(c: Codec<T>, d: Disk, k: nat, x: T)
    requires Sound(c) && k in d && Written(c, d, k).Loaded?
    ensures NoneTooLong(c, d) && Fits(c, x) ==>
              NoneTooLong(c, d[k := d[k] + Prefix(c, x)]) && NoneTooLong(c, d[k := d[k] + Record(c, x)])
    ensures Short(c, x) && !Fits(c, x) ==> !Readable(c, d[k := d[k] + Record(c, x)], k)
  {
    hide Replay, NoneTooLong, Record, U32LE;
    ReadsWritten(c, d, k);
    if Short(c, x) {
      ReadableAppend(c, d, k, x);
    }
    if NoneTooLong(c, d) && Fits(c, x) {
      ThisLoads(c, d, k);
      LoadsPut(c, d, k, d[k] + Record(c, x));
      PrefixLoads(c, d[k], x);
      LoadsPut(c, d, k, d[k] + Prefix(c, x));
    }
  }

  lemma PrefixLoads<T(!new)>(c: Codec<T>, f: seq<byte>, x: T)
    requires Sound(c) && Fits(c, x) && Replay(c, f, EmptySegment()).Loaded?
    ensures Replay(c, f + Prefix(c, x), EmptySegment()) == Rejected(CorruptedSegment(ShortBody))
  {
    hide Replay, U32LE;
    ShortPrefix(c, x);
    var g := f + Prefix(c, x);
    assert g[..|g| - 4] == f && g[|g| - 4..] == U32LE(|c.encode(x)|);
    TornFile(c, g, |c.encode(x)|);
  }

  /** An item lengthens the queue; between its length and its body the last segment is torn. */
  lemma AppendShort<T(!new)>(c: Codec<T>, perSegment: nat, d: Disk, s: seq<T>, lo: nat, segs: seq<SegState<T>>, x: T)
    requires Sound(c) && Short(c, x) && Represents(c, perSegment, d, s, lo, segs)
    requires segs[|segs| - 1].SizeOnDisk() < perSegment
    ensures var n := |segs| - 1;
            var hi := lo + n;
            && hi in d
            && Represents(c, perSegment, d[hi := d[hi] + Record(c, x)], s + [x], lo, segs[n := segs[n].Added(x)])
            && CrashImage(c, perSegment, d[hi := d[hi] + Prefix(c, x)], s, s + [x])
            && CrashImage(c, perSegment, d[hi := d[hi] + Record(c, x)], s, s + [x])
  {
    hide Replay, Items, Image, Chain, Record, Prefix, Torn, U32LE;
    LastOnDisk(c, perSegment, d, s, lo, segs);
    ShortPrefix(c, x);
    var n, hi := |segs| - 1, lo + |segs| - 1;
    assert HoldsAt(c, perSegment, d, s, lo, segs);
    ReplayRecord(Uncapped(c), x, segs[n]);
    SameRecord(c, x);
    ImageWrite(c, d, lo, segs, n, Record(c, x), segs[n].Added(x));
    ChainAppend(perSegment, segs, x);
    TornBetween(c, perSegment, d, s, lo, segs, |c.encode(x)|);
    assert HoldsAt(c, perSegment, d[hi := d[hi] + Record(c, x)], s + [x], lo, segs[n := segs[n].Added(x)]);
  }

  lemma SameRecord<T>(c: Codec<T>, x: T)
    ensures Record(Uncapped(c), x) == Record(c, x)
  {
  }

  /** The first segment of a usable chain is empty exactly when the whole queue is. */
  lemma EmptyFirst<T>(perSegment: nat, segs: seq<SegState<T>>)
    requires Chain(perSegment, segs) && !Drained(perSegment, segs[0])
    ensures segs[0].objects == [] <==> Items(segs) == []
    ensures segs[0].objects != [] ==> Items(segs)[0] == segs[0].objects[0]
  {
    if segs[0].objects == [] {
      assert segs == [segs[0]];
      ItemsOne(segs[0]);
    }
  }

  lemma TornBetween<T(!new)>(c: Codec<T>, perSegment: nat, d: Disk, s: seq<T>, lo: nat, segs: seq<SegState<T>>, n: int)
    requires HoldsAt(c, perSegment, d, s, lo, segs) && 0 < n < TWO_TO_THE_32
    ensures var hi := lo + |segs| - 1;
            hi in d && Torn(c, perSegment, d[hi := d[hi] + U32LE(n)], s)
  {
    hide Replay, Items;
    var hi := lo + |segs| - 1;
    var t := d[hi := d[hi] + U32LE(n)];
    assert t[hi := d[hi]] == d;
    assert TornAt(c, perSegment, t, s, lo, segs, n);
  }

  /** Opens the queue in a directory. */
  method Open<T(!new)>(dir: Directory, codec: Codec<T>, perSegment: int) returns (r: Result<DQue<T>, QueueError>)
    requires Sound(codec) && codec.limit == MAX_OBJECT
    modifies dir
    ensures perSegment <= 0 ==>
              && r == Failure(InvalidItemsPerSegment)
              && dir.files == old(dir.files) && dir.trace == old(dir.trace)
    ensures perSegment > 0 ==>
              && dir.trace == old(dir.trace) + RecoverImages(codec, perSegment, old(dir.files))
              && match Recover(codec, perSegment, old(dir.files))
                 case OpenFailed(e, d) => r == Failure(e) && dir.files == d
                 case OpenedQueue(_, _, _, _, d) =>
                   && r.Success? && dir.files == d
                   && r.value.dir == dir && r.value.codec == codec && r.value.perSegment == perSegment
                   && !r.value.closed
                   && fresh(r.value.Repr() - {dir})
    ensures forall s | perSegment > 0 && OpensAs(codec, perSegment, old(dir.files), s) ::
              r.Success? && r.value.Valid() && r.value.Contents() == s
  {
    hide Recover, RecoverImages, Replay, Items, Represents, DQue<T>.Valid;
    if perSegment <= 0 {
      return Failure(InvalidItemsPerSegment);
    }
    var q := new DQue(dir, codec, perSegment);
    var err := q.Load();
    if err.Some? {
      return Failure(err.value);
    }
    q.cachedDiskBytes := dir.SumOfSizes();
    q.Adopt();
    assert forall s | OpensAs(codec, perSegment, old(dir.files), s) :: q.Carries(s);
    return Success(q);
  }

  /** A directory determines its chain. */
  lemma ImageUnique<T>(c: Codec<T>, d: Disk, lo: nat, a: seq<SegState<T>>, b: seq<SegState<T>>)
    requires Image(c, d, lo, a) && Image(c, d, lo, b)
    ensures a == b
  {
    hide Replay;
    assert |a| == |b| by {
      assert lo + |a| in d <==> |a| < |b|;
      assert lo + |b| in d <==> |b| < |a|;
    }
    forall i | 0 <= i < |a| ensures a[i] == b[i] {
      assert Written(c, d, lo + i) == Loaded(a[i]);
    }
  }
}
