/**
 The queue directory: which sets of segment files hold a queue, what that queue
 contains, how each file-system step changes it, and what opening the directory
 makes of it.
 */
module QueueDisk {
  import opened Bytes
  import opened SegmentLog

  /** Segment number to file contents. */
  type Disk = map<nat, seq<byte>>

  /** Where the scan for the smallest segment number starts. */
  const MAX_INT32 := 0x7FFF_FFFF

  datatype QueueError =
    | InvalidItemsPerSegment
    | QueueClosed
    | QueueEmpty
    | SegmentFileExists(number: nat)
    | SegmentFileMissing(number: nat)
    | UnreadableSegment(number: nat, error: SegError)

  // ----- A queue as a chain of segments -------------------------------------------

  /** The queue held by a chain of segments, oldest item first. */
  function Items<T>(segs: seq<SegState<T>>): seq<T> {
    if segs == [] then [] else segs[0].objects + Items(segs[1..])
  }

  /** Every segment but the last is full, and removals have happened only in the first. */
  ghost predicate Chain<T>(perSegment: nat, segs: seq<SegState<T>>) {
    && segs != []
    && (forall i | 0 <= i < |segs| - 1 :: segs[i].SizeOnDisk() == perSegment)
    && (forall i | 0 < i < |segs| :: segs[i].removeCount == 0)
    && segs[|segs| - 1].SizeOnDisk() <= perSegment
  }

  /** Empty and never to be written again. */
  predicate Drained<T>(perSegment: nat, s: SegState<T>) {
    s.objects == [] && s.SizeOnDisk() >= perSegment
  }

  lemma {:induction false} ItemsConcat<T>(a: seq<SegState<T>>, b: seq<SegState<T>>)
    ensures Items(a + b) == Items(a) + Items(b)
  {
    if a == [] {
      assert a + b == b;
    } else {
      ItemsConcat(a[1..], b);
      assert (a + b)[1..] == a[1..] + b;
      Associates(a[0].objects, Items(a[1..]), Items(b));
    }
  }

  lemma Associates<T>(x: seq<T>, y: seq<T>, z: seq<T>)
    ensures x + (y + z) == x + y + z
  {
  }

  lemma ItemsOne<T>(s: SegState<T>)
    ensures Items([s]) == s.objects
  {
    assert [s][1..] == [];
  }

  /** Full segments below the last one: the closed form of the size is exact. */
  lemma {:induction false} ItemsLength<T>(perSegment: nat, segs: seq<SegState<T>>)
    requires |segs| >= 2
    requires forall i | 0 < i < |segs| - 1 :: |segs[i].objects| == perSegment
    ensures |Items(segs)|
         == |segs[0].objects| + (|segs| - 2) * perSegment + |segs[|segs| - 1].objects|
    decreases |segs|
  {
    if |segs| == 2 {
      assert segs == [segs[0]] + [segs[1]];
      ItemsOne(segs[1]);
    } else {
      ItemsLength(perSegment, segs[1..]);
      assert (|segs| - 2) * perSegment == (|segs| - 3) * perSegment + perSegment;
    }
  }

  lemma ChainAppend<T>(perSegment: nat, segs: seq<SegState<T>>, x: T)
    requires Chain(perSegment, segs) && segs[|segs| - 1].SizeOnDisk() < perSegment
    ensures var segs' := segs[|segs| - 1 := segs[|segs| - 1].Added(x)];
            Chain(perSegment, segs') && Items(segs') == Items(segs) + [x]
  {
    hide Items;
    var n := |segs| - 1;
    var segs' := segs[n := segs[n].Added(x)];
    assert segs == segs[..n] + [segs[n]] && segs' == segs[..n] + [segs'[n]];
    ItemsConcat(segs[..n], [segs[n]]);
    ItemsConcat(segs[..n], [segs'[n]]);
    ItemsOne(segs[n]);
    ItemsOne(segs'[n]);
  }

  lemma ChainGrow<T>(perSegment: nat, segs: seq<SegState<T>>)
    requires Chain(perSegment, segs) && segs[|segs| - 1].SizeOnDisk() >= perSegment
    ensures var segs' := segs + [EmptySegment()];
            Chain(perSegment, segs') && Items(segs') == Items(segs)
  {
    hide Items;
    var segs' := segs + [EmptySegment()];
    ItemsConcat(segs, [EmptySegment()]);
    ItemsOne<T>(EmptySegment());
    assert Items(segs) + [] == Items(segs);
    assert forall i | 0 <= i < |segs| :: segs'[i] == segs[i];
  }

  lemma ChainMark<T>(perSegment: nat, segs: seq<SegState<T>>)
    requires Chain(perSegment, segs) && segs[0].objects != []
    ensures var segs' := segs[0 := segs[0].Removed()];
            Chain(perSegment, segs') && Items(segs) == [segs[0].objects[0]] + Items(segs')
  {
    hide Items;
    var s := segs[0];
    var segs' := segs[0 := s.Removed()];
    assert segs'[|segs| - 1].SizeOnDisk() == segs[|segs| - 1].SizeOnDisk();
    assert segs' == [s.Removed()] + segs[1..] && segs == [s] + segs[1..];
    ItemsConcat([s], segs[1..]);
    ItemsConcat([s.Removed()], segs[1..]);
    ItemsOne(s);
    ItemsOne(s.Removed());
  }

  lemma ItemsDropEmpty<T>(segs: seq<SegState<T>>)
    requires segs != [] && segs[0].objects == []
    ensures Items(segs[1..]) == Items(segs)
  {
    var rest := Items(segs[1..]);
    assert [] + rest == rest;
  }

  lemma ChainDrop<T>(perSegment: nat, segs: seq<SegState<T>>)
    requires Chain(perSegment, segs) && segs[0].objects == []
    ensures Items(segs[1..]) == Items(segs)
    ensures |segs| > 1 ==> Chain(perSegment, segs[1..])
  {
    hide Items;
    ItemsDropEmpty(segs);
    if |segs| > 1 {
      var rest := segs[1..];
      assert rest[|rest| - 1] == segs[|segs| - 1];
    }
  }

  // ----- Segments on disk ---------------------------------------------------------

  /** What loading makes of a file. */
  function SegmentAt<T>(c: Codec<T>, d: Disk, k: nat): Replayed<T>
    requires k in d
  {
    Replay(c, d[k], EmptySegment())
  }

  /** What the records of a file say, were no item too long to load. */
  function Written<T>(c: Codec<T>, d: Disk, k: nat): Replayed<T>
    requires k in d
  {
    Replay(Uncapped(c), d[k], EmptySegment())
  }

  /** Loading gives what is written, or finds a record that is too long. */
  predicate Readable<T>(c: Codec<T>, d: Disk, k: nat) {
    k in d && SegmentAt(c, d, k).Loaded?
  }

  lemma ReadsWritten<T>(c: Codec<T>, d: Disk, k: nat)
    requires c.limit < TWO_TO_THE_32 && k in d && Written(c, d, k).Loaded?
    ensures SegmentAt(c, d, k)
         == if Readable(c, d, k) then Written(c, d, k) else Rejected(CorruptedSegment(TooLong))
  {
    hide Replay;
    CapAgrees(c, d[k], EmptySegment());
  }

  /** The directory holds exactly the files `lo`, `lo + 1`, ... and `segs` is written in them. */
  ghost predicate Image<T>(c: Codec<T>, d: Disk, lo: nat, segs: seq<SegState<T>>) {
    && 1 <= lo
    && (forall k: nat :: k in d <==> lo <= k < lo + |segs|)
    && (forall k: nat | lo <= k < lo + |segs| :: Written(c, d, k) == Loaded(segs[k - lo]))
  }

  lemma ImageWrite<T>(c: Codec<T>, d: Disk, lo: nat, segs: seq<SegState<T>>, i: nat, t: seq<byte>, s: SegState<T>)
    requires Image(c, d, lo, segs) && i < |segs|
    requires Replay(Uncapped(c), t, segs[i]) == Loaded(s)
    ensures Image(c, d[lo + i := d[lo + i] + t], lo, segs[i := s])
  {
    assert Written(c, d, lo + i) == Loaded(segs[i]);
    ReplayAppend(Uncapped(c), d[lo + i], t, EmptySegment());
    var d' := d[lo + i := d[lo + i] + t];
    forall k: nat | lo <= k < lo + |segs| ensures Written(c, d', k) == Loaded(segs[i := s][k - lo]) {
      if k != lo + i {
        assert Written(c, d', k) == Written(c, d, k);
      }
    }
  }

  lemma ImageDrop<T>(c: Codec<T>, d: Disk, lo: nat, segs: seq<SegState<T>>)
    requires Image(c, d, lo, segs) && segs != []
    ensures Image(c, d - {lo}, lo + 1, segs[1..])
  {
    forall k: nat | lo + 1 <= k < lo + |segs|
      ensures k in d - {lo} && Written(c, d - {lo}, k) == Loaded(segs[1..][k - (lo + 1)])
    {
      assert Written(c, d - {lo}, k) == Written(c, d, k);
    }
  }

  lemma ImageCreate<T>(c: Codec<T>, d: Disk, lo: nat, segs: seq<SegState<T>>)
    requires Image(c, d, lo, segs)
    ensures Image(c, d[lo + |segs| := []], lo, segs + [EmptySegment()])
  {
    var d' := d[lo + |segs| := []];
    assert Written(c, d', lo + |segs|) == Loaded(EmptySegment());
    assert forall k: nat | lo <= k < lo + |segs| :: Written(c, d', k) == Written(c, d, k);
  }

  /** A file that can be read stays so unless a record that is too long is appended; otherwise it never is again. */
  lemma ReadableAppend<T(!new)>(c: Codec<T>, d: Disk, k: nat, x: T)
    requires Sound(c) && Short(c, x) && k in d && Written(c, d, k).Loaded?
    ensures var d' := d[k := d[k] + Record(c, x)];
            Readable(c, d', k) <==> Readable(c, d, k) && Fits(c, x)
  {
    hide Replay, Record;
    ReadsWritten(c, d, k);
    if Readable(c, d, k) {
      ReplayAppend(c, d[k], Record(c, x), EmptySegment());
      if Fits(c, x) {
        ReplayRecord(c, x, SegmentAt(c, d, k).state);
      } else {
        OversizeRecord(c, x, SegmentAt(c, d, k).state);
      }
    } else {
      RejectedAppend(c, d[k], Record(c, x), EmptySegment(), TooLong);
    }
  }

  lemma ReadableMark<T>(c: Codec<T>, d: Disk, k: nat)
    requires c.limit < TWO_TO_THE_32 && k in d && Written(c, d, k).Loaded? && Written(c, d, k).state.objects != []
    ensures Readable(c, d[k := d[k] + MARKER], k) <==> Readable(c, d, k)
  {
    hide Replay;
    ReadsWritten(c, d, k);
    if Readable(c, d, k) {
      ReplayAppend(c, d[k], MARKER, EmptySegment());
      ReplayMarker(c, SegmentAt(c, d, k).state);
    } else {
      RejectedAppend(c, d[k], MARKER, EmptySegment(), TooLong);
    }
  }

  // ----- What a stop between file-system steps may leave --------------------------

  ghost predicate HoldsAt<T>(c: Codec<T>, perSegment: nat, d: Disk, s: seq<T>, lo: nat, segs: seq<SegState<T>>) {
    Image(c, d, lo, segs) && Chain(perSegment, segs) && Items(segs) == s
  }

  /** The directory holds the queue `s`: no files at all, or a chain of segments. */
  ghost predicate Holds<T(!new)>(c: Codec<T>, perSegment: nat, d: Disk, s: seq<T>) {
    || (d == map[] && s == [])
    || exists lo: nat, segs :: HoldsAt(c, perSegment, d, s, lo, segs)
  }

  /** The last file ends in the length of a record whose body is missing, on top of the queue `s`. */
  ghost predicate TornAt<T>(c: Codec<T>, perSegment: nat, d: Disk, s: seq<T>, lo: nat, segs: seq<SegState<T>>, n: int) {
    && segs != []
    && 0 < n < TWO_TO_THE_32
    && var hi := lo + |segs| - 1;
    && hi in d
    && |d[hi]| >= 4
    && d[hi][|d[hi]| - 4..] == U32LE(n)
    && HoldsAt(c, perSegment, d[hi := d[hi][..|d[hi]| - 4]], s, lo, segs)
  }

  ghost predicate Torn<T(!new)>(c: Codec<T>, perSegment: nat, d: Disk, s: seq<T>) {
    exists lo: nat, segs, n :: TornAt(c, perSegment, d, s, lo, segs, n)
  }

  /** What a stop in the middle of an operation that takes `before` to `after` may leave. */
  ghost predicate CrashImage<T(!new)>(c: Codec<T>, perSegment: nat, d: Disk, before: seq<T>, after: seq<T>) {
    Holds(c, perSegment, d, before) || Holds(c, perSegment, d, after) || Torn(c, perSegment, d, before)
  }

  // ----- Opening a directory ------------------------------------------------------

  ghost function MaxNumber(s: set<nat>): (m: nat)
    ensures forall k :: k in s ==> k <= m
    ensures m == 0 || m in s
  {
    if s == {} then 0
    else
      var k :| k in s;
      var r := MaxNumber(s - {k});
      assert s == s - {k} + {k};
      if k > r then k else r
  }

  ghost function MinNumber(s: set<nat>): (m: nat)
    ensures m <= MAX_INT32 && forall k :: k in s ==> m <= k
    ensures m == MAX_INT32 || m in s
  {
    if s == {} then MAX_INT32
    else
      var k :| k in s;
      var r := MinNumber(s - {k});
      assert s == s - {k} + {k};
      if k < r then k else r
  }

  datatype Scan<T> =
    | Usable(number: nat, state: SegState<T>, disk: Disk)
    | NothingUsable(disk: Disk)
    | ScanFailed(error: QueueError, disk: Disk)

  /** The scan for the first usable segment, which removes drained ones on its way. */
  function ScanFrom<T>(c: Codec<T>, perSegment: nat, d: Disk, lo: nat, hi: nat): Scan<T>
    decreases hi + 1 - lo
  {
    if lo > hi then NothingUsable(d)
    else if lo !in d then ScanFailed(SegmentFileMissing(lo), d)
    else
      match SegmentAt(c, d, lo)
      case Rejected(e) => ScanFailed(UnreadableSegment(lo, e), d)
      case Loaded(s) =>
        if |s.objects| > 0 || s.SizeOnDisk() < perSegment then Usable(lo, s, d)
        else ScanFrom(c, perSegment, d - {lo}, lo + 1, hi)
  }

  /** Outcome of opening a directory: the first and last segments, or why it failed, and the files left. */
  datatype Opened<T> =
    | OpenedQueue(lo: nat, hi: nat, first: SegState<T>, last: SegState<T>, disk: Disk)
    | OpenFailed(error: QueueError, disk: Disk)

  /** The specification of opening a directory. */
  ghost function Recover<T>(c: Codec<T>, perSegment: nat, d: Disk): Opened<T> {
    RecoverBetween(c, perSegment, d, MinNumber(d.Keys), MaxNumber(d.Keys))
  }

  function RecoverBetween<T>(c: Codec<T>, perSegment: nat, d: Disk, lo: nat, hi: nat): Opened<T> {
    match if hi > 0 then ScanFrom(c, perSegment, d, lo, hi) else NothingUsable(d)
    case ScanFailed(e, d') => OpenFailed(e, d')
    case NothingUsable(d') =>
      if 1 in d' then OpenFailed(SegmentFileExists(1), d')
      else OpenedQueue(1, 1, EmptySegment(), EmptySegment(), d'[1 := []])
    case Usable(k, s, d') =>
      if k == hi then OpenedQueue(k, k, s, s, d')
      else if hi !in d' then OpenFailed(SegmentFileMissing(hi), d')
      else
        match SegmentAt(c, d', hi)
        case Rejected(e) => OpenFailed(UnreadableSegment(hi, e), d')
        case Loaded(last) => OpenedQueue(k, hi, s, last, d')
  }

  /** The directories that opening passes through, one after each file-system step. */
  function ScanImages<T>(c: Codec<T>, perSegment: nat, d: Disk, lo: nat, hi: nat): seq<Disk>
    decreases hi + 1 - lo
  {
    if lo > hi || lo !in d then []
    else
      match SegmentAt(c, d, lo)
      case Rejected(_) => []
      case Loaded(s) =>
        if |s.objects| > 0 || s.SizeOnDisk() < perSegment then []
        else [d - {lo}] + ScanImages(c, perSegment, d - {lo}, lo + 1, hi)
  }

  /** One turn of the scan. */
  lemma ScanTurn<T>(c: Codec<T>, perSegment: nat, d: Disk, lo: nat, hi: nat)
    requires lo <= hi
    ensures lo !in d ==>
              && ScanFrom(c, perSegment, d, lo, hi) == ScanFailed(SegmentFileMissing(lo), d)
              && ScanImages(c, perSegment, d, lo, hi) == []
    ensures lo in d && SegmentAt(c, d, lo).Rejected? ==>
              && ScanFrom(c, perSegment, d, lo, hi)
              == ScanFailed(UnreadableSegment(lo, SegmentAt(c, d, lo).error), d)
              && ScanImages(c, perSegment, d, lo, hi) == []
    ensures lo in d && SegmentAt(c, d, lo).Loaded? ==>
              var s := SegmentAt(c, d, lo).state;
              if |s.objects| > 0 || s.SizeOnDisk() < perSegment then
                && ScanFrom(c, perSegment, d, lo, hi) == Usable(lo, s, d)
                && ScanImages(c, perSegment, d, lo, hi) == []
              else
                && ScanFrom(c, perSegment, d, lo, hi) == ScanFrom(c, perSegment, d - {lo}, lo + 1, hi)
                && ScanImages(c, perSegment, d, lo, hi)
                == [d - {lo}] + ScanImages(c, perSegment, d - {lo}, lo + 1, hi)
  {
  }

  lemma ScanOver<T>(c: Codec<T>, perSegment: nat, d: Disk, lo: nat, hi: nat)
    requires lo > hi
    ensures ScanFrom(c, perSegment, d, lo, hi) == NothingUsable(d)
    ensures ScanImages(c, perSegment, d, lo, hi) == []
  {
  }

  function ImagesBetween<T>(c: Codec<T>, perSegment: nat, d: Disk, lo: nat, hi: nat): seq<Disk> {
    var scanned := if hi > 0 then ScanImages(c, perSegment, d, lo, hi) else [];
    match if hi > 0 then ScanFrom(c, perSegment, d, lo, hi) else NothingUsable(d)
    case NothingUsable(d') => if 1 in d' then scanned else scanned + [d'[1 := []]]
    case _ => scanned
  }

  ghost function RecoverImages<T>(c: Codec<T>, perSegment: nat, d: Disk): seq<Disk> {
    ImagesBetween(c, perSegment, d, MinNumber(d.Keys), MaxNumber(d.Keys))
  }

  /** The chain `segs` from `lo` is on disk, holds `s`, and its first segment is usable. */
  ghost predicate Represents<T>(c: Codec<T>, perSegment: nat, d: Disk, s: seq<T>, lo: nat, segs: seq<SegState<T>>) {
    HoldsAt(c, perSegment, d, s, lo, segs) && !Drained(perSegment, segs[0])
  }

  /** Opening succeeds with the queue `s`. */
  ghost predicate OpensAs<T(!new)>(c: Codec<T>, perSegment: nat, d: Disk, s: seq<T>) {
    match Recover(c, perSegment, d)
    case OpenedQueue(lo, hi, first, last, d') =>
      exists segs :: Represents(c, perSegment, d', s, lo, segs)
        && hi == lo + |segs| - 1 && first == segs[0] && last == segs[|segs| - 1]
    case OpenFailed(_, _) => false
  }

  lemma Bounds<T>(c: Codec<T>, d: Disk, lo: nat, segs: seq<SegState<T>>)
    requires Image(c, d, lo, segs) && segs != []
    ensures MaxNumber(d.Keys) == lo + |segs| - 1
    ensures MinNumber(d.Keys) == if lo <= MAX_INT32 then lo else MAX_INT32
  {
    assert lo in d.Keys && lo + |segs| - 1 in d.Keys;
  }

  function Unread<T>(k: nat, d: Disk): Opened<T> {
    OpenFailed(UnreadableSegment(k, CorruptedSegment(TooLong)), d)
  }

  /** What opening makes of a chain whose first segment is usable: both ends are read. */
  function EndsOpened<T>(c: Codec<T>, d: Disk, lo: nat, segs: seq<SegState<T>>): Opened<T>
    requires segs != []
  {
    var hi := lo + |segs| - 1;
    if !Readable(c, d, lo) then Unread(lo, d)
    else if !Readable(c, d, hi) then Unread(hi, d)
    else OpenedQueue(lo, hi, segs[0], segs[|segs| - 1], d)
  }

  /** What it makes of any chain: a drained first segment is removed once it has been read. */
  function ChainOpened<T>(c: Codec<T>, perSegment: nat, d: Disk, lo: nat, segs: seq<SegState<T>>): Opened<T>
    requires segs != []
  {
    if !Readable(c, d, lo) || !Drained(perSegment, segs[0]) then EndsOpened(c, d, lo, segs)
    else if |segs| == 1 then OpenedQueue(1, 1, EmptySegment(), EmptySegment(), map[1 := []])
    else EndsOpened(c, d - {lo}, lo + 1, segs[1..])
  }

  /** The scan stops at the first segment, or at the second when the first is drained. */
  lemma ScanUsable<T>(c: Codec<T>, perSegment: nat, d: Disk, lo: nat, segs: seq<SegState<T>>)
    requires c.limit < TWO_TO_THE_32 && Image(c, d, lo, segs) && segs != [] && !Drained(perSegment, segs[0])
    ensures ScanFrom(c, perSegment, d, lo, lo + |segs| - 1)
         == if Readable(c, d, lo) then Usable(lo, segs[0], d)
            else ScanFailed(UnreadableSegment(lo, CorruptedSegment(TooLong)), d)
    ensures ScanImages(c, perSegment, d, lo, lo + |segs| - 1) == []
  {
    hide Replay;
    assert Written(c, d, lo) == Loaded(segs[0]);
    ReadsWritten(c, d, lo);
  }

  lemma LastOpened<T>(c: Codec<T>, d: Disk, lo: nat, segs: seq<SegState<T>>)
    requires c.limit < TWO_TO_THE_32 && Image(c, d, lo, segs) && segs != []
    ensures var hi := lo + |segs| - 1;
            && hi in d
            && SegmentAt(c, d, hi) == if Readable(c, d, hi) then Loaded(segs[|segs| - 1])
                                      else Rejected(CorruptedSegment(TooLong))
  {
    hide Replay;
    var hi := lo + |segs| - 1;
    assert Written(c, d, hi) == Loaded(segs[hi - lo]);
    ReadsWritten(c, d, hi);
  }

  lemma SecondUsable<T>(perSegment: nat, segs: seq<SegState<T>>)
    requires perSegment > 0 && Chain(perSegment, segs) && |segs| > 1
    ensures !Drained(perSegment, segs[1])
  {
  }

  /** Opening a directory that holds a chain, exactly. */
  lemma OpenChain<T>(c: Codec<T>, perSegment: nat, d: Disk, lo: nat, segs: seq<SegState<T>>)
    requires perSegment > 0 && c.limit < TWO_TO_THE_32 && Image(c, d, lo, segs) && Chain(perSegment, segs)
    requires lo <= MAX_INT32
    ensures Recover(c, perSegment, d) == ChainOpened(c, perSegment, d, lo, segs)
    ensures RecoverImages(c, perSegment, d)
         == if !Readable(c, d, lo) || !Drained(perSegment, segs[0]) then []
            else if |segs| == 1 then [map[], map[1 := []]]
            else [d - {lo}]
  {
    hide Replay, ScanFrom, ScanImages, Image, Readable;
    Bounds(c, d, lo, segs);
    LowInside(c, d, lo, segs);
    if !Drained(perSegment, segs[0]) {
      ScanUsable(c, perSegment, d, lo, segs);
      LastOpened(c, d, lo, segs);
    } else {
      OpenDrained(c, perSegment, d, lo, segs);
    }
  }

  lemma LowInside<T>(c: Codec<T>, d: Disk, lo: nat, segs: seq<SegState<T>>)
    requires Image(c, d, lo, segs) && segs != []
    ensures 1 <= lo && lo in d && (|segs| == 1 ==> d - {lo} == map[])
  {
  }

  lemma OpenDrained<T>(c: Codec<T>, perSegment: nat, d: Disk, lo: nat, segs: seq<SegState<T>>)
    requires perSegment > 0 && c.limit < TWO_TO_THE_32 && Image(c, d, lo, segs) && Chain(perSegment, segs)
    requires Drained(perSegment, segs[0])
    ensures var hi := lo + |segs| - 1;
            && RecoverBetween(c, perSegment, d, lo, hi) == ChainOpened(c, perSegment, d, lo, segs)
            && ImagesBetween(c, perSegment, d, lo, hi)
            == if !Readable(c, d, lo) then []
               else if |segs| == 1 then [map[], map[1 := []]]
               else [d - {lo}]
  {
    hide Replay, ScanFrom, ScanImages, Image, Readable;
    var hi, d' := lo + |segs| - 1, d - {lo};
    LowInside(c, d, lo, segs);
    ScanTurn(c, perSegment, d, lo, hi);
    FirstOpened(c, d, lo, segs);
    if Readable(c, d, lo) {
      if |segs| == 1 {
        ScanOver(c, perSegment, d', lo + 1, hi);
      } else {
        ImageDrop(c, d, lo, segs);
        SecondUsable(perSegment, segs);
        ScanUsable(c, perSegment, d', lo + 1, segs[1..]);
        LastOpened(c, d', lo + 1, segs[1..]);
      }
    }
  }

  lemma FirstOpened<T>(c: Codec<T>, d: Disk, lo: nat, segs: seq<SegState<T>>)
    requires c.limit < TWO_TO_THE_32 && Image(c, d, lo, segs) && segs != []
    ensures lo in d && SegmentAt(c, d, lo) == if Readable(c, d, lo) then Loaded(segs[0])
                                              else Rejected(CorruptedSegment(TooLong))
  {
    hide Replay;
    assert Written(c, d, lo) == Loaded(segs[0]);
    ReadsWritten(c, d, lo);
  }

  lemma DropRepresents<T>(c: Codec<T>, perSegment: nat, d: Disk, s: seq<T>, lo: nat, segs: seq<SegState<T>>)
    requires perSegment > 0 && HoldsAt(c, perSegment, d, s, lo, segs)
    requires segs[0].objects == [] && |segs| > 1
    ensures Represents(c, perSegment, d - {lo}, s, lo + 1, segs[1..])
  {
    ImageDrop(c, d, lo, segs);
    ChainDrop(perSegment, segs);
  }

  lemma OpenEmpty<T(!new)>(c: Codec<T>, perSegment: nat)
    requires perSegment > 0
    ensures OpensAs(c, perSegment, map[], [])
    ensures Represents(c, perSegment, map[1 := []], [], 1, [EmptySegment()])
  {
    var d: Disk := map[];
    var segs: seq<SegState<T>> := [];
    assert Image(c, d, 1, segs);
    ImageCreate(c, d, 1, segs);
    assert segs + [EmptySegment()] == [EmptySegment()];
    ItemsOne<T>(EmptySegment());
    assert d[1 := []] == map[1 := []];
    assert Represents(c, perSegment, map[1 := []], [], 1, [EmptySegment()]);
    assert d.Keys == {};
  }

  /** The scan can find the first segment: its number does not exceed the scan's starting point. */
  predicate FirstNumberFits(d: Disk) {
    d == map[] || exists k :: k in d && k <= MAX_INT32
  }

  /** Whether loading can read the segments that opening reads: the first usable one, those before it, and the last. */
  ghost predicate EndsReadable<T>(c: Codec<T>, perSegment: nat, d: Disk) {
    d != map[] ==>
      var lo, hi := MinNumber(d.Keys), MaxNumber(d.Keys);
      && Readable(c, d, lo) && Readable(c, d, hi)
      && (Drained(perSegment, SegmentAt(c, d, lo).state) && lo < hi ==> Readable(c, d, lo + 1))
  }

  lemma EndsReadableAt<T>(c: Codec<T>, perSegment: nat, d: Disk, lo: nat, segs: seq<SegState<T>>)
    requires c.limit < TWO_TO_THE_32 && Image(c, d, lo, segs) && segs != [] && lo <= MAX_INT32
    ensures EndsReadable(c, perSegment, d) <==> ChainOpened(c, perSegment, d, lo, segs).OpenedQueue?
    ensures !EndsReadable(c, perSegment, d) ==>
              exists k: nat :: lo <= k < lo + |segs| && ChainOpened(c, perSegment, d, lo, segs).error
                                                        == UnreadableSegment(k, CorruptedSegment(TooLong))
  {
    hide Replay, Image;
    Bounds(c, d, lo, segs);
    LowInside(c, d, lo, segs);
    FirstOpened(c, d, lo, segs);
    var hi := lo + |segs| - 1;
    assert forall k: nat | k != lo :: Readable(c, d - {lo}, k) <==> Readable(c, d, k);
    if !EndsReadable(c, perSegment, d) {
      var k := if !Readable(c, d, lo) then lo
               else if Drained(perSegment, segs[0]) && |segs| > 1 && !Readable(c, d, lo + 1) then lo + 1
               else hi;
      assert ChainOpened(c, perSegment, d, lo, segs).error == UnreadableSegment(k, CorruptedSegment(TooLong));
    }
  }

  /** Opening fails because a segment has a record that is too long to load. */
  ghost predicate OpensTooLong<T>(c: Codec<T>, perSegment: nat, d: Disk) {
    && Recover(c, perSegment, d).OpenFailed?
    && exists k: nat :: Recover(c, perSegment, d).error == UnreadableSegment(k, CorruptedSegment(TooLong))
  }

  lemma ChainOpensAs<T(!new)>(c: Codec<T>, perSegment: nat, d: Disk, s: seq<T>, lo: nat, segs: seq<SegState<T>>)
    requires perSegment > 0 && HoldsAt(c, perSegment, d, s, lo, segs)
    requires Recover(c, perSegment, d) == ChainOpened(c, perSegment, d, lo, segs)
    requires ChainOpened(c, perSegment, d, lo, segs).OpenedQueue?
    ensures OpensAs(c, perSegment, d, s)
  {
    hide Recover, Replay, Image, Readable;
    if !Drained(perSegment, segs[0]) {
      assert Represents(c, perSegment, d, s, lo, segs);
    } else if |segs| == 1 {
      ItemsOne(segs[0]);
      assert segs == [segs[0]];
      OpenEmpty<T>(c, perSegment);
    } else {
      DropRepresents(c, perSegment, d, s, lo, segs);
    }
  }

  lemma OpenHoldingAt<T(!new)>(c: Codec<T>, perSegment: nat, d: Disk, s: seq<T>, lo: nat, segs: seq<SegState<T>>)
    requires perSegment > 0 && c.limit < TWO_TO_THE_32
    requires HoldsAt(c, perSegment, d, s, lo, segs) && lo <= MAX_INT32
    ensures OpensAs(c, perSegment, d, s) <==> EndsReadable(c, perSegment, d)
    ensures !EndsReadable(c, perSegment, d) ==> OpensTooLong(c, perSegment, d)
  {
    hide Recover, RecoverImages, Replay, Image, EndsReadable, Readable, ChainOpened, Items;
    OpenChain(c, perSegment, d, lo, segs);
    EndsReadableAt(c, perSegment, d, lo, segs);
    if ChainOpened(c, perSegment, d, lo, segs).OpenedQueue? {
      ChainOpensAs(c, perSegment, d, s, lo, segs);
    }
  }

  /**
   Opening a directory that holds the queue `s` gives back `s`, if and only if the
   smallest segment number does not exceed the largest signed 32-bit integer and the
   segments that opening reads have no record that is too long.
   */
  lemma OpenHolding<T(!new)>(c: Codec<T>, perSegment: nat, d: Disk, s: seq<T>)
    requires perSegment > 0 && c.limit < TWO_TO_THE_32 && Holds(c, perSegment, d, s)
    ensures OpensAs(c, perSegment, d, s) <==> FirstNumberFits(d) && EndsReadable(c, perSegment, d)
    ensures !FirstNumberFits(d) ==> Recover(c, perSegment, d) == OpenFailed(SegmentFileMissing(MAX_INT32), d)
    ensures FirstNumberFits(d) && !EndsReadable(c, perSegment, d) ==> OpensTooLong(c, perSegment, d)
  {
    hide Recover, Replay, EndsReadable, OpensAs, OpensTooLong;
    if !FirstNumberFits(d) {
      NothingFits(c, perSegment, d);
      FailedOpensNot(c, perSegment, d, s);
    } else if d == map[] && s == [] {
      OpenEmpty<T>(c, perSegment);
      NothingToRead(c, perSegment);
    } else {
      var lo: nat, segs :| HoldsAt(c, perSegment, d, s, lo, segs);
      LowFits(c, d, lo, segs);
      OpenHoldingAt(c, perSegment, d, s, lo, segs);
    }
  }

  lemma FailedOpensNot<T(!new)>(c: Codec<T>, perSegment: nat, d: Disk, s: seq<T>)
    requires Recover(c, perSegment, d).OpenFailed?
    ensures !OpensAs(c, perSegment, d, s)
  {
  }

  lemma NothingToRead<T>(c: Codec<T>, perSegment: nat)
    ensures EndsReadable(c, perSegment, map[])
  {
  }

  lemma LowFits<T>(c: Codec<T>, d: Disk, lo: nat, segs: seq<SegState<T>>)
    requires Image(c, d, lo, segs) && segs != [] && FirstNumberFits(d)
    ensures lo <= MAX_INT32
  {
    assert lo in d;
  }

  /** No file has a record that is too long, as far as it can be read. */
  ghost predicate NoneTooLong<T>(c: Codec<T>, d: Disk) {
    forall k <- d :: SegmentAt(c, d, k) != Rejected(CorruptedSegment(TooLong))
  }

  /** The scan stops for a file that is there. */
  lemma {:induction false} ScanStops<T>(c: Codec<T>, perSegment: nat, d: Disk, lo: nat, hi: nat)
    ensures ScanFrom(c, perSegment, d, lo, hi).disk.Keys <= d.Keys
    ensures forall k <- ScanFrom(c, perSegment, d, lo, hi).disk :: ScanFrom(c, perSegment, d, lo, hi).disk[k] == d[k]
    ensures match ScanFrom(c, perSegment, d, lo, hi)
            case ScanFailed(UnreadableSegment(k, e), _) => k in d && SegmentAt(c, d, k) == Rejected(e)
            case _ => true
    decreases hi + 1 - lo
  {
    hide SegmentAt, ScanFrom;
    if lo > hi {
      ScanOver(c, perSegment, d, lo, hi);
    } else {
      ScanTurn(c, perSegment, d, lo, hi);
      if lo in d {
        ScanStops(c, perSegment, d - {lo}, lo + 1, hi);
        SameFiles(c, d - {lo}, d);
      }
    }
  }

  lemma SameFiles<T>(c: Codec<T>, a: Disk, b: Disk)
    requires a.Keys <= b.Keys && forall k <- a :: a[k] == b[k]
    ensures forall k <- a :: SegmentAt(c, a, k) == SegmentAt(c, b, k)
  {
  }

  /** Opening reports a record that is too long only if there is one. */
  lemma TooLongThere<T>(c: Codec<T>, perSegment: nat, d: Disk)
    ensures OpensTooLong(c, perSegment, d) ==> !NoneTooLong(c, d)
  {
    hide SegmentAt, ScanFrom;
    var lo, hi := MinNumber(d.Keys), MaxNumber(d.Keys);
    ScanStops(c, perSegment, d, lo, hi);
    SameFiles(c, ScanFrom(c, perSegment, d, lo, hi).disk, d);
  }

  /** When no file has a record that is too long, opening can read the ends. */
  lemma AllEndsReadable<T(!new)>(c: Codec<T>, perSegment: nat, d: Disk, s: seq<T>)
    requires perSegment > 0 && c.limit < TWO_TO_THE_32
    requires Holds(c, perSegment, d, s) && FirstNumberFits(d) && NoneTooLong(c, d)
    ensures EndsReadable(c, perSegment, d)
  {
    hide OpensTooLong, NoneTooLong, EndsReadable, Holds, OpensAs;
    OpenHolding(c, perSegment, d, s);
    TooLongThere(c, perSegment, d);
  }

  /** Beyond that limit every directory fails to open, for a segment that was never there. */
  lemma NothingFits<T>(c: Codec<T>, perSegment: nat, d: Disk)
    requires !FirstNumberFits(d)
    ensures Recover(c, perSegment, d) == OpenFailed(SegmentFileMissing(MAX_INT32), d)
  {
    var lo, hi := MinNumber(d.Keys), MaxNumber(d.Keys);
    assert d != map[];
    var k :| k in d;
    assert k in d.Keys && hi >= k > MAX_INT32;
    assert lo == MAX_INT32 && lo !in d;
  }

  /** A concrete directory beyond that limit: it holds an empty queue and does not open. */
  lemma NumberTooLarge<T(!new)>(c: Codec<T>)
    requires c.limit < TWO_TO_THE_32
    ensures var d: Disk := map[MAX_INT32 + 1 := []];
            Holds(c, 1, d, []) && !OpensAs(c, 1, d, [])
  {
    var none: Disk, segs: seq<SegState<T>> := map[], [];
    assert Image(c, none, MAX_INT32 + 1, segs);
    ImageCreate(c, none, MAX_INT32 + 1, segs);
    assert segs + [EmptySegment()] == [EmptySegment()];
    ItemsOne<T>(EmptySegment());
    var d: Disk := map[MAX_INT32 + 1 := []];
    assert none[MAX_INT32 + 1 := []] == d;
    assert HoldsAt(c, 1, d, [], MAX_INT32 + 1, [EmptySegment()]);
    assert MAX_INT32 + 1 in d;
    assert !FirstNumberFits(d);
    OpenHolding(c, 1, d, []);
  }

  /** When only the last file cannot be read in full, opening fails on it, or on a record that is too long before it. */
  lemma OpenRejected<T>(c: Codec<T>, perSegment: nat, d: Disk, d0: Disk, lo: nat, segs: seq<SegState<T>>, e: SegError)
    requires perSegment > 0 && c.limit < TWO_TO_THE_32 && Image(c, d0, lo, segs) && Chain(perSegment, segs)
    requires lo <= MAX_INT32
    requires d.Keys == d0.Keys && forall k: nat | lo <= k < lo + |segs| - 1 :: d[k] == d0[k]
    requires SegmentAt(c, d, lo + |segs| - 1) == Rejected(e)
    ensures Recover(c, perSegment, d).OpenFailed?
    ensures var error := Recover(c, perSegment, d).error;
            || error == UnreadableSegment(lo + |segs| - 1, e)
            || exists k: nat :: error == UnreadableSegment(k, CorruptedSegment(TooLong))
  {
    hide Replay, ScanFrom, Image;
    Bounds(c, d0, lo, segs);
    LowInside(c, d0, lo, segs);
    var hi, d' := lo + |segs| - 1, d - {lo};
    ScanTurn(c, perSegment, d, lo, hi);
    if |segs| > 1 {
      assert SegmentAt(c, d, lo) == SegmentAt(c, d0, lo);
      FirstOpened(c, d0, lo, segs);
      if Readable(c, d0, lo) && Drained(perSegment, segs[0]) {
        ScanTurn(c, perSegment, d', lo + 1, hi);
        assert SegmentAt(c, d', hi) == SegmentAt(c, d, hi);
        SecondOpened(c, d0, lo, segs);
        SecondUsable(perSegment, segs);
        if lo + 1 < hi {
          assert SegmentAt(c, d', lo + 1) == SegmentAt(c, d0, lo + 1);
        }
      }
    }
  }

  lemma SecondOpened<T>(c: Codec<T>, d: Disk, lo: nat, segs: seq<SegState<T>>)
    requires c.limit < TWO_TO_THE_32 && Image(c, d, lo, segs) && |segs| > 1
    ensures lo + 1 in d && SegmentAt(c, d, lo + 1) == if Readable(c, d, lo + 1) then Loaded(segs[1])
                                                      else Rejected(CorruptedSegment(TooLong))
  {
    hide Replay;
    assert Written(c, d, lo + 1) == Loaded(segs[(lo + 1) - lo]);
    ReadsWritten(c, d, lo + 1);
  }

  /** Opening reports the torn last segment. */
  ghost predicate OpensTorn<T>(c: Codec<T>, perSegment: nat, d: Disk) {
    && Recover(c, perSegment, d).OpenFailed?
    && Recover(c, perSegment, d).error == UnreadableSegment(MaxNumber(d.Keys), CorruptedSegment(ShortBody))
  }

  /** Opening a directory torn between a length and its body reports that, or a record that is too long. */
  lemma OpenTorn<T(!new)>(c: Codec<T>, perSegment: nat, d: Disk, s: seq<T>)
    requires perSegment > 0 && c.limit < TWO_TO_THE_32 && Torn(c, perSegment, d, s) && FirstNumberFits(d)
    ensures OpensTorn(c, perSegment, d) || OpensTooLong(c, perSegment, d)
    ensures NoneTooLong(c, d) ==> OpensTorn(c, perSegment, d)
  {
    hide Replay, Recover, Items, Image, OpensTooLong, NoneTooLong;
    var lo: nat, segs, n :| TornAt(c, perSegment, d, s, lo, segs, n);
    var hi := lo + |segs| - 1;
    var d0 := d[hi := d[hi][..|d[hi]| - 4]];
    assert d.Keys == d0.Keys;
    Bounds(c, d0, lo, segs);
    assert FirstNumberFits(d0) by {
      var k :| k in d && k <= MAX_INT32;
      assert k in d0;
    }
    LowFits(c, d0, lo, segs);
    LastOpened(c, d0, lo, segs);
    TornFile(c, d[hi], n);
    var e := SegmentAt(c, d, hi).error;
    OpenRejected(c, perSegment, d, d0, lo, segs, e);
    IsTooLong(c, perSegment, d, hi, e);
    TooLongThere(c, perSegment, d);
  }

  lemma IsTooLong<T>(c: Codec<T>, perSegment: nat, d: Disk, hi: nat, e: SegError)
    requires Recover(c, perSegment, d).OpenFailed?
    requires var error := Recover(c, perSegment, d).error;
             || error == UnreadableSegment(hi, e)
             || exists k: nat :: error == UnreadableSegment(k, CorruptedSegment(TooLong))
    ensures OpensTooLong(c, perSegment, d)
            || Recover(c, perSegment, d).error == UnreadableSegment(hi, e)
    ensures e == CorruptedSegment(TooLong) ==> OpensTooLong(c, perSegment, d)
  {
    hide Recover;
  }

  lemma ImageKeys<T>(c: Codec<T>, d: Disk, lo: nat, segs: seq<SegState<T>>)
    requires Image(c, d, lo, segs)
    ensures forall k: nat :: k in d <==> lo <= k < lo + |segs|
  {
  }

  lemma TornFile<T>(c: Codec<T>, f: seq<byte>, n: int)
    requires c.limit < TWO_TO_THE_32 && 0 < n < TWO_TO_THE_32 && |f| >= 4 && f[|f| - 4..] == U32LE(n)
    requires Replay(c, f[..|f| - 4], EmptySegment()).Loaded?
             || Replay(c, f[..|f| - 4], EmptySegment()) == Rejected(CorruptedSegment(TooLong))
    ensures Replay(c, f, EmptySegment())
         == Rejected(CorruptedSegment(
              if Replay(c, f[..|f| - 4], EmptySegment()).Loaded? && n <= c.limit then ShortBody else TooLong))
  {
    var g := f[..|f| - 4];
    assert f == g + U32LE(n);
    if Replay(c, g, EmptySegment()).Loaded? {
      ReplayAppend(c, g, U32LE(n), EmptySegment());
      U32RoundTrip(n);
      assert U32LE(n)[..4] == U32LE(n);
    } else {
      RejectedAppend(c, g, U32LE(n), EmptySegment(), TooLong);
    }
  }

  // ----- Stopping while opening ---------------------------------------------------

  /** Every directory that opening passes through still holds the same queue. */
  lemma OpeningKeeps<T(!new)>(c: Codec<T>, perSegment: nat, d: Disk, s: seq<T>)
    requires perSegment > 0 && c.limit < TWO_TO_THE_32 && Holds(c, perSegment, d, s)
    ensures forall image | image in RecoverImages(c, perSegment, d) :: Holds(c, perSegment, image, s)
  {
    hide Replay, Items, RecoverImages, ChainOpened;
    if d == map[] && s == [] {
      OpenEmpty<T>(c, perSegment);
      assert HoldsAt(c, perSegment, map[1 := []], [], 1, [EmptySegment()]);
      NewImages<T>(c, perSegment);
    } else {
      var lo: nat, segs :| HoldsAt(c, perSegment, d, s, lo, segs);
      if lo <= MAX_INT32 {
        OpenChain(c, perSegment, d, lo, segs);
        if Drained(perSegment, segs[0]) {
          OpeningKeepsAt(c, perSegment, d, s, lo, segs);
        }
      } else {
        Bounds(c, d, lo, segs);
        NoImages(c, perSegment, d);
      }
    }
  }

  lemma NewImages<T>(c: Codec<T>, perSegment: nat)
    ensures RecoverImages(c, perSegment, map[]) == [map[1 := []]]
  {
    var none: Disk := map[];
    assert none.Keys == {};
  }

  lemma NoImages<T>(c: Codec<T>, perSegment: nat, d: Disk)
    requires d != map[] && MinNumber(d.Keys) == MAX_INT32 && MAX_INT32 !in d && MaxNumber(d.Keys) > MAX_INT32
    ensures RecoverImages(c, perSegment, d) == []
  {
  }

  lemma OpeningKeepsAt<T(!new)>(c: Codec<T>, perSegment: nat, d: Disk, s: seq<T>, lo: nat, segs: seq<SegState<T>>)
    requires perSegment > 0 && HoldsAt(c, perSegment, d, s, lo, segs) && Drained(perSegment, segs[0])
    ensures |segs| == 1 ==> Holds(c, perSegment, map[], s) && Holds(c, perSegment, map[1 := []], s)
    ensures |segs| > 1 ==> Holds(c, perSegment, d - {lo}, s)
  {
    hide Replay, Items, Image;
    if |segs| == 1 {
      ItemsOne(segs[0]);
      assert segs == [segs[0]];
      OpenEmpty<T>(c, perSegment);
      assert HoldsAt(c, perSegment, map[1 := []], [], 1, [EmptySegment()]);
    } else {
      DropRepresents(c, perSegment, d, s, lo, segs);
      assert HoldsAt(c, perSegment, d - {lo}, s, lo + 1, segs[1..]);
    }
  }

  lemma NewLoads<T>(c: Codec<T>)
    ensures NoneTooLong(c, map[]) && NoneTooLong(c, map[1 := []])
  {
    var d: Disk := map[1 := []];
    assert SegmentAt(c, d, 1) == Loaded(EmptySegment());
  }

  /** Opening puts no record that is too long into the directory. */
  lemma OpeningLoads<T(!new)>(c: Codec<T>, perSegment: nat, d: Disk, s: seq<T>)
    requires perSegment > 0 && c.limit < TWO_TO_THE_32 && Holds(c, perSegment, d, s) && NoneTooLong(c, d)
    ensures forall image | image in RecoverImages(c, perSegment, d) :: NoneTooLong(c, image)
  {
    hide Replay, Items, RecoverImages, ChainOpened, SegmentAt;
    NewLoads(c);
    if d == map[] && s == [] {
      NewImages<T>(c, perSegment);
    } else {
      var lo: nat, segs :| HoldsAt(c, perSegment, d, s, lo, segs);
      if lo <= MAX_INT32 {
        OpenChain(c, perSegment, d, lo, segs);
        SameFiles(c, d - {lo}, d);
      } else {
        Bounds(c, d, lo, segs);
        NoImages(c, perSegment, d);
      }
    }
  }

  // ----- Sizes --------------------------------------------------------------------

  /** The bytes in all segment files together. */
  ghost function TotalSize(d: Disk): nat {
    if d == map[] then 0
    else
      var k :| k in d;
      |d[k]| + TotalSize(d - {k})
  }

  lemma TotalSizeEmpty()
    ensures TotalSize(map[]) == 0
  {
  }

  lemma {:induction false} TotalSizeRemove(d: Disk, k: nat)
    requires k in d
    ensures TotalSize(d) == |d[k]| + TotalSize(d - {k})
    decreases |d|
  {
    var j :| j in d && TotalSize(d) == |d[j]| + TotalSize(d - {j});
    if j != k {
      TotalSizeRemove(d - {j}, k);
      assert (d - {j}) - {k} == (d - {k}) - {j};
      TotalSizeRemove(d - {k}, j);
    }
  }

  lemma TotalSizePut(d: Disk, k: nat, b: seq<byte>)
    ensures TotalSize(d[k := b]) == TotalSize(d) + |b| - (if k in d then |d[k]| else 0)
  {
    TotalSizeRemove(d[k := b], k);
    if k in d {
      TotalSizeRemove(d, k);
      assert d[k := b] - {k} == d - {k};
    } else {
      assert d[k := b] - {k} == d;
    }
  }
}
