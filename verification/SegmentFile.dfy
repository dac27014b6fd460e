/** The queue directory as mutable state, and one segment of the queue with its open file. */
module SegmentFile {
  import opened Wrappers
  import opened Bytes
  import opened SegmentLog
  import opened QueueDisk

  /**
   The directory on disk.  Every method is one file-system step; `trace` records the
   directory after each of them, which is what a stop at that point leaves behind.
   */
  class Directory {
    var files: Disk
    const otherBytes: nat  // files that are not segments, such as lock.lock
    ghost var trace: seq<Disk>

    constructor (files: Disk, otherBytes: nat)
      ensures this.files == files && this.otherBytes == otherBytes && trace == []
    {
      this.files := files;
      this.otherBytes := otherBytes;
      trace := [];
    }

    method Create(k: nat)
      requires k !in files
      modifies this
      ensures files == old(files)[k := []] && trace == old(trace) + [files]
    {
      files := files[k := []];
      trace := trace + [files];
    }

    method Append(k: nat, b: seq<byte>)
      requires k in files
      modifies this
      ensures files == old(files)[k := old(files)[k] + b] && trace == old(trace) + [files]
    {
      files := files[k := files[k] + b];
      trace := trace + [files];
    }

    method Delete(k: nat)
      requires k in files
      modifies this
      ensures files == old(files) - {k} && trace == old(trace) + [files]
    {
      files := files - {k};
      trace := trace + [files];
    }

    /** The size of a file, or 0 when it does not exist. */
    function SizeOf(k: nat): (n: nat)
      reads this
      ensures n == if k in files then |files[k]| else 0
    {
      if k in files then |files[k]| else 0
    }

    /** The sum over the directory listing. */
    method SumOfSizes() returns (total: int)
      ensures total == otherBytes + TotalSize(files)
    {
      total := otherBytes;
      var rest := files;
      while rest != map[]
        invariant total + TotalSize(rest) == otherBytes + TotalSize(files)
        decreases |rest|
      {
        var k :| k in rest;
        TotalSizeRemove(rest, k);
        total := total + |rest[k]|;
        rest := rest - {k};
      }
    }
  }

  class Segment<T(!new)> {
    const dir: Directory
    const codec: Codec<T>
    const number: nat
    var objects: seq<T>
    var removeCount: nat
    var open: bool

    function State(): SegState<T>
      reads this
    {
      SegState(objects, removeCount)
    }

    constructor (dir: Directory, codec: Codec<T>, number: nat)
      ensures this.dir == dir && this.codec == codec && this.number == number
      ensures State() == EmptySegment() && !open
    {
      this.dir := dir;
      this.codec := codec;
      this.number := number;
      objects := [];
      removeCount := 0;
      open := false;
    }

    /** Replays the file into memory, one record at a time. */
    method Load() returns (err: Option<SegError>)
      requires number in dir.files
      modifies this`objects, this`removeCount
      ensures match Replay(codec, dir.files[number], old(State()))
              case Loaded(s) => err == None && State() == s
              case Rejected(e) => err == Some(e)
    {
      hide Replay, ReadRecord;
      var file := dir.files[number];
      var pos := 0;
      assert file[pos..] == file;
      while pos < |file|
        invariant 0 <= pos <= |file|
        invariant Replay(codec, file[pos..], State()) == Replay(codec, file, old(State()))
      {
        ReplayAt(codec, file, pos, State());
        if |file| - pos < 4 {
          return Some(CorruptedSegment(ShortLength));
        }
        var n := ReadU32(file[pos..pos + 4]);
        pos := pos + 4;
        if n == 0 {
          if objects == [] {
            return Some(CorruptedSegment(ExcessDeletion));
          }
          objects := objects[1..];
          removeCount := removeCount + 1;
          continue;
        }
        if n > codec.limit {
          return Some(CorruptedSegment(TooLong));
        }
        if |file| - pos < n {
          return Some(CorruptedSegment(ShortBody));
        }
        match codec.decode(file[pos..pos + n])
        case None =>
          return Some(UnableToDecode);
        case Some(x) =>
          pos := pos + n;
          objects := objects + [x];
      }
      ReplayAt(codec, file, pos, State());
      return None;
    }

    /** Appends a deletion marker and drops the head; None when there is no head. */
    method Remove() returns (x: Option<T>)
      requires open && number in dir.files
      modifies this`objects, this`removeCount, dir
      ensures old(objects) == [] ==>
              && x == None
              && State() == old(State())
              && dir.files == old(dir.files) && dir.trace == old(dir.trace)
      ensures old(objects) != [] ==>
              && x == Some(old(objects)[0])
              && State() == old(State()).Removed()
              && dir.files == old(dir.files)[number := old(dir.files)[number] + MARKER]
              && dir.trace == old(dir.trace) + [dir.files]
    {
      if objects == [] {
        return None;
      }
      dir.Append(number, MARKER);
      x := Some(objects[0]);
      objects := objects[1..];
      removeCount := removeCount + 1;
    }

    /** Appends the length and then the body, in two writes. */
    method Add(x: T)
      requires open && number in dir.files
      modifies this`objects, dir
      ensures State() == old(State()).Added(x)
      ensures var f := old(dir.files)[number];
              var torn := old(dir.files)[number := f + Prefix(codec, x)];
              && dir.files == old(dir.files)[number := f + Record(codec, x)]
              && dir.trace == old(dir.trace) + [torn, dir.files]
    {
      ghost var f := dir.files[number];
      var e := codec.encode(x);
      dir.Append(number, U32LE(|e| % TWO_TO_THE_32));
      dir.Append(number, e);
      assert f + Prefix(codec, x) + e == f + Record(codec, x);
      objects := objects + [x];
    }

    method Delete()
      requires number in dir.files
      modifies this`objects, this`open, dir
      ensures objects == [] && !open
      ensures dir.files == old(dir.files) - {number} && dir.trace == old(dir.trace) + [dir.files]
    {
      dir.Delete(number);
      objects := [];
      open := false;
    }

    method Close()
      modifies this`open
      ensures !open
    {
      open := false;
    }
  }

  /** Creates the file of a new segment. */
  method NewSegment<T(!new)>(dir: Directory, codec: Codec<T>, number: nat) returns (r: Result<Segment<T>, QueueError>)
    modifies dir
    ensures number in old(dir.files) ==>
            && r == Failure(SegmentFileExists(number))
            && dir.files == old(dir.files) && dir.trace == old(dir.trace)
    ensures number !in old(dir.files) ==>
            && r.Success? && fresh(r.value)
            && r.value.dir == dir && r.value.codec == codec && r.value.number == number
            && r.value.open && r.value.State() == EmptySegment()
            && dir.files == old(dir.files)[number := []] && dir.trace == old(dir.trace) + [dir.files]
  {
    if number in dir.files {
      return Failure(SegmentFileExists(number));
    }
    var seg := new Segment(dir, codec, number);
    dir.Create(number);
    seg.open := true;
    return Success(seg);
  }

  /** Reads an existing segment into memory. */
  method OpenSegment<T(!new)>(dir: Directory, codec: Codec<T>, number: nat) returns (r: Result<Segment<T>, QueueError>)
    ensures number !in dir.files ==> r == Failure(SegmentFileMissing(number))
    ensures number in dir.files ==>
            match SegmentAt(codec, dir.files, number)
            case Rejected(e) => r == Failure(UnreadableSegment(number, e))
            case Loaded(s) =>
              && r.Success? && fresh(r.value)
              && r.value.dir == dir && r.value.codec == codec && r.value.number == number
              && r.value.open && r.value.State() == s
  {
    if number !in dir.files {
      return Failure(SegmentFileMissing(number));
    }
    var seg := new Segment(dir, codec, number);
    var err := seg.Load();
    if err.Some? {
      return Failure(UnreadableSegment(number, err.value));
    }
    seg.open := true;
    return Success(seg);
  }

  /**
   Any history that removes from no empty segment: the file is its log, and loading the
   file gives the state in memory when every item fits.
   */
  method Perform<T(!new)>(seg: Segment<T>, h: seq<Op<T>>)
    requires Sound(seg.codec) && seg.open && seg.number in seg.dir.files
    requires seg.dir.files[seg.number] == [] && seg.State() == EmptySegment() && Outcome(h).Some?
    modifies seg, seg.dir
    ensures seg.open && seg.State() == Outcome(h).value
    ensures seg.dir.files == old(seg.dir.files)[seg.number := Log(seg.codec, h)]
    ensures AllFit(seg.codec, h) ==> SegmentAt(seg.codec, seg.dir.files, seg.number) == Loaded(seg.State())
  {
    hide Replay, Log, Outcome;
    HistoryNone(seg.codec, h);
    ghost var files, c, k := seg.dir.files, seg.codec, seg.number;
    assert h[..0] == [] && files[k := []] == files;
    for i := 0 to |h|
      invariant seg.open && k in seg.dir.files && Outcome(h[..i]).Some?
      invariant seg.State() == Outcome(h[..i]).value
      invariant seg.dir.files == files[k := Log(c, h[..i])]
    {
      HistoryNext(c, h, i);
      match h[i] {
        case Add(x) => seg.Add(x);
        case Remove => var _ := seg.Remove();
      }
    }
    assert h[..|h|] == h;
    if AllFit(c, h) {
      ReplayOfLog(c, h);
    }
  }
}
