/**
 The append-only log of one queue segment and its replay.

 A segment file is a sequence of records.  An added object is a four-byte
 little-endian length followed by its encoding; a removal is four zero bytes.
 Reading the file back replays the records in order.
 */
module SegmentLog {
  import opened Wrappers
  import opened Bytes

  /** The largest encoding that loading accepts. */
  const MAX_OBJECT := 64 * 1024 * 1024

  /** The object encoding, which this model leaves abstract, and the largest that loading accepts. */
  datatype Codec<!T> = Codec(encode: T -> seq<byte>, decode: seq<byte> -> Option<T>, limit: nat)

  /** Decoding undoes encoding, no encoding is empty, and the limit is a length that the prefix can hold. */
  ghost predicate Sound<T(!new)>(c: Codec<T>) {
    && c.limit < TWO_TO_THE_32
    && forall x: T :: c.encode(x) != [] && c.decode(c.encode(x)) == Some(x)
  }

  /** Loading as it would be without the limit: what the records of a file say. */
  function Uncapped<T>(c: Codec<T>): Codec<T> {
    c.(limit := TWO_TO_THE_32 - 1)
  }

  /** Whether loading accepts the encoding of an item; adding does not ask. */
  predicate Fits<T>(c: Codec<T>, x: T) {
    |c.encode(x)| <= c.limit
  }

  /** Whether the length prefix can hold the length of the encoding. */
  predicate Short<T>(c: Codec<T>, x: T) {
    |c.encode(x)| < TWO_TO_THE_32
  }

  /** Item types without bound have such codecs too. */
  lemma UnaryCodec() returns (c: Codec<nat>)
    ensures Sound(c) && c.limit == MAX_OBJECT
  {
    var encode: nat -> seq<byte> := n => seq(n + 1, _ => 1);
    var decode: seq<byte> -> Option<nat> := b => if b == [] then None else Some(|b| - 1);
    c := Codec(encode, decode, MAX_OBJECT);
  }

  /** The in-memory side of a segment. */
  datatype SegState<T> = SegState(objects: seq<T>, removeCount: nat) {
    function SizeOnDisk(): nat {
      |objects| + removeCount
    }

    function Added(x: T): SegState<T> {
      SegState(objects + [x], removeCount)
    }

    function Removed(): SegState<T>
      requires objects != []
    {
      SegState(objects[1..], removeCount + 1)
    }
  }

  function EmptySegment<T>(): SegState<T> {
    SegState([], 0)
  }

  datatype Reason = ShortLength | ExcessDeletion | TooLong | ShortBody

  datatype SegError = CorruptedSegment(reason: Reason) | UnableToDecode

  datatype Replayed<T> = Loaded(state: SegState<T>) | Rejected(error: SegError)

  /** Reading one record: how many bytes it takes and the state after it, or why it is unreadable. */
  datatype Step<T> = Next(size: nat, state: SegState<T>) | Stop(error: SegError)

  function ReadRecord<T>(c: Codec<T>, b: seq<byte>, s: SegState<T>): (r: Step<T>)
    requires b != []
    ensures r.Next? ==> 4 <= r.size <= |b|
  {
    if |b| < 4 then Stop(CorruptedSegment(ShortLength))
    else
      var n := ReadU32(b[..4]);
      if n == 0 then
        if s.objects == [] then Stop(CorruptedSegment(ExcessDeletion)) else Next(4, s.Removed())
      else if n > c.limit then Stop(CorruptedSegment(TooLong))
      else if |b| < 4 + n then Stop(CorruptedSegment(ShortBody))
      else
        match c.decode(b[4..4 + n])
        case None => Stop(UnableToDecode)
        case Some(x) => Next(4 + n, s.Added(x))
  }

  /** The specification of reading a segment file from its first byte, starting in state `s`. */
  function Replay<T>(c: Codec<T>, b: seq<byte>, s: SegState<T>): Replayed<T>
    decreases |b|
  {
    if b == [] then Loaded(s)
    else
      match ReadRecord(c, b, s)
      case Next(size, s') => Replay(c, b[size..], s')
      case Stop(e) => Rejected(e)
  }

  /** Replaying a file from byte `pos` on, in terms of the bytes at `pos`. */
  lemma ReplayAt<T>(c: Codec<T>, file: seq<byte>, pos: nat, s: SegState<T>)
    requires pos <= |file|
    ensures Replay(c, file[pos..], s)
         == if pos == |file| then Loaded(s)
            else if |file| - pos < 4 then Rejected(CorruptedSegment(ShortLength))
            else
              var n := ReadU32(file[pos..pos + 4]);
              if n == 0 then
                if s.objects == [] then Rejected(CorruptedSegment(ExcessDeletion))
                else Replay(c, file[pos + 4..], s.Removed())
              else if n > c.limit then Rejected(CorruptedSegment(TooLong))
              else if |file| - pos - 4 < n then Rejected(CorruptedSegment(ShortBody))
              else
                match c.decode(file[pos + 4..pos + 4 + n])
                case None => Rejected(UnableToDecode)
                case Some(x) => Replay(c, file[pos + 4 + n..], s.Added(x))
  {
    hide Replay, ReadU32;
    var rest := file[pos..];
    ReplayStep(c, rest, s);
    if 4 <= |rest| {
      assert rest[..4] == file[pos..pos + 4];
      assert rest[4..] == file[pos + 4..];
      var n := ReadU32(rest[..4]);
      if 4 + n <= |rest| {
        assert rest[4..4 + n] == file[pos + 4..pos + 4 + n];
        assert rest[4 + n..] == file[pos + 4 + n..];
      }
    }
  }

  lemma ReplayStep<T>(c: Codec<T>, b: seq<byte>, s: SegState<T>)
    ensures b == [] ==> Replay(c, b, s) == Loaded(s)
    ensures b != [] && ReadRecord(c, b, s).Next? ==>
              Replay(c, b, s) == Replay(c, b[ReadRecord(c, b, s).size..], ReadRecord(c, b, s).state)
    ensures b != [] && ReadRecord(c, b, s).Stop? ==> Replay(c, b, s) == Rejected(ReadRecord(c, b, s).error)
  {
  }

  const MARKER: seq<byte> := [0, 0, 0, 0]

  /** The length prefix, which keeps 32 bits of the length. */
  function Prefix<T>(c: Codec<T>, x: T): (b: seq<byte>)
    ensures |b| == 4
  {
    U32LE(|c.encode(x)| % TWO_TO_THE_32)
  }

  lemma ShortPrefix<T>(c: Codec<T>, x: T)
    requires |c.encode(x)| < TWO_TO_THE_32
    ensures Prefix(c, x) == U32LE(|c.encode(x)|) && ReadU32(Prefix(c, x)) == |c.encode(x)|
  {
    hide U32LE, ReadU32;
    U32RoundTrip(|c.encode(x)|);
  }

  function Record<T>(c: Codec<T>, x: T): seq<byte> {
    Prefix(c, x) + c.encode(x)
  }

  // ----- Replay is compositional --------------------------------------------------

  lemma ReadLonger<T>(c: Codec<T>, b: seq<byte>, t: seq<byte>, s: SegState<T>)
    requires b != [] && ReadRecord(c, b, s).Next?
    ensures ReadRecord(c, b + t, s) == ReadRecord(c, b, s)
  {
    assert (b + t)[..4] == b[..4];
    var n := ReadU32(b[..4]);
    if n != 0 {
      assert (b + t)[4..4 + n] == b[4..4 + n];
    }
  }

  lemma {:induction false} ReplayAppend<T>(c: Codec<T>, b: seq<byte>, t: seq<byte>, s: SegState<T>)
    requires Replay(c, b, s).Loaded?
    ensures Replay(c, b + t, s) == Replay(c, t, Replay(c, b, s).state)
    decreases |b|
  {
    hide ReadRecord;
    if b == [] {
      assert b + t == t;
    } else {
      ReadLonger(c, b, t, s);
      var Next(size, s') := ReadRecord(c, b, s);
      ReplayAppend(c, b[size..], t, s');
      assert (b + t)[size..] == b[size..] + t;
    }
  }

  lemma ReplayRecord<T(!new)>(c: Codec<T>, x: T, s: SegState<T>)
    requires Sound(c) && Fits(c, x)
    ensures Replay(c, Record(c, x), s) == Loaded(s.Added(x))
  {
    hide Prefix, U32LE, ReadU32;
    var e := c.encode(x);
    var r := Record(c, x);
    ShortPrefix(c, x);
    assert r[..4] == Prefix(c, x);
    assert r[4..4 + |e|] == e;
    assert r[4 + |e|..] == [];
  }

  lemma ReplayMarker<T>(c: Codec<T>, s: SegState<T>)
    requires s.objects != []
    ensures Replay(c, MARKER, s) == Loaded(s.Removed())
  {
    assert MARKER[..4] == MARKER;
    assert MARKER[4..] == [];
  }

  /** A file cut inside its last record, whose length the prefix can hold. */
  lemma ReplayCutRecord<T(!new)>(c: Codec<T>, x: T, s: SegState<T>, m: nat)
    requires Sound(c) && |c.encode(x)| < TWO_TO_THE_32
    requires 0 < m < |Record(c, x)|
    ensures Replay(c, Record(c, x)[..m], s)
         == Rejected(CorruptedSegment(if m < 4 then ShortLength else if Fits(c, x) then ShortBody else TooLong))
  {
    hide Prefix, U32LE, ReadU32;
    var r := Record(c, x)[..m];
    if 4 <= m {
      ShortPrefix(c, x);
      assert r[..4] == Prefix(c, x);
    }
  }

  // ----- Items that loading does not accept ---------------------------------------

  /** Loading gives what the records say, or stops at a record that is too long. */
  lemma {:induction false} CapAgrees<T>(c: Codec<T>, b: seq<byte>, s: SegState<T>)
    requires c.limit < TWO_TO_THE_32 && Replay(Uncapped(c), b, s).Loaded?
    ensures Replay(c, b, s) == Replay(Uncapped(c), b, s) || Replay(c, b, s) == Rejected(CorruptedSegment(TooLong))
    decreases |b|
  {
    if b == [] {
    } else {
      var Next(size, s') := ReadRecord(Uncapped(c), b, s);
      CapAgrees(c, b[size..], s');
    }
  }

  /** How many records led to a state. */
  function Records<T>(s: SegState<T>): nat {
    |s.objects| + 2 * s.removeCount
  }

  /** Every byte that is replayed belongs to a record that counts. */
  lemma {:induction false} ReplayCounts<T>(c: Codec<T>, b: seq<byte>, s: SegState<T>)
    requires Replay(c, b, s).Loaded?
    ensures Records(Replay(c, b, s).state) >= Records(s) + (if b == [] then 0 else 1)
    decreases |b|
  {
    if b == [] {
    } else {
      var Next(size, s') := ReadRecord(c, b, s);
      ReplayCounts(c, b[size..], s');
    }
  }

  /** The record of an oversize item never loads as that item. */
  lemma OversizeRecord<T(!new)>(c: Codec<T>, x: T, s: SegState<T>)
    requires Sound(c) && !Fits(c, x)
    ensures Replay(c, Record(c, x), s) != Loaded(s.Added(x))
    ensures |c.encode(x)| < TWO_TO_THE_32 ==> Replay(c, Record(c, x), s) == Rejected(CorruptedSegment(TooLong))
  {
    var r := Record(c, x);
    var n := |c.encode(x)| % TWO_TO_THE_32;
    assert r[..4] == Prefix(c, x);
    U32RoundTrip(n);
    if |c.encode(x)| >= TWO_TO_THE_32 && ReadRecord(c, r, s).Next? && Replay(c, r, s).Loaded? {
      var Next(size, s') := ReadRecord(c, r, s);
      assert size <= 4 + n < |r|;
      ReplayCounts(c, r[size..], s');
    }
  }

  // ----- Histories ----------------------------------------------------------------

  datatype Op<T> = Add(item: T) | Remove

  /** No item that a history adds exceeds what loading accepts. */
  predicate AllFit<T>(c: Codec<T>, h: seq<Op<T>>) {
    forall i | 0 <= i < |h| :: h[i].Add? ==> Fits(c, h[i].item)
  }

  /** The bytes a history of operations appends to a new file. */
  ghost function Log<T(!new)>(c: Codec<T>, h: seq<Op<T>>): seq<byte>
    requires Sound(c)
  {
    if h == [] then []
    else Log(c, h[..|h| - 1]) + OpBytes(c, h[|h| - 1])
  }

  ghost function OpBytes<T(!new)>(c: Codec<T>, op: Op<T>): (b: seq<byte>)
    requires Sound(c)
    ensures |b| >= 4
  {
    match op
    case Add(x) => Record(c, x)
    case Remove => MARKER
  }

  /** The state after a history, or None when it removes from an empty segment. */
  ghost function Outcome<T>(h: seq<Op<T>>): Option<SegState<T>> {
    if h == [] then Some(EmptySegment())
    else
      match Outcome(h[..|h| - 1])
      case None => None
      case Some(s) =>
        match h[|h| - 1]
        case Add(x) => Some(s.Added(x))
        case Remove => if s.objects == [] then None else Some(s.Removed())
  }

  lemma HistoryNone<T(!new)>(c: Codec<T>, h: seq<Op<T>>)
    requires Sound(c)
    ensures Log(c, h[..0]) == [] && Outcome(h[..0]) == Some(EmptySegment())
  {
  }

  /** One more operation of a history. */
  lemma HistoryNext<T(!new)>(c: Codec<T>, h: seq<Op<T>>, i: nat)
    requires Sound(c) && i < |h| && Outcome(h).Some?
    ensures Outcome(h[..i]).Some? && Outcome(h[..i + 1]).Some?
    ensures Log(c, h[..i + 1]) == Log(c, h[..i]) + OpBytes(c, h[i])
    ensures var s := Outcome(h[..i]).value;
            match h[i]
            case Add(x) => Outcome(h[..i + 1]).value == s.Added(x)
            case Remove => s.objects != [] && Outcome(h[..i + 1]).value == s.Removed()
  {
    OutcomePrefix(h, i);
    OutcomePrefix(h, i + 1);
    assert h[..i + 1][..i] == h[..i];
  }

  /** Every prefix of a history that runs to its end runs to its end too. */
  lemma {:induction false} OutcomePrefix<T>(h: seq<Op<T>>, j: nat)
    requires j <= |h| && Outcome(h).Some?
    ensures Outcome(h[..j]).Some?
  {
    if j == |h| {
      assert h[..j] == h;
    } else {
      OutcomePrefix(h[..|h| - 1], j);
      assert h[..|h| - 1][..j] == h[..j];
    }
  }

  lemma ReplayOp<T(!new)>(c: Codec<T>, h: seq<Op<T>>)
    requires Sound(c) && h != [] && Outcome(h).Some?
    requires h[|h| - 1].Add? ==> Fits(c, h[|h| - 1].item)
    ensures Replay(c, OpBytes(c, h[|h| - 1]), Outcome(h[..|h| - 1]).value) == Loaded(Outcome(h).value)
  {
    var s := Outcome(h[..|h| - 1]).value;
    match h[|h| - 1]
    case Add(x) => ReplayRecord(c, x, s);
    case Remove => ReplayMarker(c, s);
  }

  /** Loading the bytes a history wrote yields exactly the state that history left in memory. */
  lemma {:induction false} ReplayOfLog<T(!new)>(c: Codec<T>, h: seq<Op<T>>)
    requires Sound(c) && Outcome(h).Some? && AllFit(c, h)
    ensures Replay(c, Log(c, h), EmptySegment()) == Loaded(Outcome(h).value)
  {
    if h == [] {
    } else {
      var h' := h[..|h| - 1];
      ReplayOfLog(c, h');
      ReplayAppend(c, Log(c, h'), OpBytes(c, h[|h| - 1]), EmptySegment());
      ReplayOp(c, h);
    }
  }

  /** Where the first oversize item was added. */
  lemma FirstOversize<T>(c: Codec<T>, h: seq<Op<T>>) returns (j: nat)
    requires !AllFit(c, h)
    ensures j < |h| && AllFit(c, h[..j]) && h[j].Add? && !Fits(c, h[j].item)
  {
    j := 0;
    while !(h[j].Add? && !Fits(c, h[j].item))
      invariant j < |h| && AllFit(c, h[..j])
      invariant exists i :: j <= i < |h| && h[i].Add? && !Fits(c, h[i].item)
      decreases |h| - j
    {
      j := j + 1;
    }
  }

  /** Right after an oversize item was added, the file no longer loads as the state in memory. */
  lemma OversizeLog<T(!new)>(c: Codec<T>, h: seq<Op<T>>, j: nat)
    requires Sound(c) && j < |h| && Outcome(h).Some? && AllFit(c, h[..j]) && h[j].Add? && !Fits(c, h[j].item)
    ensures Outcome(h[..j + 1]).Some?
    ensures Replay(c, Log(c, h[..j + 1]), EmptySegment()) != Loaded(Outcome(h[..j + 1]).value)
  {
    hide Replay;
    OutcomePrefix(h, j);
    OutcomePrefix(h, j + 1);
    var g := h[..j + 1];
    assert g[..j] == h[..j] && g[|g| - 1] == h[j];
    ReplayOfLog(c, h[..j]);
    ReplayAppend(c, Log(c, h[..j]), Record(c, h[j].item), EmptySegment());
    OversizeRecord(c, h[j].item, Outcome(h[..j]).value);
  }

  /** The file of a segment loads as the state in memory after each operation of a history. */
  ghost predicate LoadsThroughout<T(!new)>(c: Codec<T>, h: seq<Op<T>>)
    requires Sound(c)
  {
    forall j: nat | j <= |h| && Outcome(h[..j]).Some? ::
      Replay(c, Log(c, h[..j]), EmptySegment()) == Loaded(Outcome(h[..j]).value)
  }

  /** It does so if and only if no item was added whose encoding loading does not accept. */
  lemma LoadsExactly<T(!new)>(c: Codec<T>, h: seq<Op<T>>)
    requires Sound(c) && Outcome(h).Some?
    ensures LoadsThroughout(c, h) <==> AllFit(c, h)
  {
    if AllFit(c, h) {
      forall j: nat | j <= |h| && Outcome(h[..j]).Some?
        ensures Replay(c, Log(c, h[..j]), EmptySegment()) == Loaded(Outcome(h[..j]).value)
      {
        ReplayOfLog(c, h[..j]);
      }
    } else {
      var j := FirstOversize(c, h);
      OversizeLog(c, h, j);
    }
  }

  /** With lengths that the prefix can hold, the whole log loads if and only if every item fits. */
  lemma {:induction false} ReplayExactly<T(!new)>(c: Codec<T>, h: seq<Op<T>>)
    requires Sound(c) && Outcome(h).Some?
    requires forall i | 0 <= i < |h| :: h[i].Add? ==> |c.encode(h[i].item)| < TWO_TO_THE_32
    ensures AllFit(c, h) ==> Replay(c, Log(c, h), EmptySegment()) == Loaded(Outcome(h).value)
    ensures !AllFit(c, h) ==> Replay(c, Log(c, h), EmptySegment()) == Rejected(CorruptedSegment(TooLong))
  {
    if h == [] {
    } else if AllFit(c, h) {
      ReplayOfLog(c, h);
    } else {
      hide Replay;
      var h', op := h[..|h| - 1], h[|h| - 1];
      ReplayExactly(c, h');
      if AllFit(c, h') {
        assert op.Add? && !Fits(c, op.item);
        ReplayAppend(c, Log(c, h'), Record(c, op.item), EmptySegment());
        OversizeRecord(c, op.item, Outcome(h').value);
      } else {
        RejectedAppend(c, Log(c, h'), OpBytes(c, op), EmptySegment(), TooLong);
      }
    }
  }

  /** A record that is too long is too long whatever follows. */
  lemma {:induction false} RejectedAppend<T>(c: Codec<T>, b: seq<byte>, t: seq<byte>, s: SegState<T>, why: Reason)
    requires why == TooLong && Replay(c, b, s) == Rejected(CorruptedSegment(why))
    ensures Replay(c, b + t, s) == Rejected(CorruptedSegment(why))
    decreases |b|
  {
    if b == [] {
      assert false;
    } else {
      match ReadRecord(c, b, s)
      case Stop(_) => assert (b + t)[..4] == b[..4];
      case Next(size, s') =>
        ReadLonger(c, b, t, s);
        RejectedAppend(c, b[size..], t, s', why);
        assert (b + t)[size..] == b[size..] + t;
    }
  }

  lemma {:induction false} LogPrefix<T(!new)>(c: Codec<T>, h: seq<Op<T>>, j: nat)
    requires Sound(c) && j <= |h|
    ensures |Log(c, h[..j])| <= |Log(c, h)|
    ensures j < |h| ==> |Log(c, h[..j])| < |Log(c, h)|
  {
    if j == |h| {
      assert h[..j] == h;
    } else {
      LogPrefix(c, h[..|h| - 1], j);
      assert h[..|h| - 1][..j] == h[..j];
    }
  }

  /** The first `j` records of a history end exactly at byte `k` of its log. */
  ghost predicate EndsAt<T(!new)>(c: Codec<T>, h: seq<Op<T>>, j: nat, k: nat)
    requires Sound(c)
  {
    j <= |h| && |Log(c, h[..j])| == k
  }

  /**
   What loading the first `k` bytes of a log may give.  The prefix loads exactly when
   it ends between two records, and then to the state after the records it holds; a
   cut inside a record is reported as corruption.  It is never a wrong object.
   */
  ghost predicate PrefixVerdict<T(!new)>(c: Codec<T>, h: seq<Op<T>>, k: nat, r: Replayed<T>)
    requires Sound(c)
  {
    match r
    case Loaded(s) => exists j: nat :: EndsAt(c, h, j, k) && Outcome(h[..j]) == Some(s)
    case Rejected(e) =>
      && (e == CorruptedSegment(ShortLength) || e == CorruptedSegment(ShortBody))
      && forall j: nat :: !EndsAt(c, h, j, k)
  }

  lemma {:induction false} ReplayOfPrefix<T(!new)>(c: Codec<T>, h: seq<Op<T>>, k: nat)
    requires Sound(c) && Outcome(h).Some? && AllFit(c, h) && k <= |Log(c, h)|
    ensures PrefixVerdict(c, h, k, Replay(c, Log(c, h)[..k], EmptySegment()))
  {
    if k == |Log(c, h)| {
      assert Log(c, h)[..k] == Log(c, h);
      assert h[..|h|] == h;
      ReplayOfLog(c, h);
      assert EndsAt(c, h, |h|, k);
    } else if k <= |Log(c, h[..|h| - 1])| {
      var h' := h[..|h| - 1];
      ReplayOfPrefix(c, h', k);
      assert Log(c, h)[..k] == Log(c, h')[..k];
      VerdictExtends(c, h, k, Replay(c, Log(c, h')[..k], EmptySegment()));
    } else {
      CutInsideLast(c, h, k);
    }
  }

  lemma VerdictExtends<T(!new)>(c: Codec<T>, h: seq<Op<T>>, k: nat, r: Replayed<T>)
    requires Sound(c) && h != [] && k < |Log(c, h)|
    requires PrefixVerdict(c, h[..|h| - 1], k, r)
    ensures PrefixVerdict(c, h, k, r)
  {
    var h' := h[..|h| - 1];
    match r
    case Loaded(s) =>
      var j: nat :| EndsAt(c, h', j, k) && Outcome(h'[..j]) == Some(s);
      assert h'[..j] == h[..j];
      assert EndsAt(c, h, j, k);
    case Rejected(e) =>
      forall j: nat ensures !EndsAt(c, h, j, k) {
        if j == |h| {
          assert h[..j] == h;
        } else if j < |h| {
          assert !EndsAt(c, h', j, k);
          assert h'[..j] == h[..j];
        }
      }
  }

  lemma CutInsideLast<T(!new)>(c: Codec<T>, h: seq<Op<T>>, k: nat)
    requires Sound(c) && h != [] && Outcome(h).Some? && AllFit(c, h)
    requires |Log(c, h[..|h| - 1])| < k < |Log(c, h)|
    ensures PrefixVerdict(c, h, k, Replay(c, Log(c, h)[..k], EmptySegment()))
  {
    var h', op := h[..|h| - 1], h[|h| - 1];
    var b, m := Log(c, h'), k - |Log(c, h')|;
    ReplayOfLog(c, h');
    var s := Outcome(h').value;
    assert Log(c, h)[..k] == b + OpBytes(c, op)[..m];
    ReplayAppend(c, b, OpBytes(c, op)[..m], EmptySegment());
    if op.Add? {
      ReplayCutRecord(c, op.item, s, m);
    }
    forall j: nat ensures !EndsAt(c, h, j, k) {
      if j == |h| {
        assert h[..j] == h;
      } else if j < |h| {
        LogPrefix(c, h', j);
        assert h'[..j] == h[..j];
      }
    }
  }

  /** Every byte prefix of a log has such a verdict. */
  ghost predicate PrefixesReplay<T(!new)>(c: Codec<T>, h: seq<Op<T>>)
    requires Sound(c)
  {
    forall k: nat | k <= |Log(c, h)| :: PrefixVerdict(c, h, k, Replay(c, Log(c, h)[..k], EmptySegment()))
  }

  lemma {:induction false} LogExtends<T(!new)>(c: Codec<T>, h: seq<Op<T>>, j: nat)
    requires Sound(c) && j <= |h|
    ensures |Log(c, h[..j])| <= |Log(c, h)| && Log(c, h)[..|Log(c, h[..j])|] == Log(c, h[..j])
  {
    if j == |h| {
      assert h[..j] == h;
    } else {
      var h' := h[..|h| - 1];
      LogExtends(c, h', j);
      assert h'[..j] == h[..j];
    }
  }

  /** The records of a log end at different bytes. */
  lemma EndsOnce<T(!new)>(c: Codec<T>, h: seq<Op<T>>, i: nat, j: nat)
    requires Sound(c) && i <= |h| && j <= |h| && |Log(c, h[..i])| == |Log(c, h[..j])|
    ensures i == j
  {
    if i < j {
      assert h[..j][..i] == h[..i];
      LogPrefix(c, h[..j], i);
    } else if j < i {
      assert h[..i][..j] == h[..j];
      LogPrefix(c, h[..i], j);
    }
  }

  /** They all do if and only if no item was added whose encoding loading does not accept. */
  lemma PrefixesExactly<T(!new)>(c: Codec<T>, h: seq<Op<T>>)
    requires Sound(c) && Outcome(h).Some?
    ensures PrefixesReplay(c, h) <==> AllFit(c, h)
  {
    hide Replay, Log, Outcome;
    if AllFit(c, h) {
      forall k: nat | k <= |Log(c, h)| ensures PrefixVerdict(c, h, k, Replay(c, Log(c, h)[..k], EmptySegment())) {
        ReplayOfPrefix(c, h, k);
      }
    } else {
      var j := FirstOversize(c, h);
      OversizeLog(c, h, j);
      LogExtends(c, h, j + 1);
      var k := |Log(c, h[..j + 1])|;
      assert EndsAt(c, h, j + 1, k);
      forall i: nat | EndsAt(c, h, i, k) ensures i == j + 1 {
        EndsOnce(c, h, i, j + 1);
      }
      assert !PrefixVerdict(c, h, k, Replay(c, Log(c, h)[..k], EmptySegment()));
    }
  }
}
