/**
 One writer and one reader of a FIFO, interleaved (audio_utils/fifo.cpp).

 Both sides run lock-free: each loads the other side's index, works on the slice that this
 snapshot allows, and publishes its own index. Every load, every frame copied in or out and
 every publication is one step here, in any order that the two program texts allow, so
 snapshots may be stale when they are used. Frames that the reader has not copied when it
 releases them count as copied at that moment. Where another reader throttles the writer, all
 that it does is one arbitrary step here. The functions below are the ones the methods of
 module Fifo are proved against.
 */
module FifoProtocol {
  import opened Bits
  import opened FifoIndex

  // ---- slices

  /** The pair of audio_utils_iovec fragments: the second one starts at offset 0. */
  datatype Slice = Slice(offset: nat, part1: nat, part2: nat) {
    /** Where frame j of the slice lies in mBuffer. */
    function Slot(j: nat): nat {
      if j < part1 then offset + j else j - part1
    }
  }

  function Min(a: nat, b: nat): nat {
    if a < b then a else b
  }

  /** The fragments that obtain returns for avail frames from the given index on. */
  function SliceAt(geo: Geometry, index: uint32, avail: nat): Slice
    requires geo.Valid()
  {
    var offset := Offset(geo, index);
    var part1 := if offset < geo.n then Min(geo.n - offset, avail) else 0;
    Slice(offset, part1, if part1 > 0 then avail - part1 else 0)
  }

  /** Counter c modulo the capacity, the home of frame c. */
  ghost function Home(geo: Geometry, c: nat): (home: nat)
    requires geo.Valid()
    ensures home < geo.n
  {
    Divided(c, geo.n);
    c % geo.n
  }

  lemma OffsetIsHome(geo: Geometry, c: nat)
    requires geo.Valid()
    ensures Offset(geo, geo.Index(c)) == Home(geo, c) < geo.n
  {
    hide Offset, Times, Log2, Pow2;
    Divided(c, geo.n);
    Divided(c / geo.n, geo.Generations());
    OffsetOfWord(geo, (c / geo.n) % geo.Generations(), c % geo.n);
  }

  lemma HomeAdd(geo: Geometry, c: nat, j: nat)
    requires geo.Valid() && j <= geo.n
    ensures Home(geo, c + j) == if Home(geo, c) + j < geo.n then Home(geo, c) + j else Home(geo, c) + j - geo.n
    ensures Home(geo, c) < geo.n
  {
    Divided(c, geo.n);
    DivModAdd(geo.n, c, j);
  }

  /** A slice is the run of homes from its counter on, the wrap included. */
  lemma SlotIsHome(geo: Geometry, c: nat, avail: nat, j: nat)
    requires geo.Valid() && j < avail <= geo.n
    ensures SliceAt(geo, geo.Index(c), avail).Slot(j) == Home(geo, c + j) < geo.n
    ensures SliceAt(geo, geo.Index(c), avail).part1 + SliceAt(geo, geo.Index(c), avail).part2 == avail
  {
    hide Offset, Home, Geometry.Index, Geometry.Valid;
    OffsetIsHome(geo, c);
    HomeAdd(geo, c, j);
  }

  /** Two frames fewer than one capacity apart have different homes. */
  lemma HomesDiffer(geo: Geometry, a: nat, b: nat)
    requires geo.Valid() && a < b < a + geo.n
    ensures Home(geo, a) != Home(geo, b)
  {
    HomeAdd(geo, a, b - a);
  }

  /** The frames of a slice. */
  ghost function Gather<F>(geo: Geometry, buffer: seq<F>, index: uint32, count: nat): (frames: seq<F>)
    requires geo.Valid() && |buffer| == geo.n && count <= geo.n && Offset(geo, index) < geo.n
    ensures |frames| == count
  {
    seq(count, j requires 0 <= j < count => buffer[SliceAt(geo, index, count).Slot(j)])
  }

  // ---- the two sides

  /** Who throttles the writer: nobody, the reader looked at here, or another reader of the FIFO. */
  datatype Throttle = Unthrottled | ByThisReader | ByAnother

  datatype Config = Config(geo: Geometry, throttle: Throttle, flush: bool) {
    predicate Throttled() {
      throttle != Unthrottled
    }

    predicate Throttles() {
      throttle == ByThisReader
    }
  }

  datatype Writer = Writer(rear: uint32, obtained: nat, effective: nat, released: nat)

  datatype Reader = Reader(front: uint32, obtained: nat, lost: int, released: int)

  /** What obtain can return: frames, or an error (which is reported as an empty slice). */
  datatype Available = Frames(count: nat) | Overrun | Io {
    function Count(): nat {
      if Frames? then count else 0
    }
  }

  /** The writer's view of the room left, from the front index it loaded (lines 206-291). */
  function Room(cfg: Config, shutdown: bool, w: Writer, front: uint32, count: nat): Available
    requires cfg.geo.Valid()
  {
    if shutdown then Io
    else if !cfg.Throttled() then Frames(Min(w.effective, count))
    else match Diff(cfg.geo, w.rear, front, false)
      case Corrupt => Io
      case Overflow(_) => Overrun
      case Filled(filled) => Frames(Min(if w.effective > filled then w.effective - filled else 0, count))
  }

  /** The reader's view of the fill level, from the rear index it loaded (lines 608-623). */
  function Fill(cfg: Config, shutdown: bool, r: Reader, rear: uint32, count: nat): Available
    requires cfg.geo.Valid()
  {
    if shutdown then Io
    else match Diff(cfg.geo, rear, r.front, cfg.flush)
      case Corrupt => Io
      case Overflow(_) => Overrun
      case Filled(filled) => Frames(Min(filled, count))
  }

  /** The reader's fields after obtain; available() passes slice == false and keeps mObtained. */
  function ReaderObtained(cfg: Config, shutdown: bool, r: Reader, rear: uint32, count: nat, slice: bool): Reader
    requires cfg.geo.Valid()
  {
    var d := Diff(cfg.geo, rear, r.front, cfg.flush);
    var caught := if !shutdown && d.Overflow?
      then Reader(Wrap(rear - (if cfg.flush then 0 else cfg.geo.p2)), r.obtained, r.lost + d.lost, r.released + d.lost)
      else r;
    if slice then caught.(obtained := Fill(cfg, shutdown, r, rear, count).Count()) else caught
  }

  /** The writer's fields after releasing part of its slice. */
  function WriterReleased(cfg: Config, w: Writer, count: uint32): Writer
    requires cfg.geo.Valid() && count <= w.obtained
  {
    Writer(Sum(cfg.geo, w.rear, count), w.obtained - count, w.effective, w.released + count)
  }

  /** The reader's fields after releasing part of its slice. */
  function ReaderReleased(cfg: Config, r: Reader, count: uint32): Reader
    requires cfg.geo.Valid() && count <= r.obtained
  {
    Reader(Sum(cfg.geo, r.front, count), r.obtained - count, r.lost, r.released + count)
  }

  // ---- the interleaved machine

  /** An index loaded from the other side; count is the counter it stood for. */
  datatype Snapshot = NotLoaded | Loaded(index: uint32, count: nat)

  datatype State<F> = State(
    writerRear: uint32, throttleFront: uint32, buffer: seq<F>, shutdown: bool,
    writer: Writer, seenFront: Snapshot, touched: nat,
    reader: Reader, seenRear: Snapshot,
    written: seq<F>, consumed: seq<F>, front: nat, start: nat,
    slice: nat,        // counter of the first frame that the reader obtained and did not release
    copied: seq<F>,    // what it copied of them so far
    took: seq<nat>)    // counters of the frames consumed

  datatype Step<F> =
    | LoadFront
    | WriterObtain(count: nat)
    | Store(j: nat, frame: F)
    | WriterRelease(count: nat)
    | Resize(frames: nat)
    | LoadRear
    | ReaderObtain(count: nat, slice: bool)
    | Take
    | ReaderRelease(count: nat)
    | NewReader
    | OtherReader(front: uint32, shut: bool)

  /** Only what keeps the step functions within the buffer. */
  ghost predicate Shaped<F>(cfg: Config, s: State<F>) {
    && cfg.geo.Valid() && |s.buffer| == cfg.geo.n
    && s.writer.obtained <= cfg.geo.n && s.reader.obtained <= cfg.geo.n
    && Offset(cfg.geo, s.writer.rear) < cfg.geo.n && Offset(cfg.geo, s.reader.front) < cfg.geo.n
  }

  ghost function DoWriterObtain<F>(cfg: Config, s: State<F>, count: nat): State<F>
    requires cfg.geo.Valid()
  {
    if cfg.Throttled() && s.seenFront.NotLoaded? then s
    else
      var front := if cfg.Throttled() then s.seenFront.index else 0;
      s.(writer := s.writer.(obtained := Room(cfg, s.shutdown, s.writer, front, count).Count()),
         seenFront := NotLoaded,
         shutdown := s.shutdown || (cfg.Throttled() && Diff(cfg.geo, s.writer.rear, front, false).Corrupt?))
  }

  ghost function DoStore<F>(cfg: Config, s: State<F>, j: nat, frame: F): State<F>
    requires Shaped(cfg, s)
  {
    var slot := SliceAt(cfg.geo, s.writer.rear, s.writer.obtained).Slot(j);
    if j >= s.writer.obtained || slot >= |s.buffer| then s
    else s.(buffer := s.buffer[slot := frame], touched := if s.touched > j then s.touched else j + 1)
  }

  ghost function DoWriterRelease<F>(cfg: Config, s: State<F>, count: nat): State<F>
    requires Shaped(cfg, s)
  {
    if count == 0 then s
    else if count > s.writer.obtained then s.(shutdown := true)
    else
      var w := WriterReleased(cfg, s.writer, count);
      s.(writer := w,
         writerRear := w.rear,
         shutdown := s.shutdown || (cfg.Throttled() && Diff(cfg.geo, s.writer.rear, s.throttleFront, false).Corrupt?),
         seenFront := NotLoaded,
         touched := if s.touched > count then s.touched - count else 0,
         written := s.written + Gather(cfg.geo, s.buffer, s.writer.rear, count))
  }

  ghost function DoReaderObtain<F>(cfg: Config, s: State<F>, count: nat, slice: bool): State<F>
    requires cfg.geo.Valid()
  {
    if s.seenRear.NotLoaded? then s
    else
      var d := Diff(cfg.geo, s.seenRear.index, s.reader.front, cfg.flush);
      var front := if !s.shutdown && d.Overflow?
        then s.seenRear.count - Keep(cfg.geo, cfg.flush) else s.front;
      s.(reader := ReaderObtained(cfg, s.shutdown, s.reader, s.seenRear.index, count, slice),
         shutdown := s.shutdown || d.Corrupt?,
         seenRear := NotLoaded,
         front := if front >= 0 then front else 0,
         slice := if slice then (if front >= 0 then front else 0) else s.slice,
         copied := if slice then [] else s.copied)
  }

  /** The first count frames of the slice as they lie in the buffer now. */
  ghost function InSlice<F>(cfg: Config, s: State<F>, count: nat): (frames: seq<F>)
    requires Shaped(cfg, s) && count <= cfg.geo.n
    ensures |frames| == count
  {
    OffsetIsHome(cfg.geo, s.slice);
    Gather(cfg.geo, s.buffer, cfg.geo.Index(s.slice), count)
  }

  /** The reader copies the next frame of its slice. */
  ghost function DoTake<F>(cfg: Config, s: State<F>): State<F>
    requires Shaped(cfg, s)
  {
    var k := |s.copied|;
    if k >= s.reader.obtained then s else s.(copied := s.copied + [InSlice(cfg, s, k + 1)[k]])
  }

  /** The frames that a release hands on: those copied, and the others as they are now. */
  ghost function Delivered<F>(cfg: Config, s: State<F>, count: nat): (frames: seq<F>)
    requires Shaped(cfg, s) && count <= cfg.geo.n
    ensures |frames| == count
  {
    var k := Min(|s.copied|, count);
    s.copied[..k] + InSlice(cfg, s, count)[k..]
  }

  function Counters(from: nat, count: nat): (c: seq<nat>)
    ensures |c| == count
  {
    seq(count, i requires 0 <= i < count => from + i)
  }

  ghost function DoReaderRelease<F>(cfg: Config, s: State<F>, count: nat): State<F>
    requires Shaped(cfg, s)
  {
    if count == 0 then s
    else if count > s.reader.obtained then s.(shutdown := true)
    else
      var r := ReaderReleased(cfg, s.reader, count);
      s.(reader := r,
         throttleFront := if cfg.Throttles() then r.front else s.throttleFront,
         shutdown := s.shutdown || (cfg.Throttles() && Diff(cfg.geo, s.writerRear, s.reader.front, false).Corrupt?),
         seenRear := NotLoaded,
         consumed := s.consumed + Delivered(cfg, s, count),
         front := s.front + count,
         slice := s.slice + count,
         copied := s.copied[Min(|s.copied|, count)..],
         took := s.took + Counters(s.slice, count))
  }

  ghost function Do<F>(cfg: Config, s: State<F>, step: Step<F>): State<F>
    requires Shaped(cfg, s)
  {
    match step
    case LoadFront => if cfg.Throttled() then s.(seenFront := Loaded(s.throttleFront, s.front)) else s
    case WriterObtain(count) => DoWriterObtain(cfg, s, count)
    case Store(j, frame) => DoStore(cfg, s, j, frame)
    case WriterRelease(count) => DoWriterRelease(cfg, s, count)
    case Resize(frames) => s.(writer := s.writer.(effective := Min(frames, cfg.geo.n)))
    case LoadRear => s.(seenRear := Loaded(s.writerRear, |s.written|))
    case ReaderObtain(count, slice) => DoReaderObtain(cfg, s, count, slice)
    case Take => DoTake(cfg, s)
    case ReaderRelease(count) => DoReaderRelease(cfg, s, count)
    case NewReader =>
      if cfg.Throttles() then s
      else s.(reader := Reader(s.writerRear, 0, 0, 0), seenRear := NotLoaded,
              consumed := [], front := |s.written|, start := |s.written|,
              slice := |s.written|, copied := [], took := [])
    case OtherReader(front, shut) =>
      if cfg.throttle != ByAnother then s
      else s.(throttleFront := front, shutdown := s.shutdown || shut)
  }

  /** A new FIFO: all indices are 0 and nothing was written. */
  ghost predicate Initial<F>(cfg: Config, s: State<F>) {
    && cfg.geo.Valid() && |s.buffer| == cfg.geo.n
    && s.writerRear == 0 && s.throttleFront == 0 && !s.shutdown
    && s.writer == Writer(0, 0, cfg.geo.n, 0) && s.seenFront == NotLoaded && s.touched == 0
    && s.reader == Reader(0, 0, 0, 0) && s.seenRear == NotLoaded
    && s.written == [] && s.consumed == [] && s.front == 0 && s.start == 0
    && s.slice == 0 && s.copied == [] && s.took == []
  }

  // ---- what holds in every state

  /** Indices stand for counters: rear for the frames written, front for the abstract front. */
  ghost predicate Aligned<F>(cfg: Config, s: State<F>) {
    && Shaped(cfg, s)
    && s.writerRear == s.writer.rear == cfg.geo.Index(|s.written|)
    && s.reader.front == cfg.geo.Index(s.front)
    && s.front <= |s.written|
    && s.writer.effective <= cfg.geo.n && s.writer.released == |s.written|
    && (cfg.Throttles() && s.seenFront.Loaded? ==> s.seenFront.index == cfg.geo.Index(s.seenFront.count))
    && (s.seenRear.Loaded? ==> s.seenRear.index == cfg.geo.Index(s.seenRear.count) && s.seenRear.count <= |s.written|)
  }

  /** Frames lo up to hi lie at their homes in the buffer. */
  ghost predicate Holds<F>(geo: Geometry, buffer: seq<F>, written: seq<F>, lo: int, hi: nat)
    requires geo.Valid() && |buffer| == geo.n && hi <= |written|
  {
    forall c: nat :: lo <= c < hi ==> buffer[Home(geo, c)] == written[c]
  }

  /** The invariant of a writer throttled by this reader. */
  ghost predicate Inv<F>(cfg: Config, s: State<F>) {
    && cfg.Throttles() && Aligned(cfg, s)
    && s.throttleFront == s.reader.front
    && |s.written| + s.writer.obtained <= s.front + cfg.geo.n
    && s.front + s.reader.obtained <= |s.written|
    && |s.consumed| == s.front && s.consumed == s.written[..s.front]
    && s.reader.lost == 0 && s.reader.released == s.front && s.start == 0
    && (s.reader.obtained > 0 ==> s.slice == s.front)
    && |s.copied| <= s.reader.obtained && s.copied == s.written[s.front..s.front + |s.copied|]
    && (s.seenFront.Loaded? ==> s.seenFront.count <= s.front && |s.written| <= s.seenFront.count + cfg.geo.n)
    && (s.seenRear.Loaded? ==> s.front <= s.seenRear.count)
    && Holds(cfg.geo, s.buffer, s.written, s.front, |s.written|)
  }

  lemma NearIsWithinReach(geo: Geometry, r: nat, f: nat)
    requires geo.Valid() && f <= r <= f + geo.n
    ensures WithinReach(geo, r, f)
  {
    hide Geometry.Generations;
    GenerationsAreMany(geo);
    Divided(f, geo.n);
    DivModAdd(geo.n, f, r - f);
  }

  lemma GenerationsAreMany(geo: Geometry)
    requires geo.Valid()
    ensures geo.Generations() >= 2 && 0 < geo.n < WORD
  {
  }

  /** Counters no further apart than the capacity are told apart exactly. */
  lemma DiffNear(geo: Geometry, r: nat, f: nat, flush: bool)
    requires geo.Valid() && f <= r <= f + geo.n
    ensures Diff(geo, geo.Index(r), geo.Index(f), flush) == Filled(r - f)
  {
    hide Diff, WithinReach, Geometry.Index, Geometry.Valid;
    NearIsWithinReach(geo, r, f);
    DiffExactIff(geo, r, f, flush);
  }

  lemma InitialInv<F>(cfg: Config, s: State<F>)
    requires cfg.Throttles() && Initial(cfg, s)
    ensures Inv(cfg, s)
  {
    IndexOfZero(cfg.geo);
  }

  lemma IndexOfZero(geo: Geometry)
    requires geo.Valid()
    ensures geo.Index(0) == 0 && Offset(geo, 0) == 0 < geo.n
  {
    hide Offset, Log2, Pow2;
    DivideIs(0, geo.n, 0, 0);
    DivideIs(0, geo.Generations(), 0, 0);
    OffsetOfWord(geo, 0, 0);
  }

  lemma GatherIs<F>(geo: Geometry, buffer: seq<F>, c: nat, count: nat)
    requires geo.Valid() && |buffer| == geo.n && count <= geo.n && Offset(geo, geo.Index(c)) < geo.n
    ensures forall j: nat | j < count :: Gather(geo, buffer, geo.Index(c), count)[j] == buffer[Home(geo, c + j)]
  {
    hide SliceAt, Home, Offset, Geometry.Index, Slice.Slot;
    forall j: nat | j < count
      ensures Gather(geo, buffer, geo.Index(c), count)[j] == buffer[Home(geo, c + j)]
    {
      SlotIsHome(geo, c, count, j);
    }
  }

  lemma WriterObtainKeeps<F>(cfg: Config, s: State<F>, count: nat)
    requires Inv(cfg, s)
    ensures Inv(cfg, DoWriterObtain(cfg, s, count))
    ensures DoWriterObtain(cfg, s, count).shutdown == s.shutdown
  {
    hide Diff, Offset, Geometry.Index, Geometry.Valid, Holds, Home;
    if s.seenFront.Loaded? {
      DiffNear(cfg.geo, |s.written|, s.seenFront.count, false);
    }
  }

  lemma StoreKeeps<F>(cfg: Config, s: State<F>, j: nat, frame: F)
    requires Inv(cfg, s)
    ensures Inv(cfg, DoStore(cfg, s, j, frame))
  {
    hide Diff, Offset, Geometry.Index, Geometry.Valid, Home, SliceAt, Slice.Slot;
    if j < s.writer.obtained {
      SlotIsHome(cfg.geo, |s.written|, s.writer.obtained, j);
      forall c: nat | s.front <= c < |s.written|
        ensures DoStore(cfg, s, j, frame).buffer[Home(cfg.geo, c)] == s.written[c]
      {
        HomesDiffer(cfg.geo, c, |s.written| + j);
      }
    }
  }

  lemma WriterReleaseKeeps<F>(cfg: Config, s: State<F>, count: nat)
    requires Inv(cfg, s)
    ensures Inv(cfg, DoWriterRelease(cfg, s, count))
    ensures DoWriterRelease(cfg, s, count).shutdown == (s.shutdown || count > s.writer.obtained)
  {
    hide Diff, Offset, Geometry.Index, Geometry.Valid, Home, Gather, Sum;
    if 0 < count <= s.writer.obtained {
      var t := DoWriterRelease(cfg, s, count);
      SumExact(cfg.geo, |s.written|, count);
      OffsetIsHome(cfg.geo, |s.written| + count);
      DiffNear(cfg.geo, |s.written|, s.front, false);
      GatherIs(cfg.geo, s.buffer, |s.written|, count);
      PublishedHolds(cfg.geo, s.buffer, s.written, s.front, count);
    }
  }

  lemma PublishedHolds<F>(geo: Geometry, buffer: seq<F>, written: seq<F>, lo: int, count: nat)
    requires geo.Valid() && |buffer| == geo.n && count <= geo.n && Offset(geo, geo.Index(|written|)) < geo.n
    requires Holds(geo, buffer, written, lo, |written|)
    ensures
      var more := written + Gather(geo, buffer, geo.Index(|written|), count);
      Holds(geo, buffer, more, lo, |more|)
  {
    hide Offset, Geometry.Index, Geometry.Valid, Home, Gather;
    GatherIs(geo, buffer, |written|, count);
    var got := Gather(geo, buffer, geo.Index(|written|), count);
    var more := written + got;
    forall c: nat | lo <= c < |more|
      ensures buffer[Home(geo, c)] == more[c]
    {
      if c >= |written| {
        var j := c - |written|;
        assert got[j] == buffer[Home(geo, |written| + j)];
      }
    }
  }

  lemma ReaderObtainKeeps<F>(cfg: Config, s: State<F>, count: nat, slice: bool)
    requires Inv(cfg, s)
    ensures Inv(cfg, DoReaderObtain(cfg, s, count, slice))
    ensures DoReaderObtain(cfg, s, count, slice).shutdown == s.shutdown
  {
    hide Diff, Offset, Geometry.Index, Geometry.Valid, Holds, Home;
    if s.seenRear.Loaded? {
      DiffNear(cfg.geo, s.seenRear.count, s.front, cfg.flush);
    }
  }

  /** What a reader takes out of its slice is what was written there. */
  lemma TakenIsWritten<F>(geo: Geometry, buffer: seq<F>, written: seq<F>, front: nat, count: nat)
    requires geo.Valid() && |buffer| == geo.n && count <= geo.n && Offset(geo, geo.Index(front)) < geo.n
    requires front + count <= |written| && Holds(geo, buffer, written, front, front + count)
    ensures Gather(geo, buffer, geo.Index(front), count) == written[front..front + count]
  {
    hide Offset, Geometry.Index, Geometry.Valid, Home, Gather;
    GatherIs(geo, buffer, front, count);
    var got := Gather(geo, buffer, geo.Index(front), count);
    forall j: nat | j < count
      ensures got[j] == written[front + j]
    {
      assert got[j] == buffer[Home(geo, front + j)];
    }
  }

  /** While the reader throttles the writer, its slice holds the frames that were written there. */
  lemma InSliceIsWritten<F>(cfg: Config, s: State<F>, count: nat)
    requires Inv(cfg, s) && 0 < count <= s.reader.obtained
    ensures s.front + count <= |s.written| && InSlice(cfg, s, count) == s.written[s.front..s.front + count]
  {
    hide Diff, Offset, Geometry.Index, Geometry.Valid, Home, Gather, Holds;
    HoldsBelow(cfg.geo, s.buffer, s.written, s.front, s.front + count);
    TakenIsWritten(cfg.geo, s.buffer, s.written, s.front, count);
  }

  lemma HoldsBelow<F>(geo: Geometry, buffer: seq<F>, written: seq<F>, lo: int, hi: nat)
    requires geo.Valid() && |buffer| == geo.n && hi <= |written| && Holds(geo, buffer, written, lo, |written|)
    ensures Holds(geo, buffer, written, lo, hi)
  {
    hide Home, Geometry.Valid;
  }

  lemma DeliveredIsWritten<F>(cfg: Config, s: State<F>, count: nat)
    requires Inv(cfg, s) && 0 < count <= s.reader.obtained
    ensures s.front + count <= |s.written| && Delivered(cfg, s, count) == s.written[s.front..s.front + count]
  {
    hide Diff, Offset, Geometry.Index, Geometry.Valid, Home, Holds, InSlice;
    InSliceIsWritten(cfg, s, count);
    var k, part := Min(|s.copied|, count), s.written[s.front..s.front + count];
    assert s.copied[..k] == part[..k];
    assert part[..k] + part[k..] == part;
  }

  lemma TakeKeeps<F>(cfg: Config, s: State<F>)
    requires Inv(cfg, s)
    ensures Inv(cfg, DoTake(cfg, s)) && DoTake(cfg, s).shutdown == s.shutdown
  {
    hide Diff, Offset, Geometry.Index, Geometry.Valid, Home, Holds, InSlice;
    var k := |s.copied|;
    if k < s.reader.obtained {
      InSliceIsWritten(cfg, s, k + 1);
    }
  }

  lemma ReaderReleaseKeeps<F>(cfg: Config, s: State<F>, count: nat)
    requires Inv(cfg, s)
    ensures Inv(cfg, DoReaderRelease(cfg, s, count))
    ensures DoReaderRelease(cfg, s, count).shutdown == (s.shutdown || count > s.reader.obtained)
  {
    hide Diff, Offset, Geometry.Index, Geometry.Valid, Home, Sum, Delivered, Holds, Counters;
    if 0 < count <= s.reader.obtained {
      SumExact(cfg.geo, s.front, count);
      OffsetIsHome(cfg.geo, s.front + count);
      DiffNear(cfg.geo, |s.written|, s.front, false);
      DeliveredIsWritten(cfg, s, count);
      HoldsAbove(cfg.geo, s.buffer, s.written, s.front, s.front + count);
      ConsumedGrows(s.written, s.front, count, s.copied);
    }
  }

  lemma HoldsAbove<F>(geo: Geometry, buffer: seq<F>, written: seq<F>, lo: int, lo': int)
    requires geo.Valid() && |buffer| == geo.n && lo <= lo' && Holds(geo, buffer, written, lo, |written|)
    ensures Holds(geo, buffer, written, lo', |written|)
  {
    hide Home, Geometry.Valid;
  }

  lemma ConsumedGrows<F>(written: seq<F>, front: nat, count: nat, copied: seq<F>)
    requires front + count <= |written| && front + |copied| <= |written| && copied == written[front..front + |copied|]
    ensures written[..front] + written[front..front + count] == written[..front + count]
    ensures
      var rest := copied[Min(|copied|, count)..];
      rest == [] || (front + count + |rest| <= |written| && rest == written[front + count..front + count + |rest|])
  {
  }

  /** The caller releases more than it obtained: the only way to shut a throttled FIFO down. */
  ghost predicate Misuse<F>(s: State<F>, step: Step<F>) {
    || (step.WriterRelease? && step.count > s.writer.obtained)
    || (step.ReaderRelease? && step.count > s.reader.obtained)
  }

  /** Every step of either side keeps the invariant; only a misuse shuts the FIFO down. */
  lemma StepKeeps<F>(cfg: Config, s: State<F>, step: Step<F>)
    requires Inv(cfg, s)
    ensures Inv(cfg, Do(cfg, s, step))
    ensures Do(cfg, s, step).shutdown <==> s.shutdown || Misuse(s, step)
  {
    hide Diff, Offset, Geometry.Index, Geometry.Valid, Holds, Home, Gather, Sum;
    hide DoStore, DoWriterObtain, DoWriterRelease, DoReaderObtain, DoReaderRelease, DoTake;
    match step
    case WriterObtain(count) => WriterObtainKeeps(cfg, s, count);
    case Store(j, frame) => StoreKeeps(cfg, s, j, frame); StoreShuts(cfg, s, j, frame);
    case WriterRelease(count) => WriterReleaseKeeps(cfg, s, count);
    case ReaderObtain(count, slice) => ReaderObtainKeeps(cfg, s, count, slice);
    case Take => TakeKeeps(cfg, s);
    case ReaderRelease(count) => ReaderReleaseKeeps(cfg, s, count);
    case _ =>
  }

  lemma StoreShuts<F>(cfg: Config, s: State<F>, j: nat, frame: F)
    requires Shaped(cfg, s)
    ensures DoStore(cfg, s, j, frame).shutdown == s.shutdown
  {
    hide Offset, SliceAt, Slice.Slot;
  }

  /** The state after a schedule of steps. */
  ghost function Run<F>(cfg: Config, s: State<F>, steps: seq<Step<F>>): (t: State<F>)
    requires Inv(cfg, s)
    ensures Inv(cfg, t)
    decreases |steps|
  {
    if steps == [] then s
    else
      StepKeeps(cfg, s, steps[0]);
      Run(cfg, Do(cfg, s, steps[0]), steps[1..])
  }

  // ---- the FIFO with a throttling reader

  /** No step of the schedule releases more than was obtained. */
  ghost predicate WellUsed<F>(cfg: Config, s: State<F>, steps: seq<Step<F>>)
    requires Inv(cfg, s)
    decreases |steps|
  {
    steps == [] || (
      StepKeeps(cfg, s, steps[0]);
      !Misuse(s, steps[0]) && WellUsed(cfg, Do(cfg, s, steps[0]), steps[1..]))
  }

  /** Whatever the schedule: the frames read are a prefix of the frames written; the writer may
      fill no slot of an unread frame, nor any slot the reader is copying; every slot the reader
      obtained still holds the frame written there. */
  lemma FramesArriveInOrder<F>(cfg: Config, s: State<F>, steps: seq<Step<F>>)
    requires cfg.Throttles() && Initial(cfg, s)
    ensures Inv(cfg, s)
    ensures InOrder(cfg, Run(cfg, s, steps))
    ensures WellUsed(cfg, s, steps) ==> !Run(cfg, s, steps).shutdown
  {
    hide Do, WellUsed, SlicesApart, ReaderSliceIntact, Geometry.Index, Geometry.Valid, Diff, Offset;
    InitialInv(cfg, s);
    InvSeparates(cfg, Run(cfg, s, steps));
    if WellUsed(cfg, s, steps) {
      StaysOpen(cfg, s, steps);
    }
  }

  ghost predicate InOrder<F>(cfg: Config, s: State<F>)
    requires Inv(cfg, s)
  {
    && |s.consumed| <= |s.written| <= |s.consumed| + cfg.geo.n && s.consumed == s.written[..|s.consumed|]
    && s.reader.released == |s.consumed| && s.writer.released == |s.written| && s.reader.lost == 0
    && SlicesApart(cfg, s)
    && ReaderSliceIntact(cfg, s)
  }

  ghost predicate SlicesApart<F>(cfg: Config, s: State<F>)
    requires cfg.geo.Valid() && s.front <= |s.written|
  {
    var fill := SliceAt(cfg.geo, s.writer.rear, s.writer.obtained);
    && (forall j: nat, c: nat :: j < s.writer.obtained && s.front <= c < |s.written| ==>
          fill.Slot(j) != Home(cfg.geo, c))
    && (forall j: nat, i: nat :: j < s.writer.obtained && i < s.reader.obtained ==>
          fill.Slot(j) != SliceAt(cfg.geo, s.reader.front, s.reader.obtained).Slot(i))
  }

  ghost predicate ReaderSliceIntact<F>(cfg: Config, s: State<F>)
    requires cfg.geo.Valid() && |s.buffer| == cfg.geo.n && s.front + s.reader.obtained <= |s.written|
  {
    forall i: nat :: i < s.reader.obtained ==>
      var slot := SliceAt(cfg.geo, s.reader.front, s.reader.obtained).Slot(i);
      slot < |s.buffer| && s.buffer[slot] == s.written[s.front + i]
  }

  lemma InvSeparates<F>(cfg: Config, s: State<F>)
    requires Inv(cfg, s)
    ensures SlicesApart(cfg, s) && ReaderSliceIntact(cfg, s)
  {
    hide Diff, Offset, Geometry.Index, Geometry.Valid, Home, SliceAt, Slice.Slot;
    var fill := SliceAt(cfg.geo, s.writer.rear, s.writer.obtained);
    var take := SliceAt(cfg.geo, s.reader.front, s.reader.obtained);
    forall j: nat, c: nat | j < s.writer.obtained && s.front <= c < |s.written|
      ensures fill.Slot(j) != Home(cfg.geo, c)
    {
      SlotIsHome(cfg.geo, |s.written|, s.writer.obtained, j);
      HomesDiffer(cfg.geo, c, |s.written| + j);
    }
    forall i: nat | i < s.reader.obtained
      ensures take.Slot(i) == Home(cfg.geo, s.front + i) < |s.buffer|
    {
      SlotIsHome(cfg.geo, s.front, s.reader.obtained, i);
    }
  }

  lemma InvShaped<F>(cfg: Config, s: State<F>)
    requires Inv(cfg, s)
    ensures Shaped(cfg, s)
  {
  }

  lemma {:induction false} StaysOpen<F>(cfg: Config, s: State<F>, steps: seq<Step<F>>)
    requires Inv(cfg, s) && !s.shutdown && WellUsed(cfg, s, steps)
    ensures !Run(cfg, s, steps).shutdown
    decreases |steps|
  {
    hide Do, Inv;
    if steps != [] {
      InvShaped(cfg, s);
      StepKeeps(cfg, s, steps[0]);
      StaysOpen(cfg, Do(cfg, s, steps[0]), steps[1..]);
    }
  }

  /** History is never rewritten: frames once written or read stay written or read. */
  lemma {:induction false} HistoryGrows<F>(cfg: Config, s: State<F>, steps: seq<Step<F>>)
    requires Inv(cfg, s)
    ensures s.written <= Run(cfg, s, steps).written
    ensures s.consumed <= Run(cfg, s, steps).consumed
    decreases |steps|
  {
    hide Inv, Diff, Offset, Geometry.Index, Geometry.Valid, Home, SliceAt, Slice.Slot, Gather, Sum, Room, ReaderObtained;
    if steps != [] {
      InvShaped(cfg, s);
      StepKeeps(cfg, s, steps[0]);
      StepGrows(cfg, s, steps[0]);
      HistoryGrows(cfg, Do(cfg, s, steps[0]), steps[1..]);
    }
  }

  lemma StepGrows<F>(cfg: Config, s: State<F>, step: Step<F>)
    requires Inv(cfg, s)
    ensures s.written <= Do(cfg, s, step).written && s.consumed <= Do(cfg, s, step).consumed
  {
    hide Diff, Offset, Geometry.Index, Geometry.Valid, Home, SliceAt, Slice.Slot, Gather, Sum, Room, ReaderObtained;
  }

  /** With fresh snapshots obtain is exact: the writer gets all the room its effective size
      leaves, the reader all the unread frames. */
  lemma FreshSnapshotsAreExact<F>(cfg: Config, s: State<F>, count: nat)
    requires Inv(cfg, s) && !s.shutdown
    ensures
      var t := DoWriterObtain(cfg, Do(cfg, s, LoadFront), count);
      var unread := |s.written| - s.front;
      t.writer.obtained == Min(if s.writer.effective > unread then s.writer.effective - unread else 0, count)
    ensures
      var t := DoReaderObtain(cfg, Do(cfg, s, LoadRear), count, true);
      t.reader.obtained == Min(|s.written| - s.front, count)
  {
    hide Diff, Offset, Geometry.Index, Geometry.Valid, Holds, Home;
    DiffNear(cfg.geo, |s.written|, s.front, false);
    DiffNear(cfg.geo, |s.written|, s.front, cfg.flush);
  }

  // ---- a reader that does not throttle the writer

  /** What the writer may have overwritten since its last release is excluded. */
  ghost predicate FreeInv<F>(cfg: Config, s: State<F>) {
    && !cfg.Throttles() && Aligned(cfg, s)
    && (!cfg.flush || s.slice == s.front ==> s.front + s.reader.obtained <= |s.written|)
    && s.start <= s.front && s.reader.released == s.front - s.start
    && s.reader.released == s.reader.lost + |s.consumed|
    && |s.took| == |s.consumed|
    && s.touched <= cfg.geo.n
    && (s.reader.obtained > 0 ==> s.slice <= s.front && s.slice + s.reader.obtained <= |s.written|)
    && (s.seenRear.Loaded? ==> s.front <= s.seenRear.count)
    && Holds(cfg.geo, s.buffer, s.written, |s.written| - cfg.geo.n + s.touched, |s.written|)
  }

  /** The reader is fewer than G generations behind when it looks, and does not release frames
      that are not written yet: after an overrun of a flushing reader, those of a slice from before. */
  ghost predicate Admissible<F>(cfg: Config, s: State<F>, step: Step<F>)
    requires cfg.geo.Valid()
  {
    && (step.ReaderObtain? && s.seenRear.Loaded? ==>
          s.front <= s.seenRear.count && WithinReach(cfg.geo, s.seenRear.count, s.front))
    && (step.ReaderRelease? && step.count <= s.reader.obtained ==> s.front + step.count <= |s.written|)
  }

  lemma InitialFreeInv<F>(cfg: Config, s: State<F>)
    requires !cfg.Throttles() && Initial(cfg, s)
    ensures FreeInv(cfg, s)
  {
    IndexOfZero(cfg.geo);
  }

  lemma PreviousWord(geo: Geometry, g: nat, o: nat)
    requires geo.Valid() && g < geo.Generations() && o < geo.n
    ensures Wrap(geo.Word(if g + 1 == geo.Generations() then 0 else g + 1, o) - geo.p2) == geo.Word(g, o)
  {
    hide Wrap, Log2, Pow2;
    WordFits(geo, g, o);
    WrapSmall(o - geo.p2);
    WrapSmall(geo.Word(g + 1, o) - geo.p2);
  }

  /** rear - P2 is the index one capacity back. */
  lemma BackOneLap(geo: Geometry, c: nat)
    requires geo.Valid() && geo.n <= c
    ensures Wrap(geo.Index(c) - geo.p2) == geo.Index(c - geo.n)
  {
    hide *;
    SomeGeometry(geo);
    var b := c - geo.n;
    Divided(b, geo.n);
    IndexIs(geo, b);
    IndexIs(geo, b + geo.n);
    DivModAdd(geo.n, b, geo.n);
    DivModAdd(geo.Generations(), b / geo.n, 1);
    PreviousWord(geo, (b / geo.n) % geo.Generations(), b % geo.n);
  }

  lemma StoreKeepsFree<F>(cfg: Config, s: State<F>, j: nat, frame: F)
    requires FreeInv(cfg, s)
    ensures FreeInv(cfg, DoStore(cfg, s, j, frame))
  {
    hide Diff, Offset, Geometry.Index, Geometry.Valid, Home, SliceAt, Slice.Slot;
    if j < s.writer.obtained {
      SlotIsHome(cfg.geo, |s.written|, s.writer.obtained, j);
      var t := DoStore(cfg, s, j, frame);
      forall c: nat | |s.written| - cfg.geo.n + t.touched <= c < |s.written|
        ensures t.buffer[Home(cfg.geo, c)] == s.written[c]
      {
        HomesDiffer(cfg.geo, c, |s.written| + j);
      }
    }
  }

  lemma WriterReleaseKeepsFree<F>(cfg: Config, s: State<F>, count: nat)
    requires FreeInv(cfg, s)
    ensures FreeInv(cfg, DoWriterRelease(cfg, s, count))
  {
    hide Diff, Offset, Geometry.Index, Geometry.Valid, Home, Gather, Sum;
    if 0 < count <= s.writer.obtained {
      SumExact(cfg.geo, |s.written|, count);
      OffsetIsHome(cfg.geo, |s.written| + count);
      PublishedHolds(cfg.geo, s.buffer, s.written, |s.written| - cfg.geo.n + s.touched, count);
    }
  }

  /** What obtain does when it finds the reader overrun: it reports exactly the frames skipped,
      and moves the front to one capacity behind the rear it saw, or to that rear if flushing. */
  lemma OverrunIsExact<F>(cfg: Config, s: State<F>, count: nat, slice: bool)
    requires FreeInv(cfg, s) && Admissible(cfg, s, ReaderObtain(count, slice)) && !s.shutdown
    requires s.seenRear.Loaded? && s.seenRear.count > s.front + cfg.geo.n
    ensures
      var t := DoReaderObtain(cfg, s, count, slice);
      && t.front == s.seenRear.count - Keep(cfg.geo, cfg.flush)
      && t.reader.front == cfg.geo.Index(t.front)
      && t.reader.lost - s.reader.lost == t.front - s.front == t.reader.released - s.reader.released
      && t.reader.obtained == (if slice then 0 else s.reader.obtained)
      && t.shutdown == s.shutdown
  {
    hide Diff, Offset, Geometry.Index, Geometry.Valid, Holds, Home, WithinReach, Wrap;
    DiffExactIff(cfg.geo, s.seenRear.count, s.front, cfg.flush);
    BackOneLap(cfg.geo, s.seenRear.count);
    IndexWraps(cfg.geo, s.seenRear.count);
  }

  lemma IndexWraps(geo: Geometry, c: nat)
    requires geo.Valid()
    ensures Wrap(geo.Index(c) - 0) == geo.Index(c)
  {
    hide *;
    WrapSmall(geo.Index(c));
  }

  lemma ReaderObtainKeepsFree<F>(cfg: Config, s: State<F>, count: nat, slice: bool)
    requires FreeInv(cfg, s) && Admissible(cfg, s, ReaderObtain(count, slice))
    ensures FreeInv(cfg, DoReaderObtain(cfg, s, count, slice))
  {
    hide Diff, Offset, Geometry.Index, Geometry.Valid, Holds, Home, WithinReach, Wrap;
    if s.seenRear.Loaded? {
      DiffExactIff(cfg.geo, s.seenRear.count, s.front, cfg.flush);
      if s.seenRear.count > s.front + cfg.geo.n && !s.shutdown {
        OverrunIsExact(cfg, s, count, slice);
        OffsetIsHome(cfg.geo, s.seenRear.count - Keep(cfg.geo, cfg.flush));
      }
    }
  }

  lemma ReaderReleaseKeepsFree<F>(cfg: Config, s: State<F>, count: nat)
    requires FreeInv(cfg, s) && Admissible(cfg, s, ReaderRelease(count))
    ensures FreeInv(cfg, DoReaderRelease(cfg, s, count))
  {
    hide Diff, Offset, Geometry.Index, Geometry.Valid, Home, Gather, Sum, Holds, Delivered, Counters;
    if 0 < count <= s.reader.obtained {
      SumExact(cfg.geo, s.front, count);
      OffsetIsHome(cfg.geo, s.front + count);
    }
  }

  lemma TakeKeepsFree<F>(cfg: Config, s: State<F>)
    requires FreeInv(cfg, s)
    ensures FreeInv(cfg, DoTake(cfg, s))
  {
    hide Diff, Offset, Geometry.Index, Geometry.Valid, Home, Holds, InSlice;
  }

  lemma FreeStepKeeps<F>(cfg: Config, s: State<F>, step: Step<F>)
    requires FreeInv(cfg, s) && Admissible(cfg, s, step)
    ensures FreeInv(cfg, Do(cfg, s, step))
  {
    hide Diff, Offset, Geometry.Index, Geometry.Valid, Holds, Home, Gather, Sum, Admissible;
    hide DoStore, DoWriterRelease, DoReaderObtain, DoReaderRelease, DoTake;
    match step
    case Store(j, frame) => StoreKeepsFree(cfg, s, j, frame);
    case WriterRelease(count) => WriterReleaseKeepsFree(cfg, s, count);
    case ReaderObtain(count, slice) => ReaderObtainKeepsFree(cfg, s, count, slice);
    case Take => TakeKeepsFree(cfg, s);
    case ReaderRelease(count) => ReaderReleaseKeepsFree(cfg, s, count);
    case _ =>
  }

  ghost predicate AdmissibleRun<F>(cfg: Config, s: State<F>, steps: seq<Step<F>>)
    requires FreeInv(cfg, s)
    decreases |steps|
  {
    steps == [] || (
      Admissible(cfg, s, steps[0]) && (
        FreeStepKeeps(cfg, s, steps[0]);
        AdmissibleRun(cfg, Do(cfg, s, steps[0]), steps[1..])))
  }

  ghost function FreeRun<F>(cfg: Config, s: State<F>, steps: seq<Step<F>>): (t: State<F>)
    requires FreeInv(cfg, s) && AdmissibleRun(cfg, s, steps)
    ensures FreeInv(cfg, t)
    decreases |steps|
  {
    if steps == [] then s
    else
      FreeStepKeeps(cfg, s, steps[0]);
      FreeRun(cfg, Do(cfg, s, steps[0]), steps[1..])
  }

  /** Whole runs account for every frame: the total released is the advance of the front since
      the reader was constructed, and it is the frames delivered plus the frames lost. */
  lemma LossIsAccountedFor<F>(cfg: Config, s: State<F>, steps: seq<Step<F>>)
    requires !cfg.Throttles() && Initial(cfg, s)
    ensures FreeInv(cfg, s)
    ensures AdmissibleRun(cfg, s, steps) ==> Accounted(cfg, FreeRun(cfg, s, steps))
  {
    hide Do, AdmissibleRun, Geometry.Index, Geometry.Valid, Offset, FreeRun;
    InitialFreeInv(cfg, s);
  }

  ghost predicate Accounted<F>(cfg: Config, s: State<F>)
    requires cfg.geo.Valid()
  {
    && s.reader.front == cfg.geo.Index(s.front) && s.front <= |s.written|
    && s.reader.released == s.front - s.start == s.reader.lost + |s.consumed|
  }

  /** After an overrun that keeps frames, the next obtain sees exactly the latest N frames,
      if the writer has neither published nor stored anything more. */
  lemma CatchUpSeesLatest<F>(cfg: Config, s: State<F>, count: nat, again: nat)
    requires FreeInv(cfg, s) && !cfg.flush && !s.shutdown && s.touched == 0 && again >= cfg.geo.n
    requires s.seenRear == Loaded(cfg.geo.Index(|s.written|), |s.written|) && |s.written| > s.front + cfg.geo.n
    requires WithinReach(cfg.geo, |s.written|, s.front)
    ensures
      var t := DoReaderObtain(cfg, s, count, true);
      var u := DoReaderObtain(cfg, t.(seenRear := s.seenRear), again, true);
      && u.reader.obtained == cfg.geo.n && u.front == |s.written| - cfg.geo.n
      && Shaped(cfg, u)
      && Gather(cfg.geo, u.buffer, u.reader.front, cfg.geo.n) == s.written[|s.written| - cfg.geo.n..]
  {
    hide Diff, Offset, Geometry.Index, Geometry.Valid, Holds, Home, WithinReach, Wrap, Gather;
    OverrunIsExact(cfg, s, count, true);
    var front := |s.written| - cfg.geo.n;
    OffsetIsHome(cfg.geo, front);
    DiffNear(cfg.geo, |s.written|, front, false);
    TakenIsWritten(cfg.geo, s.buffer, s.written, front, cfg.geo.n);
  }

  /** A frame in the slice of a reader that does not throttle is right if the writer has not
      reached its slot again: fewer than N frames published or stored since. */
  lemma UnoverwrittenFrameIsRight<F>(cfg: Config, s: State<F>, i: nat)
    requires FreeInv(cfg, s) && i < s.reader.obtained
    requires |s.written| + s.touched <= s.slice + i + cfg.geo.n
    ensures s.slice + i < |s.written| && InSlice(cfg, s, i + 1)[i] == s.written[s.slice + i]
  {
    hide Diff, Offset, Geometry.Index, Geometry.Valid, Home, Gather;
    OffsetIsHome(cfg.geo, s.slice);
    GatherIs(cfg.geo, s.buffer, s.slice, i + 1);
  }

  // ---- available() between obtain and release

  /** The frames that can be released are those that were obtained. */
  ghost predicate Releasable<F>(s: State<F>) {
    s.reader.obtained > 0 ==> s.slice == s.front
  }

  /** available() promises not to affect the releasable frames. For any reader, flushing or not,
      they are still those obtained exactly if it found no overrun, or none were obtained. */
  lemma AvailableKeepsReleasableIff<F>(cfg: Config, s: State<F>, count: nat)
    requires FreeInv(cfg, s) && Releasable(s) && !s.shutdown && s.seenRear.Loaded?
    requires WithinReach(cfg.geo, s.seenRear.count, s.front)
    ensures DoReaderObtain(cfg, s, count, false).reader.obtained == s.reader.obtained
    ensures DoReaderObtain(cfg, s, count, false).slice == s.slice
    ensures Releasable(DoReaderObtain(cfg, s, count, false))
      <==> s.seenRear.count <= s.front + cfg.geo.n || s.reader.obtained == 0
  {
    hide Diff, Offset, Geometry.Index, Geometry.Valid, Holds, Home, WithinReach, Wrap;
    DiffExactIff(cfg.geo, s.seenRear.count, s.front, cfg.flush);
  }

  /** While that is so, every release of obtained frames is admissible. */
  lemma ReleasableIsAdmissible<F>(cfg: Config, s: State<F>, count: nat)
    requires FreeInv(cfg, s) && Releasable(s)
    ensures Admissible(cfg, s, ReaderRelease(count))
  {
    hide Diff, Offset, Geometry.Index, Geometry.Valid, Holds, Home, WithinReach;
  }

  /** Otherwise a release advances the front beyond frames that were never obtained, for a
      flushing reader even beyond the rear that was seen. */
  lemma StaleReleasePasses<F>(cfg: Config, s: State<F>, count: nat, k: nat)
    requires FreeInv(cfg, s) && Releasable(s) && !s.shutdown && s.seenRear.Loaded?
    requires WithinReach(cfg.geo, s.seenRear.count, s.front) && s.seenRear.count > s.front + cfg.geo.n
    requires 0 < k <= s.reader.obtained
    ensures
      var t := DoReaderObtain(cfg, s, count, false);
      && Shaped(cfg, t)
      && DoReaderRelease(cfg, t, k).took == s.took + Counters(s.front, k)
      && DoReaderRelease(cfg, t, k).front == t.front + k
      && t.front + k == s.seenRear.count - Keep(cfg.geo, cfg.flush) + k > s.front + k
  {
    hide Diff, Offset, Geometry.Index, Geometry.Valid, Holds, Home, WithinReach, Wrap, Sum, Delivered, Counters;
    DiffExactIff(cfg.geo, s.seenRear.count, s.front, cfg.flush);
    BackOneLap(cfg.geo, s.seenRear.count);
    IndexWraps(cfg.geo, s.seenRear.count);
    OffsetIsHome(cfg.geo, s.seenRear.count - Keep(cfg.geo, cfg.flush));
  }

  /** Such a state is reached: a buffer is filled and obtained, and one more frame is written. */
  function OverrunWhileHeld<F>(n: nat): seq<Step<F>> {
    [WriterObtain(n)] + ([WriterRelease(n)] + ([LoadRear] + ([ReaderObtain(n, true)]
    + ([WriterObtain(1)] + ([WriterRelease(1)] + ([LoadRear] + []))))))
  }

  lemma RunFrom<F>(cfg: Config, s: State<F>, step: Step<F>, rest: seq<Step<F>>)
    requires FreeInv(cfg, s) && Admissible(cfg, s, step)
    ensures FreeInv(cfg, Do(cfg, s, step))
    ensures AdmissibleRun(cfg, Do(cfg, s, step), rest) ==>
      AdmissibleRun(cfg, s, [step] + rest) && FreeRun(cfg, s, [step] + rest) == FreeRun(cfg, Do(cfg, s, step), rest)
  {
    hide Do, FreeInv, Admissible, Geometry.Valid;
    FreeShaped(cfg, s);
    FreeStepKeeps(cfg, s, step);
    assert ([step] + rest)[1..] == rest;
  }

  /** The writer, not throttled, publishes k frames. */
  lemma Publishes<F>(cfg: Config, s: State<F>, k: nat, rest: seq<Step<F>>) returns (u: State<F>)
    requires FreeInv(cfg, s) && cfg.throttle == Unthrottled && !s.shutdown && 0 < k <= s.writer.effective
    ensures FreeInv(cfg, u) && !u.shutdown && |u.written| == |s.written| + k && u.writer.effective == s.writer.effective
    ensures u.reader == s.reader && u.front == s.front && u.slice == s.slice
    ensures AdmissibleRun(cfg, u, rest) ==>
      && AdmissibleRun(cfg, s, [WriterObtain(k)] + ([WriterRelease(k)] + rest))
      && FreeRun(cfg, s, [WriterObtain(k)] + ([WriterRelease(k)] + rest)) == FreeRun(cfg, u, rest)
  {
    hide Diff, Offset, Geometry.Index, Geometry.Valid, Holds, Home, Gather, Sum, FreeRun, AdmissibleRun, FreeInv;
    FreeShaped(cfg, s);
    var s1 := Do(cfg, s, WriterObtain(k));
    RunFrom(cfg, s, WriterObtain(k), [WriterRelease(k)] + rest);
    FreeShaped(cfg, s1);
    u := Do(cfg, s1, WriterRelease(k));
    RunFrom(cfg, s1, WriterRelease(k), rest);
  }

  lemma LoadsRear<F>(cfg: Config, s: State<F>, rest: seq<Step<F>>) returns (u: State<F>)
    requires FreeInv(cfg, s)
    ensures FreeInv(cfg, u) && u == s.(seenRear := Loaded(s.writerRear, |s.written|))
    ensures AdmissibleRun(cfg, u, rest) ==>
      AdmissibleRun(cfg, s, [LoadRear] + rest) && FreeRun(cfg, s, [LoadRear] + rest) == FreeRun(cfg, u, rest)
  {
    hide FreeRun, AdmissibleRun, FreeInv;
    FreeShaped(cfg, s);
    u := Do(cfg, s, LoadRear);
    RunFrom(cfg, s, LoadRear, rest);
  }

  /** The reader obtains a full buffer. */
  lemma ObtainsAll<F>(cfg: Config, s: State<F>, k: nat, rest: seq<Step<F>>) returns (u: State<F>)
    requires FreeInv(cfg, s) && !s.shutdown && s.seenRear == Loaded(s.writerRear, |s.written|)
    requires |s.written| == s.front + k && k <= cfg.geo.n
    ensures FreeInv(cfg, u) && !u.shutdown && u.written == s.written && u.writer == s.writer
    ensures u.front == s.front == u.slice && u.reader.obtained == k
    ensures AdmissibleRun(cfg, u, rest) ==>
      && AdmissibleRun(cfg, s, [ReaderObtain(k, true)] + rest)
      && FreeRun(cfg, s, [ReaderObtain(k, true)] + rest) == FreeRun(cfg, u, rest)
  {
    hide Diff, Offset, Geometry.Index, Geometry.Valid, Holds, Home, FreeRun, AdmissibleRun, WithinReach;
    FreeShaped(cfg, s);
    NearIsWithinReach(cfg.geo, |s.written|, s.front);
    DiffNear(cfg.geo, |s.written|, s.front, cfg.flush);
    u := Do(cfg, s, ReaderObtain(k, true));
    RunFrom(cfg, s, ReaderObtain(k, true), rest);
  }

  lemma EmptyRun<F>(cfg: Config, s: State<F>)
    requires FreeInv(cfg, s)
    ensures AdmissibleRun(cfg, s, []) && FreeRun(cfg, s, []) == s
  {
    hide FreeInv;
  }

  lemma SizeOf(geo: Geometry)
    requires geo.Valid()
    ensures geo.n > 0
  {
  }

  lemma OneMoreWithinReach(geo: Geometry)
    requires geo.Valid()
    ensures WithinReach(geo, geo.n + 1, 0)
  {
    hide Geometry.Generations;
    GenerationsAreMany(geo);
  }

  lemma StaleReleaseReached<F>(cfg: Config, s: State<F>) returns (t: State<F>)
    requires cfg.throttle == Unthrottled && Initial(cfg, s)
    ensures FreeInv(cfg, s) && AdmissibleRun(cfg, s, OverrunWhileHeld(cfg.geo.n))
    ensures t == FreeRun(cfg, s, OverrunWhileHeld(cfg.geo.n))
    ensures FreeInv(cfg, t) && Releasable(t) && !t.shutdown && t.seenRear.Loaded? && t.reader.obtained == cfg.geo.n > 0
    ensures WithinReach(cfg.geo, t.seenRear.count, t.front) && t.seenRear.count > t.front + cfg.geo.n
    ensures !Releasable(DoReaderObtain(cfg, t, 0, false))
  {
    hide Diff, Offset, Geometry.Index, Geometry.Valid, Holds, Home, Gather, Sum, FreeRun, AdmissibleRun, FreeInv, WithinReach;
    var n := cfg.geo.n;
    InitialFreeInv(cfg, s);
    var last := [LoadRear] + [];
    var more := [WriterObtain(1)] + ([WriterRelease(1)] + last);
    var taken := [ReaderObtain(n, true)] + more;
    SizeOf(cfg.geo);
    var s2 := Publishes(cfg, s, n, [LoadRear] + taken);
    var s3 := LoadsRear(cfg, s2, taken);
    var s4 := ObtainsAll(cfg, s3, n, more);
    var s6 := Publishes(cfg, s4, 1, last);
    t := LoadsRear(cfg, s6, []);
    EmptyRun(cfg, t);
    OneMoreWithinReach(cfg.geo);
    AvailableKeepsReleasableIff(cfg, t, 0);
  }

  /** Each frame counter that the front passed since the reader was constructed was taken once,
      in order, or is one of those reported as lost. */
  ghost predicate TakenOnce<F>(s: State<F>) {
    && Releasable(s) && |s.took| == |s.consumed| && s.reader.lost + |s.took| == s.front - s.start
    && (forall i: nat :: i < |s.took| ==> s.start <= s.took[i] < s.front)
    && (forall i: nat, j: nat :: i < j < |s.took| ==> s.took[i] < s.took[j])
  }

  /** The step is not an available() of the kind that AvailableKeepsReleasableIff warns of. */
  ghost predicate Coherent<F>(cfg: Config, s: State<F>, step: Step<F>)
    requires cfg.geo.Valid()
  {
    && Admissible(cfg, s, step)
    && (step.ReaderObtain? && !step.slice && s.seenRear.Loaded? ==>
          s.reader.obtained == 0 || s.seenRear.count <= s.front + cfg.geo.n)
  }

  lemma TakenOnceGrows<F>(s: State<F>, t: State<F>)
    requires TakenOnce(s) && t.took == s.took && t.consumed == s.consumed && t.start == s.start
    requires t.front >= s.front && t.reader.lost - s.reader.lost == t.front - s.front && Releasable(t)
    ensures TakenOnce(t)
  {
  }

  lemma ReleaseTakesOnce<F>(cfg: Config, s: State<F>, count: nat)
    requires FreeInv(cfg, s) && TakenOnce(s)
    ensures TakenOnce(DoReaderRelease(cfg, s, count))
  {
    hide Diff, Offset, Geometry.Index, Geometry.Valid, Holds, Home, Sum, Delivered;
  }

  lemma ObtainTakesOnce<F>(cfg: Config, s: State<F>, count: nat, slice: bool)
    requires FreeInv(cfg, s) && TakenOnce(s) && Coherent(cfg, s, ReaderObtain(count, slice))
    ensures TakenOnce(DoReaderObtain(cfg, s, count, slice))
  {
    hide Diff, Offset, Geometry.Index, Geometry.Valid, Holds, Home, WithinReach, Wrap, TakenOnce;
    if s.seenRear.Loaded? {
      DiffExactIff(cfg.geo, s.seenRear.count, s.front, cfg.flush);
      if s.seenRear.count > s.front + cfg.geo.n && !s.shutdown {
        OverrunIsExact(cfg, s, count, slice);
      }
      assert Releasable(s) by { TakenOnceReleasable(s); }
      TakenOnceGrows(s, DoReaderObtain(cfg, s, count, slice));
    }
  }

  lemma TakenOnceReleasable<F>(s: State<F>)
    requires TakenOnce(s)
    ensures Releasable(s)
  {
  }

  lemma StepTakesOnce<F>(cfg: Config, s: State<F>, step: Step<F>)
    requires FreeInv(cfg, s) && TakenOnce(s) && Coherent(cfg, s, step)
    ensures TakenOnce(Do(cfg, s, step))
  {
    hide Diff, Offset, Geometry.Index, Geometry.Valid, Holds, Home, Gather, Sum, Coherent, InSlice;
    hide DoReaderObtain, DoReaderRelease;
    match step
    case ReaderObtain(count, slice) => ObtainTakesOnce(cfg, s, count, slice);
    case ReaderRelease(count) => ReleaseTakesOnce(cfg, s, count);
    case _ =>
  }

  ghost predicate CoherentRun<F>(cfg: Config, s: State<F>, steps: seq<Step<F>>)
    requires FreeInv(cfg, s)
    decreases |steps|
  {
    steps == [] || (
      Coherent(cfg, s, steps[0]) && (
        FreeStepKeeps(cfg, s, steps[0]);
        CoherentRun(cfg, Do(cfg, s, steps[0]), steps[1..])))
  }

  lemma {:induction false} CoherentRunTakesOnce<F>(cfg: Config, s: State<F>, steps: seq<Step<F>>)
    requires FreeInv(cfg, s) && TakenOnce(s) && CoherentRun(cfg, s, steps)
    ensures AdmissibleRun(cfg, s, steps) && TakenOnce(FreeRun(cfg, s, steps))
    decreases |steps|
  {
    hide Do, FreeInv, TakenOnce, Admissible;
    if steps != [] {
      FreeShaped(cfg, s);
      FreeStepKeeps(cfg, s, steps[0]);
      StepTakesOnce(cfg, s, steps[0]);
      CoherentRunTakesOnce(cfg, Do(cfg, s, steps[0]), steps[1..]);
    }
  }

  lemma FreeShaped<F>(cfg: Config, s: State<F>)
    requires FreeInv(cfg, s)
    ensures Shaped(cfg, s)
  {
  }

  /** So the loss reported is exact: over whole runs it counts the frames passed but not taken. */
  lemma LossIsExact<F>(cfg: Config, s: State<F>, steps: seq<Step<F>>)
    requires !cfg.Throttles() && Initial(cfg, s)
    ensures FreeInv(cfg, s)
    ensures CoherentRun(cfg, s, steps) ==> AdmissibleRun(cfg, s, steps) && TakenOnce(FreeRun(cfg, s, steps))
  {
    hide Do, AdmissibleRun, CoherentRun, Geometry.Index, Geometry.Valid, Offset, FreeRun;
    InitialFreeInv(cfg, s);
    if CoherentRun(cfg, s, steps) {
      CoherentRunTakesOnce(cfg, s, steps);
    }
  }
}
