/**
 The FIFO's writer and reader objects (audio_utils/fifo.cpp), method by method. Each method
 is proved against the functions of module FifoProtocol, whose interleavings are studied
 there. What the other side does meanwhile enters as the values that successive loads of its
 index return, and as the outcome of each wait.
 */
module Fifo {
  import opened FifoIndex
  import opened FifoProtocol

  /** Number of times to retry a wait that fails because the index changed meanwhile. */
  const RETRIES: int := 2

  /** A null or zero timeout, a finite one, or one that the code turns into "for ever". */
  datatype Timeout = NonBlocking | Finite | Infinite

  datatype Sync = SingleThreaded | Sleep | Futex

  /** How one wait on the other side's index ends. */
  datatype Wake = Woken | WouldBlock | Interrupted | TimedOut

  datatype Errno = NoError | NotSupported | WaitResult | WouldBlockError | InterruptedError | TimedOutError | IoError | OverflowError

  datatype Outcome = Moved(count: nat) | Failed(error: Errno)

  /** The error of a wait that is not retried (lines 232-278 and 554-600). */
  function WaitError(sync: Sync, wake: Wake): (e: Errno)
    ensures e == NotSupported <==> sync == SingleThreaded
    ensures e == NoError <==> sync == Futex && wake == Woken
    ensures e == WouldBlockError <==> sync == Futex && wake == WouldBlock
    ensures e == InterruptedError <==> sync != SingleThreaded && wake == Interrupted
    ensures e == TimedOutError <==>
      (sync == Futex && wake == TimedOut) || (sync == Sleep && wake != Interrupted)
  {
    match sync
    case SingleThreaded => NotSupported
    case Sleep => if wake.Interrupted? then InterruptedError else TimedOutError
    case Futex =>
      match wake
      case Woken => NoError
      case WouldBlock => WouldBlockError
      case Interrupted => InterruptedError
      case TimedOut => TimedOutError
  }

  /** The wait behind load i is tried again: the index changed meanwhile, and not too often yet. */
  predicate Retried(sync: Sync, wake: Wake, i: nat) {
    sync.Futex? && wake.WouldBlock? && i < RETRIES
  }

  /** No wait follows load i: the one before it was not to be retried, or had used the timeout up. */
  predicate WaitedEnough(sync: Sync, patience: Timeout, wakes: nat -> Wake, i: nat) {
    patience.NonBlocking? || (i > 0 && (!Retried(sync, wakes(i - 1), i - 1) || (sync.Futex? && patience.Infinite?)))
  }

  /** The error that the waits left. */
  function Waited(sync: Sync, wakes: nat -> Wake, loaded: nat): Errno {
    if loaded == 0 then NoError
    else if Retried(sync, wakes(loaded - 1), loaded - 1) then WaitResult
    else WaitError(sync, wakes(loaded - 1))
  }

  /** What obtain returns: the frames available, or else the reason for which there are none. */
  function OutcomeOf(available: Available, waited: Errno): Outcome {
    match available
    case Overrun => Failed(OverflowError)
    case Io => Failed(IoError)
    case Frames(count) => if count > 0 || waited.NoError? then Moved(count) else Failed(waited)
  }

  /** What a reader's call depends on, and what it changes. */
  datatype ReaderView<F> = ReaderView(local: Reader, writerRear: uint32, throttleFront: uint32, shutdown: bool, buffer: seq<F>)

  /** obtain and release of all that is available: the view that is left, and the frames. */
  ghost function ReadBy<F>(cfg: Config, v: ReaderView<F>, rear: uint32, count: nat): (ReaderView<F>, seq<F>)
    requires cfg.geo.Valid() && |v.buffer| == cfg.geo.n && Offset(cfg.geo, v.local.front) < cfg.geo.n
  {
    FillIsBounded(cfg, v.shutdown, v.local, rear, count);
    var got := ReaderObtained(cfg, v.shutdown, v.local, rear, count, true);
    var shut := v.shutdown || Diff(cfg.geo, rear, v.local.front, cfg.flush).Corrupt?;
    if got.obtained == 0 then (v.(local := got, shutdown := shut), [])
    else
      var left := ReaderReleased(cfg, got, got.obtained);
      (v.(local := left,
          throttleFront := if cfg.Throttles() then left.front else v.throttleFront,
          shutdown := shut || (cfg.Throttles() && Diff(cfg.geo, v.writerRear, got.front, false).Corrupt?)),
       Gather(cfg.geo, v.buffer, got.front, got.obtained))
  }

  class Fifo<F> {
    const geo: Geometry
    const throttled: bool  // there is a throttle front, which one of the readers publishes
    const sync: Sync
    const buffer: array<F>
    var writerRear: uint32
    var throttleFront: uint32
    var isShutdown: bool

    constructor (frameCount: uint32, storage: array<F>, hasThrottleFront: bool, how: Sync)
      requires 0 < frameCount <= INT32_MAX && storage.Length == frameCount
      ensures Valid() && buffer == storage && geo.n == frameCount && throttled == hasThrottleFront
      ensures writerRear == throttleFront == 0 && !isShutdown
    {
      geo := NewGeometry(frameCount);
      throttled := hasThrottleFront;
      ConstructedIsValid(NewGeometry(frameCount));
      sync := how;
      buffer := storage;
      writerRear := 0;
      throttleFront := 0;
      isShutdown := false;
    }

    ghost predicate Valid() {
      geo.Valid() && buffer.Length == geo.n
    }
  }

  ghost function Overwritten<F>(buffer: seq<F>, at: nat, frames: seq<F>): (after: seq<F>)
    requires at + |frames| <= |buffer|
    ensures |after| == |buffer|
  {
    buffer[..at] + frames + buffer[at + |frames|..]
  }

  /** memcpy of frames into the buffer. */
  method CopyIn<F>(buffer: array<F>, at: nat, frames: seq<F>)
    requires at + |frames| <= buffer.Length
    modifies buffer
    ensures buffer[..] == Overwritten(old(buffer[..]), at, frames)
  {
    forall j | 0 <= j < |frames| {
      buffer[at + j] := frames[j];
    }
  }

  /** The two memcpy calls of write: every slot of the slice gets its frame, no other changes. */
  method CopySlice<F>(geo: Geometry, buffer: array<F>, ghost rear: uint32, slice: Slice, data: seq<F>)
    requires geo.Valid() && buffer.Length == geo.n && Offset(geo, rear) < geo.n && |data| <= geo.n
    requires slice == SliceAt(geo, rear, |data|)
    modifies buffer
    ensures Gather(geo, buffer[..], rear, |data|) == data
    ensures OutsideUnchanged(slice, old(buffer[..]), buffer[..])
  {
    hide Offset, Gather, OutsideUnchanged, SliceAt, Geometry.Valid, Overwritten;
    SliceFits(geo, rear, |data|);
    ghost var before := buffer[..];
    CopyIn(buffer, slice.offset, data[..slice.part1]);
    ghost var between := buffer[..];
    if slice.part2 > 0 {
      CopyIn(buffer, 0, data[slice.part1..]);
    }
    ghost var after := buffer[..];
    TwoCopies(slice, before, between, after, data);
    StoredSlice(geo, before, after, rear, data);
  }

  class FifoWriter<F> {
    const fifo: Fifo<F>
    var localRear: uint32
    var obtained: nat
    var effectiveFrames: nat
    var totalReleased: nat

    constructor (f: Fifo<F>)
      requires f.Valid()
      ensures fifo == f && Valid() && Local() == Writer(0, 0, f.geo.n, 0)
    {
      fifo := f;
      localRear, obtained, effectiveFrames, totalReleased := 0, 0, f.geo.n, 0;
      new;
      IndexOfZero(f.geo);
    }

    /** What the writer does depends on whether it is throttled, not on who throttles it. */
    function Cfg(): Config {
      Config(fifo.geo, if fifo.throttled then ByThisReader else Unthrottled, false)
    }

    ghost predicate Valid()
      reads this
    {
      && fifo.Valid() && obtained <= fifo.geo.n && effectiveFrames <= fifo.geo.n
      && Offset(fifo.geo, localRear) < fifo.geo.n
    }

    ghost function Local(): Writer
      reads this
    {
      Writer(localRear, obtained, effectiveFrames, totalReleased)
    }

    /** The loads before the last one found no room and were followed by a wait worth another load. */
    ghost predicate WriterWaits(
        shutdown: bool, w: Writer, count: nat, patience: Timeout, loads: nat -> uint32, wakes: nat -> Wake, last: nat)
      requires fifo.geo.Valid()
    {
      && (Room(Cfg(), shutdown, w, loads(last), count) == Frames(0) ==> count == 0 || WaitedEnough(fifo.sync, patience, wakes, last))
      && forall i: nat :: i < last ==>
           && count > 0 && !WaitedEnough(fifo.sync, patience, wakes, i)
           && Room(Cfg(), shutdown, w, loads(i), count) == Frames(0)
    }

    /** The loop of obtain: load the front until there is room, or waiting is over. The i-th
        load returns loads(i), the wait after it ends as wakes(i); last is the load decided on. */
    method AwaitRoom(count: nat, patience: Timeout, loads: nat -> uint32, wakes: nat -> Wake)
      returns (room: Available, err: Errno, last: nat)
      requires Valid() && fifo.throttled
      modifies fifo`isShutdown
      ensures last <= RETRIES + 1
      ensures room == Room(Cfg(), old(fifo.isShutdown), Local(), loads(last), count)
      ensures fifo.isShutdown == (old(fifo.isShutdown) || Diff(fifo.geo, localRear, loads(last), false).Corrupt?)
      ensures room.Overrun? <==> err == OverflowError
      ensures room.Io? <==> err == IoError
      ensures room.Frames? ==> err == Waited(fifo.sync, wakes, last)
      ensures WriterWaits(old(fifo.isShutdown), Local(), count, patience, loads, wakes, last)
    {
      hide Diff, Offset, Wrap, Geometry.Valid;
      var retries, timeout := RETRIES, patience;
      err, last := NoError, 0;
      while true
        invariant 0 <= retries && last + retries <= RETRIES + (if timeout.NonBlocking? then 1 else 0)
        invariant err == Waited(fifo.sync, wakes, last) && err != OverflowError && err != IoError
        invariant timeout.NonBlocking? <==> WaitedEnough(fifo.sync, patience, wakes, last)
        invariant !timeout.NonBlocking? ==> timeout == patience && retries == RETRIES - last
        invariant fifo.isShutdown == old(fifo.isShutdown)
        invariant forall i: nat :: i < last ==>
                    && count > 0 && !WaitedEnough(fifo.sync, patience, wakes, i)
                    && Room(Cfg(), old(fifo.isShutdown), Local(), loads(i), count) == Frames(0)
        decreases retries, if timeout.NonBlocking? then 0 else 1
      {
        if fifo.isShutdown {
          return Io, IoError, last;
        }
        var availToWrite: nat := 0;
        match Diff(fifo.geo, localRear, loads(last), false) {
          case Corrupt =>
            fifo.isShutdown := true;
            return Io, IoError, last;
          case Overflow(_) =>
            return Overrun, OverflowError, last;
          case Filled(filled) =>
            availToWrite := if effectiveFrames > filled then effectiveFrames - filled else 0;
        }
        if count == 0 || availToWrite > 0 || timeout.NonBlocking? {
          return Frames(Min(availToWrite, count)), err, last;
        }
        if fifo.sync.Futex? && timeout.Infinite? {
          timeout := NonBlocking;
        }
        if fifo.sync.Futex? && wakes(last).WouldBlock? && retries > 0 {
          err, retries := WaitResult, retries - 1;
        } else {
          err, timeout := WaitError(fifo.sync, wakes(last)), NonBlocking;
        }
        last := last + 1;
      }
    }

    method Obtain(count: nat, patience: Timeout, loads: nat -> uint32, wakes: nat -> Wake)
      returns (ret: Outcome, slice: Slice, last: nat)
      requires Valid()
      modifies this`obtained, fifo`isShutdown
      ensures Valid() && last <= RETRIES + 1
      ensures Local() == old(Local()).(obtained :=
        Room(Cfg(), old(fifo.isShutdown), old(Local()), loads(last), count).Count())
      ensures slice == SliceAt(fifo.geo, localRear, obtained)
      ensures fifo.isShutdown == (old(fifo.isShutdown)
        || (fifo.throttled && Diff(fifo.geo, localRear, loads(last), false).Corrupt?))
      ensures ret == OutcomeOf(Room(Cfg(), old(fifo.isShutdown), old(Local()), loads(last), count),
        if fifo.throttled then Waited(fifo.sync, wakes, last) else NoError)
      ensures !fifo.throttled ==> last == 0
      ensures fifo.throttled ==> WriterWaits(old(fifo.isShutdown), old(Local()), count, patience, loads, wakes, last)
    {
      hide Diff, Offset;
      var room, err;
      if fifo.throttled {
        room, err, last := AwaitRoom(count, patience, loads, wakes);
        assert WriterWaits(old(fifo.isShutdown), old(Local()), count, patience, loads, wakes, last);
      } else {
        last := 0;
        if fifo.isShutdown {
          room, err := Io, IoError;
        } else {
          room, err := Frames(Min(effectiveFrames, count)), NoError;
        }
      }
      obtained := room.Count();
      slice := SliceAt(fifo.geo, localRear, obtained);
      ret := if obtained > 0 then Moved(obtained) else if err.NoError? then Moved(0) else Failed(err);
    }

    method Release(count: nat)
      requires Valid()
      modifies this`localRear, this`obtained, this`totalReleased, fifo`writerRear, fifo`isShutdown
      ensures Valid()
      ensures count == 0 || count > old(obtained) ==> Local() == old(Local()) && fifo.writerRear == old(fifo.writerRear)
      ensures 0 < count <= old(obtained) ==>
        Local() == WriterReleased(Cfg(), old(Local()), count) && fifo.writerRear == localRear
      ensures fifo.isShutdown == (old(fifo.isShutdown) || count > old(obtained)
        || (0 < count && fifo.throttled && Diff(fifo.geo, old(localRear), fifo.throttleFront, false).Corrupt?))
    {
      hide Diff, Offset, Sum;
      if count > 0 {
        if count > obtained {
          fifo.isShutdown := true;
          return;
        }
        if fifo.throttled {
          var filled := Diff(fifo.geo, localRear, fifo.throttleFront, false);
          fifo.isShutdown := fifo.isShutdown || filled.Corrupt?;
        }
        SumKeepsOffset(fifo.geo, localRear, count);
        localRear := Sum(fifo.geo, localRear, count);
        fifo.writerRear := localRear;
        obtained := obtained - count;
        totalReleased := totalReleased + count;
      }
    }

    /** write: the frames taken in are those of the released slice, in order, and no other slot
        of the buffer changes. */
    method Write(data: seq<F>, patience: Timeout, loads: nat -> uint32, wakes: nat -> Wake)
      returns (ret: Outcome, last: nat)
      requires Valid()
      modifies this, fifo, fifo.buffer
      ensures Valid() && last <= RETRIES + 1
      ensures fifo.throttleFront == old(fifo.throttleFront)
      ensures
        var room := Room(Cfg(), old(fifo.isShutdown), old(Local()), loads(last), |data|);
        var k := room.Count();
        && k <= |data| && k <= fifo.geo.n && (k > 0 ==> ret == Moved(k))
        && ret == OutcomeOf(room, if fifo.throttled then Waited(fifo.sync, wakes, last) else NoError)
        && Local() == (if k == 0 then old(Local()).(obtained := 0)
                       else WriterReleased(Cfg(), old(Local()).(obtained := k), k))
        && (k > 0 ==> fifo.writerRear == localRear)
        && Gather(fifo.geo, fifo.buffer[..], old(localRear), k) == data[..k]
        && OutsideUnchanged(SliceAt(fifo.geo, old(localRear), k), old(fifo.buffer[..]), fifo.buffer[..])
        && (k == 0 ==> fifo.writerRear == old(fifo.writerRear))
        && fifo.isShutdown == (old(fifo.isShutdown)
             || (fifo.throttled && Diff(fifo.geo, old(localRear), loads(last), false).Corrupt?)
             || (k > 0 && fifo.throttled && Diff(fifo.geo, old(localRear), fifo.throttleFront, false).Corrupt?))
    {
      hide Diff, Offset, Sum, WriterReleased, Gather, OutsideUnchanged;
      var slice;
      ret, slice, last := Obtain(|data|, patience, loads, wakes);
      RoomIsBounded(Cfg(), old(fifo.isShutdown), old(Local()), loads(last), |data|);
      CopySlice(fifo.geo, fifo.buffer, localRear, slice, data[..obtained]);
      if ret.Moved? && ret.count > 0 {
        Release(ret.count);
      }
    }

    method Resize(frameCount: nat)
      requires Valid()
      modifies this`effectiveFrames
      ensures Valid()
      ensures Local() == old(Local()).(effective := Min(frameCount, fifo.geo.n))
    {
      effectiveFrames := if frameCount > fifo.geo.n then fifo.geo.n else frameCount;
    }
  }

  /** The two memcpy calls of read. */
  method CopyOut<F>(geo: Geometry, buffer: array<F>, ghost front: uint32, slice: Slice, ghost count: nat) returns (frames: seq<F>)
    requires geo.Valid() && buffer.Length == geo.n && Offset(geo, front) < geo.n && count <= geo.n
    requires slice == SliceAt(geo, front, count)
    ensures frames == Gather(geo, buffer[..], front, count)
  {
    hide Offset, Gather;
    SliceFits(geo, front, count);
    GatheredSlice(geo, buffer[..], front, count);
    frames := buffer[slice.offset..slice.offset + slice.part1];
    if slice.part2 > 0 {
      frames := frames + buffer[..slice.part2];
    }
  }

  class FifoReader<F> {
    const fifo: Fifo<F>
    const throttles: bool
    const flush: bool
    var localFront: uint32
    var obtained: nat
    var totalLost: int
    var totalReleased: int
    var totalFlushed: nat

    /** Only one reader of a FIFO should throttle its writer; any other sees what is written from now on. */
    constructor (f: Fifo<F>, throttlesWriter: bool, flushes: bool)
      requires f.Valid() && Offset(f.geo, f.writerRear) < f.geo.n
      ensures fifo == f && Valid() && Local() == Reader(if throttlesWriter then 0 else f.writerRear, 0, 0, 0)
      ensures throttles == (throttlesWriter && f.throttled) && flush == flushes && totalFlushed == 0
    {
      fifo, throttles, flush := f, throttlesWriter && f.throttled, flushes;
      localFront := if throttlesWriter then 0 else f.writerRear;
      obtained, totalLost, totalReleased, totalFlushed := 0, 0, 0, 0;
      new;
      IndexOfZero(f.geo);
    }

    function Cfg(): Config {
      Config(fifo.geo, if throttles then ByThisReader else if fifo.throttled then ByAnother else Unthrottled, flush)
    }

    ghost predicate Valid()
      reads this
    {
      && fifo.Valid() && obtained <= fifo.geo.n
      && Offset(fifo.geo, localFront) < fifo.geo.n
      && (throttles ==> fifo.throttled)
    }

    ghost function Local(): Reader
      reads this
    {
      Reader(localFront, obtained, totalLost, totalReleased)
    }

    /** The loads before the last one found nothing new and were followed by a wait worth another load. */
    ghost predicate ReaderWaits(
        front: uint32, count: nat, patience: Timeout, loads: nat -> uint32, wakes: nat -> Wake, last: nat)
    {
      && (loads(last) == front ==> count == 0 || WaitedEnough(fifo.sync, patience, wakes, last))
      && forall i: nat :: i < last ==> count > 0 && !WaitedEnough(fifo.sync, patience, wakes, i) && loads(i) == front
    }

    ghost function View(): ReaderView<F>
      reads this, fifo, fifo.buffer
    {
      ReaderView(Local(), fifo.writerRear, fifo.throttleFront, fifo.isShutdown, fifo.buffer[..])
    }

    /** The loop of obtain: load the rear until it differs from the front, or waiting is over. */
    method AwaitFrames(count: nat, patience: Timeout, loads: nat -> uint32, wakes: nat -> Wake)
      returns (rear: uint32, err: Errno, last: nat)
      ensures last <= RETRIES + 1 && rear == loads(last)
      ensures err == Waited(fifo.sync, wakes, last)
      ensures ReaderWaits(localFront, count, patience, loads, wakes, last)
    {
      var retries, timeout := RETRIES, patience;
      err, last := NoError, 0;
      while true
        invariant 0 <= retries && last + retries <= RETRIES + (if timeout.NonBlocking? then 1 else 0)
        invariant err == Waited(fifo.sync, wakes, last)
        invariant timeout.NonBlocking? <==> WaitedEnough(fifo.sync, patience, wakes, last)
        invariant !timeout.NonBlocking? ==> timeout == patience && retries == RETRIES - last
        invariant forall i: nat :: i < last ==>
                    count > 0 && !WaitedEnough(fifo.sync, patience, wakes, i) && loads(i) == localFront
        decreases retries, if timeout.NonBlocking? then 0 else 1
      {
        rear := loads(last);
        if count == 0 || rear != localFront || timeout.NonBlocking? {
          return;
        }
        if fifo.sync.Futex? && timeout.Infinite? {
          timeout := NonBlocking;
        }
        if fifo.sync.Futex? && wakes(last).WouldBlock? && retries > 0 {
          err, retries := WaitResult, retries - 1;
        } else {
          err, timeout := WaitError(fifo.sync, wakes(last)), NonBlocking;
        }
        last := last + 1;
      }
    }

    /** The second half of obtain: compare the rear loaded with the front, account for lost
        frames, and catch up with the writer if overrun. */
    method TakeStock(count: nat, rear: uint32) returns (fill: Available, lost: int)
      requires Valid()
      modifies this`localFront, this`totalLost, this`totalReleased, fifo`isShutdown
      ensures Valid()
      ensures fill == Fill(Cfg(), old(fifo.isShutdown), old(Local()), rear, count)
      ensures Local() == ReaderObtained(Cfg(), old(fifo.isShutdown), old(Local()), rear, count, false)
      ensures lost == totalLost - old(totalLost)
      ensures fifo.isShutdown == (old(fifo.isShutdown)
        || Diff(fifo.geo, rear, old(localFront), flush).Corrupt?)
    {
      hide Diff, Offset, Wrap, Geometry.Valid, Geometry.Index;
      lost := 0;
      if fifo.isShutdown {
        return Io, 0;
      }
      match Diff(fifo.geo, rear, localFront, flush) {
        case Corrupt =>
          fifo.isShutdown := true;
          fill := Io;
        case Overflow(missed) =>
          lost := missed;
          FillIsBounded(Cfg(), fifo.isShutdown, Local(), rear, count);
          BackKeepsOffset(fifo.geo, rear, flush);
          localFront := Wrap(rear - (if flush then 0 else fifo.geo.p2));
          fill := Overrun;
        case Filled(filled) =>
          fill := Frames(Min(filled, count));
      }
      totalLost := totalLost + lost;
      totalReleased := totalReleased + lost;
    }

    /** obtain, and available when keepSlice is false. An error leaves an empty slice. */
    method Obtain(count: nat, keepSlice: bool, patience: Timeout, loads: nat -> uint32, wakes: nat -> Wake)
      returns (ret: Outcome, slice: Slice, lost: int, last: nat)
      requires Valid()
      modifies this`obtained, this`localFront, this`totalLost, this`totalReleased, fifo`isShutdown
      ensures Valid() && last <= RETRIES + 1
      ensures Local() == ReaderObtained(Cfg(), old(fifo.isShutdown), old(Local()), loads(last), count, keepSlice)
      ensures lost == totalLost - old(totalLost)
      ensures fifo.isShutdown == (old(fifo.isShutdown)
        || Diff(fifo.geo, loads(last), old(localFront), flush).Corrupt?)
      ensures
        var fill := Fill(Cfg(), old(fifo.isShutdown), old(Local()), loads(last), count);
        && fill.Count() <= fifo.geo.n
        && slice == SliceAt(fifo.geo, localFront, fill.Count())
        && ret == OutcomeOf(fill, Waited(fifo.sync, wakes, last))
      ensures ReaderWaits(old(localFront), count, patience, loads, wakes, last)
    {
      hide Diff, Offset, Wrap, SliceAt;
      var rear, err, fill;
      rear, err, last := AwaitFrames(count, patience, loads, wakes);
      FillIsBounded(Cfg(), fifo.isShutdown, Local(), rear, count);
      fill, lost := TakeStock(count, rear);
      if fill.Overrun? {
        err := OverflowError;
      } else if fill.Io? {
        err := IoError;
      }
      var availToRead := fill.Count();
      slice := SliceAt(fifo.geo, localFront, availToRead);
      if keepSlice {
        obtained := availToRead;
      }
      ret := if availToRead > 0 then Moved(availToRead) else if err.NoError? then Moved(0) else Failed(err);
    }

    method Release(count: nat)
      requires Valid()
      modifies this`localFront, this`obtained, this`totalReleased, fifo`throttleFront, fifo`isShutdown
      ensures Valid()
      ensures count == 0 || count > old(obtained) ==> Local() == old(Local()) && fifo.throttleFront == old(fifo.throttleFront)
      ensures 0 < count <= old(obtained) ==>
        && Local() == ReaderReleased(Cfg(), old(Local()), count)
        && fifo.throttleFront == (if throttles then localFront else old(fifo.throttleFront))
      ensures fifo.isShutdown == (old(fifo.isShutdown) || count > old(obtained)
        || (0 < count && throttles && Diff(fifo.geo, fifo.writerRear, old(localFront), false).Corrupt?))
    {
      hide Diff, Offset, Sum;
      if count > 0 {
        if count > obtained {
          fifo.isShutdown := true;
          return;
        }
        SumKeepsOffset(fifo.geo, localFront, count);
        if throttles {
          var filled := Diff(fifo.geo, fifo.writerRear, localFront, false);
          fifo.isShutdown := fifo.isShutdown || filled.Corrupt?;
          localFront := Sum(fifo.geo, localFront, count);
          fifo.throttleFront := localFront;
        } else {
          localFront := Sum(fifo.geo, localFront, count);
        }
        obtained := obtained - count;
        totalReleased := totalReleased + count;
      }
    }

    /** read: the frames handed out are those of the slice, which is then released. */
    method Read(count: nat, patience: Timeout, loads: nat -> uint32, wakes: nat -> Wake)
      returns (ret: Outcome, frames: seq<F>, lost: int, last: nat)
      requires Valid()
      modifies this, fifo
      ensures Valid() && last <= RETRIES + 1 && ReaderWaits(old(localFront), count, patience, loads, wakes, last)
      ensures (View(), frames) == ReadBy(Cfg(), old(View()), loads(last), count)
      ensures frames != [] ==> fifo.throttleFront == if throttles then localFront else old(fifo.throttleFront)
      ensures ret == OutcomeOf(Fill(Cfg(), old(fifo.isShutdown), old(Local()), loads(last), count), Waited(fifo.sync, wakes, last))
      ensures |frames| <= count && (frames != [] ==> ret == Moved(|frames|)) && lost == totalLost - old(totalLost)
      ensures totalFlushed == old(totalFlushed)
    {
      hide Diff, Offset, Sum, Wrap, ReaderReleased, ReaderObtained, Fill, Gather, Geometry.Valid, Geometry.Index, SliceAt, ReaderWaits, Waited;
      var slice;
      ret, slice, lost, last := Obtain(count, true, patience, loads, wakes);
      FillIsBounded(Cfg(), old(fifo.isShutdown), old(Local()), loads(last), count);
      ObtainedIsFill(Cfg(), old(fifo.isShutdown), old(Local()), loads(last), count);
      frames := [];
      if ret.Moved? && ret.count > 0 {
        frames := CopyOut(fifo.geo, fifo.buffer, localFront, slice, obtained);
        Release(ret.count);
      }
    }

    /** flush: everything available is released unread, and counted as flushed. */
    method Flush(loads: nat -> uint32, wakes: nat -> Wake) returns (ret: Outcome, lost: int, last: nat)
      requires Valid()
      modifies this, fifo
      ensures Valid() && last == 0
      ensures View() == ReadBy(Cfg(), old(View()), loads(0), fifo.geo.n).0
      ensures ret == OutcomeOf(Fill(Cfg(), old(fifo.isShutdown), old(Local()), loads(0), fifo.geo.n), NoError)
      ensures totalFlushed == old(totalFlushed) + (if ret.Moved? then ret.count else 0) && lost == totalLost - old(totalLost)
    {
      hide Diff, Offset, Sum, Wrap, ReaderReleased, ReaderObtained, Fill, Gather, Geometry.Valid, Geometry.Index, SliceAt;
      var slice;
      ret, slice, lost, last := Obtain(fifo.geo.n, true, NonBlocking, loads, wakes);
      assert WaitedEnough(fifo.sync, NonBlocking, wakes, 0);
      FillIsBounded(Cfg(), old(fifo.isShutdown), old(Local()), loads(last), fifo.geo.n);
      ObtainedIsFill(Cfg(), old(fifo.isShutdown), old(Local()), loads(last), fifo.geo.n);
      if ret.Moved? && ret.count > 0 {
        var flushed := ret.count;
        Release(flushed);
        totalFlushed := totalFlushed + flushed;
      }
    }
  }

  // ---- lemmas for the methods

  lemma RoomIsBounded(cfg: Config, shutdown: bool, w: Writer, front: uint32, count: nat)
    requires cfg.geo.Valid() && w.effective <= cfg.geo.n
    ensures Room(cfg, shutdown, w, front, count).Count() <= Min(cfg.geo.n, count)
  {
    hide Diff;
  }

  lemma FillIsBounded(cfg: Config, shutdown: bool, r: Reader, rear: uint32, count: nat)
    requires cfg.geo.Valid()
    ensures Fill(cfg, shutdown, r, rear, count).Count() <= Min(cfg.geo.n, count)
    ensures Fill(cfg, shutdown, r, rear, count).Overrun? ==> Offset(cfg.geo, rear) < cfg.geo.n
  {
    hide Offset, Wrap, Geometry.Generations, Times;
  }

  lemma ObtainedIsFill(cfg: Config, shutdown: bool, r: Reader, rear: uint32, count: nat)
    requires cfg.geo.Valid()
    ensures ReaderObtained(cfg, shutdown, r, rear, count, true).obtained == Fill(cfg, shutdown, r, rear, count).Count()
  {
    hide Diff, Wrap, Fill;
  }

  // ---- the calls are steps of the protocol

  ghost function ViewOf<F>(s: State<F>): ReaderView<F> {
    ReaderView(s.reader, s.writerRear, s.throttleFront, s.shutdown, s.buffer)
  }

  /** A read, or a flush, is an obtain and a release in the protocol, and hands out what these consume. */
  lemma ReadIsProtocol<F>(cfg: Config, s: State<F>, count: nat)
    requires Aligned(cfg, s) && s.seenRear.Loaded?
    ensures
      var t := Do(cfg, s, ReaderObtain(count, true));
      && Shaped(cfg, t) && t.reader.obtained <= count
      && (var u := Do(cfg, t, ReaderRelease(t.reader.obtained));
          var (v, frames) := ReadBy(cfg, ViewOf(s), s.seenRear.index, count);
          ViewOf(u) == v && u.consumed == s.consumed + frames && |frames| == t.reader.obtained)
  {
    hide Diff, Offset, Wrap, Geometry.Index, Geometry.Valid, Holds, Home, Gather, Sum, ReaderReleased, Fill;
    var t := DoReaderObtain(cfg, s, count, true);
    FillIsBounded(cfg, s.shutdown, s.reader, s.seenRear.index, count);
    ObtainedIsFill(cfg, s.shutdown, s.reader, s.seenRear.index, count);
    FrontKeepsOffset(cfg, s, count);
    if t.reader.obtained > 0 {
      ObtainedInPlace(cfg, s, count);
      OffsetIsHome(cfg.geo, t.slice);
      assert t.copied == [] && s.consumed + ([] + InSlice(cfg, t, t.reader.obtained)) == s.consumed + InSlice(cfg, t, t.reader.obtained);
      assert Delivered(cfg, t, t.reader.obtained) == InSlice(cfg, t, t.reader.obtained);
    }
  }

  lemma FrontKeepsOffset<F>(cfg: Config, s: State<F>, count: nat)
    requires Aligned(cfg, s) && s.seenRear.Loaded?
    ensures Offset(cfg.geo, DoReaderObtain(cfg, s, count, true).reader.front) < cfg.geo.n
  {
    hide Diff, Offset, Wrap, Geometry.Index, Geometry.Valid;
    OffsetIsHome(cfg.geo, s.seenRear.count);
    BackKeepsOffset(cfg.geo, s.seenRear.index, cfg.flush);
  }

  /** If frames were obtained, the front stayed where it was. */
  lemma ObtainedInPlace<F>(cfg: Config, s: State<F>, count: nat)
    requires Aligned(cfg, s) && s.seenRear.Loaded? && DoReaderObtain(cfg, s, count, true).reader.obtained > 0
    ensures
      var t := DoReaderObtain(cfg, s, count, true);
      t.slice == t.front == s.front && t.reader.front == s.reader.front == cfg.geo.Index(t.slice)
  {
    hide Diff, Offset, Wrap, Geometry.Index, Geometry.Valid;
  }

  /** A write is an obtain, stores that fill the slice, and a release: it publishes just the frames it took. */
  lemma WriteIsProtocol<F>(cfg: Config, s: State<F>, data: seq<F>, buffer: seq<F>)
    requires Aligned(cfg, s) && (cfg.Throttled() ==> s.seenFront.Loaded?) && |buffer| == cfg.geo.n
    requires
      var k := Do(cfg, s, WriterObtain(|data|)).writer.obtained;
      k <= cfg.geo.n && k <= |data| && Gather(cfg.geo, buffer, s.writer.rear, k) == data[..k]
    ensures
      var t := Do(cfg, s, WriterObtain(|data|)).(buffer := buffer);
      var k := t.writer.obtained;
      && Shaped(cfg, t)
      && (var u := Do(cfg, t, WriterRelease(k));
          && u.written == s.written + data[..k]
          && u.writerRear == u.writer.rear && (k > 0 ==> u.writer == WriterReleased(cfg, t.writer, k)))
  {
    hide Diff, Offset, Wrap, Geometry.Index, Geometry.Valid, Gather, Sum;
  }

  ghost function GenerationOf(geo: Geometry, w: uint32): nat
    requires geo.Valid()
  {
    Divided(w, geo.p2);
    w / geo.p2
  }

  ghost function CounterOf(geo: Geometry, w: uint32): nat
    requires geo.Valid()
  {
    Times(GenerationOf(geo, w), geo.n) + Offset(geo, w)
  }

  lemma GenerationFits(geo: Geometry, w: uint32)
    requires geo.Valid()
    ensures GenerationOf(geo, w) < geo.Generations() && w == geo.Word(GenerationOf(geo, w), Offset(geo, w))
  {
    hide Geometry.Generations, Offset;
    SomeGeometry(geo);
    Divided(w, geo.p2);
    var g, m := GenerationOf(geo, w), geo.Generations();
    if g >= m {
      if g > m {
        TimesGrows(m, g, geo.p2);
      }
      assert false;
    }
  }

  /** Every word with a valid offset stands for some counter. */
  lemma WordIsIndex(geo: Geometry, w: uint32)
    requires geo.Valid() && Offset(geo, w) < geo.n
    ensures w == geo.Index(CounterOf(geo, w))
  {
    hide Geometry.Index, Geometry.Generations, Offset, GenerationOf, Times;
    SomeGeometry(geo);
    GenerationFits(geo, w);
    var g, o := GenerationOf(geo, w), Offset(geo, w);
    DivideIs(CounterOf(geo, w), geo.n, g, o);
    SmallRemainder(g, geo.Generations());
    IndexIs(geo, CounterOf(geo, w));
  }

  /** diff reports corruption exactly if one of the words stands for no counter. */
  lemma CorruptIff(geo: Geometry, rear: uint32, front: uint32, flush: bool)
    requires geo.Valid()
    ensures Diff(geo, rear, front, flush).Corrupt? <==>
      !((exists c: nat :: rear == geo.Index(c)) && (exists c: nat :: front == geo.Index(c)))
  {
    hide Geometry.Index, CounterOf, Offset, Wrap, Geometry.Valid;
    StandsForCounter(geo, rear);
    StandsForCounter(geo, front);
    AllOffsetsValid(geo, rear);
    AllOffsetsValid(geo, front);
    DiffCorrupt(geo, rear, front, flush);
  }

  lemma StandsForCounter(geo: Geometry, w: uint32)
    requires geo.Valid()
    ensures (exists c: nat :: w == geo.Index(c)) <==> Offset(geo, w) < geo.n
  {
    hide Geometry.Index, CounterOf, Offset, Geometry.Valid;
    if Offset(geo, w) < geo.n {
      WordIsIndex(geo, w);
    }
    if c: nat :| w == geo.Index(c) {
      OffsetIsHome(geo, c);
    }
  }

  /** Without wasted codes every word is valid. */
  lemma AllOffsetsValid(geo: Geometry, w: uint32)
    requires geo.Valid()
    ensures geo.fudge == 0 ==> Offset(geo, w) < geo.n
  {
    hide Geometry.Generations, Times;
  }

  lemma DiffCorrupt(geo: Geometry, rear: uint32, front: uint32, flush: bool)
    requires geo.Valid()
    ensures Diff(geo, rear, front, flush).Corrupt? <==> geo.fudge > 0 && (Offset(geo, rear) >= geo.n || Offset(geo, front) >= geo.n)
  {
    hide Offset, Wrap, Geometry.Valid;
  }

  lemma SmallRemainder(g: nat, m: nat)
    requires g < m
    ensures g % m == g
  {
    DivideIs(g, m, 0, g);
  }

  lemma SumKeepsOffset(geo: Geometry, w: uint32, count: nat)
    requires geo.Valid() && Offset(geo, w) < geo.n && count <= geo.n
    ensures Offset(geo, Sum(geo, w, count)) < geo.n
  {
    hide *;
    WordIsIndex(geo, w);
    SumExact(geo, CounterOf(geo, w), count);
    OffsetIsHome(geo, CounterOf(geo, w) + count);
  }

  lemma BackKeepsOffset(geo: Geometry, w: uint32, flush: bool)
    requires geo.Valid() && Offset(geo, w) < geo.n
    ensures Offset(geo, Wrap(w - (if flush then 0 else geo.p2))) < geo.n
  {
    hide Offset, Wrap, Times, GenerationOf, Geometry.Generations;
    SomeGeometry(geo);
    GenerationFits(geo, w);
    WrapSmall(w);
    var g, o, m := GenerationOf(geo, w), Offset(geo, w), geo.Generations();
    var before := if g == 0 then m - 1 else g - 1;
    PreviousWord(geo, before, o);
    OffsetOfWord(geo, before, o);
  }

  lemma SliceFits(geo: Geometry, w: uint32, k: nat)
    requires geo.Valid() && Offset(geo, w) < geo.n && k <= geo.n
    ensures
      var s := SliceAt(geo, w, k);
      && s.part1 + s.part2 == k && s.offset + s.part1 <= geo.n
      && s.part2 <= s.offset && (s.part2 > 0 ==> s.offset + s.part1 == geo.n)
  {
    hide Offset;
  }

  /** No position outside the slice changes. */
  ghost predicate OutsideUnchanged<F>(s: Slice, before: seq<F>, after: seq<F>) {
    && |before| == |after|
    && forall p: nat | p < |before| ::
         !(s.offset <= p < s.offset + s.part1) && !(p < s.part2) ==> after[p] == before[p]
  }

  /** Two copies fill a slice, the second one from the start of the buffer. */
  lemma StoredSlice<F>(geo: Geometry, before: seq<F>, after: seq<F>, w: uint32, data: seq<F>)
    requires geo.Valid() && Offset(geo, w) < geo.n && |data| <= geo.n && |before| == geo.n
    requires
      var s := SliceAt(geo, w, |data|);
      && s.part1 + s.part2 == |data| && s.offset + s.part1 <= geo.n && s.part2 <= s.offset
      && after == data[s.part1..] + before[s.part2..s.offset] + data[..s.part1] + before[s.offset + s.part1..]
    ensures |after| == geo.n && Gather(geo, after, w, |data|) == data
    ensures OutsideUnchanged(SliceAt(geo, w, |data|), before, after)
  {
    hide Offset, SliceAt;
  }

  lemma TwoCopies<F>(s: Slice, before: seq<F>, between: seq<F>, after: seq<F>, data: seq<F>)
    requires s.part1 + s.part2 == |data| && s.offset + s.part1 <= |before| && s.part2 <= s.offset
    requires between == Overwritten(before, s.offset, data[..s.part1])
    requires after == if s.part2 > 0 then Overwritten(between, 0, data[s.part1..]) else between
    ensures after == data[s.part1..] + before[s.part2..s.offset] + data[..s.part1] + before[s.offset + s.part1..]
  {
    assert between[s.part2..] == before[s.part2..s.offset] + data[..s.part1] + before[s.offset + s.part1..];
  }

  lemma GatheredSlice<F>(geo: Geometry, buffer: seq<F>, w: uint32, k: nat)
    requires geo.Valid() && Offset(geo, w) < geo.n && k <= geo.n && |buffer| == geo.n
    requires
      var s := SliceAt(geo, w, k);
      s.part1 + s.part2 == k && s.offset + s.part1 <= geo.n && s.part2 <= s.offset
    ensures
      var s := SliceAt(geo, w, k);
      Gather(geo, buffer, w, k) == buffer[s.offset..s.offset + s.part1] + buffer[..s.part2]
  {
    hide Offset, SliceAt, Geometry.Valid, Slice.Slot, Gather;
    var s, g := SliceAt(geo, w, k), Gather(geo, buffer, w, k);
    var parts := buffer[s.offset..s.offset + s.part1] + buffer[..s.part2];
    forall j: nat | j < k
      ensures g[j] == parts[j]
    {
      GatheredAt(geo, buffer, w, k, j);
    }
  }

  lemma GatheredAt<F>(geo: Geometry, buffer: seq<F>, w: uint32, k: nat, j: nat)
    requires geo.Valid() && Offset(geo, w) < geo.n && j < k <= geo.n && |buffer| == geo.n
    requires
      var s := SliceAt(geo, w, k);
      s.part1 + s.part2 == k && s.offset + s.part1 <= geo.n && s.part2 <= s.offset
    ensures
      var s := SliceAt(geo, w, k);
      Gather(geo, buffer, w, k)[j] == if j < s.part1 then buffer[s.offset + j] else buffer[j - s.part1]
  {
    hide Offset, SliceAt, Geometry.Valid;
  }
}
