/**
 E-AC-3 streams through the encoder of module SpdifSpec: frames are gathered until substream 0
 has six blocks, and its seventh block starts the next burst.
 */
module SpdifGroups {
  import opened SpdifSpec
  import opened SpdifStream
  import opened SpdifFraming

  // ---- the frames of an E-AC-3 stream

  predicate Enhanced(h: Header) {
    10 < Bsid(h) <= 16
  }

  function EnhancedBytes(h: Header): nat {
    var high: int, low: int := h[2] % 8, h[3];
    (high * 256 + low + 1) * 2
  }

  /** A valid header of a frame that goes into an E-AC-3 burst; a scanner made for E-AC-3 takes plain frames too. */
  predicate Heads(eac3: bool, h: Header) {
    if Enhanced(h) then EnhancedBytes(h) >= HEADER_LENGTH && (h[4] / 64 == 3 ==> h[4] / 16 % 4 < 3)
    else eac3 && PlainHeader(h)
  }

  function Size(h: Header): nat {
    if Enhanced(h) then EnhancedBytes(h) else if PlainHeader(h) then FrameBytes(h) else 0
  }

  /** The blocks that a frame adds to substream 0. */
  function BlocksOf(h: Header): (n: nat)
    ensures n <= 6
  {
    if !Enhanced(h) then 6
    else if h[2] / 64 != 0 && h[2] / 64 != 2 then 0
    else if h[2] / 8 % 8 != 0 then 0
    else if h[4] / 64 == 3 then 6
    else BlocksPerFrame(h[4] / 16 % 4)
  }

  /** The bitstream mode, for the frames of substream 0 that carry one. */
  function Mode(h: Header): uint8 {
    if !Enhanced(h) || (h[2] / 64 != 1 && h[2] / 8 % 8 == 0 && h[5] / 8 % 2 == 1) then h[5] % 8 else 0
  }

  predicate IsGroupFrame(eac3: bool, f: seq<uint8>) {
    |f| >= 6 && f[0] == SYNC1 && f[1] == SYNC2 && Heads(eac3, f[..6]) && |f| == Size(f[..6])
  }

  function Blocks(f: seq<uint8>): (n: nat)
    requires |f| >= 6
    ensures n <= 6
  {
    BlocksOf(f[..6])
  }

  // ---- one frame

  function EnhancedPreamble(h: Header): (p: seq<uint8>)
    ensures |p| == PREAMBLE_SIZE && p[..4] == SYNC_BYTES
  {
    [0xF8, 0x72, 0x4E, 0x1F, Mode(h), DATA_TYPE_EAC3, 0, 0]
  }

  /** The block count of substream 0 when the header has been read. */
  function CountWith(count: uint8, f: seq<uint8>): uint8
    requires |f| >= 6
  {
    var c: int := count;
    (c + Blocks(f)) % 256
  }

  /** The frame holds the seventh block. */
  predicate First(count: uint8, f: seq<uint8>)
    requires |f| >= 6
  {
    Blocks(f) > 0 && CountWith(count, f) > 6
  }

  /** What the buffer holds behind a frame; an overflow drops what was there, and then the rest of the frame is kept. */
  function Filled(burst: seq<uint8>, first: bool, f: seq<uint8>): seq<uint8>
    requires |f| >= 6
  {
    if burst == [] || first then EnhancedPreamble(f[..6]) + f
    else if |burst| + HEADER_LENGTH > BUFFER_BYTES then f[6..]
    else if |burst| + |f| > BUFFER_BYTES then []
    else burst + f
  }

  /** The burst that goes out, its length in bytes set. */
  function Flushed(burst: seq<uint8>): seq<seq<uint16>>
    requires |burst| <= BUFFER_BYTES
  {
    if |burst| <= PREAMBLE_SIZE then []
    else
      var n: uint16 := |burst| - PREAMBLE_SIZE;
      [Packed(burst[6 := High(n)][7 := Low(n)], 12288)]
  }

  /** Between two frames of a burst. A frame that is a header alone is left when the next byte is seen. */
  predicate Gap(e: Encoder) {
    && e.framer.cursor == 0 && |e.burst| <= BUFFER_BYTES
    && (e.scanning || (e.pending == 0 && e.framer.dataType == DATA_TYPE_EAC3))
  }

  /** e' is the encoder behind the frame f. */
  predicate FrameStep(e: Encoder, f: seq<uint8>, e': Encoder)
    requires |e.burst| <= BUFFER_BYTES && |f| >= 6
  {
    var flush := e.burst != [] && First(e.framer.counts[0], f);
    var count := CountWith(e.framer.counts[0], f);
    && Gap(e') && e'.framer.eac3 == e.framer.eac3
    && e'.framer.counts[0] == (if flush then ResetCount(count) else count)
    && e'.out == e.out + (if flush then Flushed(e.burst) else [])
    && e'.burst == Filled(e.burst, flush, f)
  }

  predicate FrameFits(e: Encoder, f: seq<uint8>)
    requires |f| >= 6
  {
    e.burst == [] || First(e.framer.counts[0], f) || |e.burst| + |f| <= BUFFER_BYTES
  }

  /** Not even the header fits, and more of the frame is to come. */
  predicate FrameLost(e: Encoder, f: seq<uint8>)
    requires |f| >= 6
  {
    e.burst != [] && !First(e.framer.counts[0], f) && |e.burst| + HEADER_LENGTH > BUFFER_BYTES && |f| > HEADER_LENGTH
  }

  lemma HeaderParsed(f: Framer)
    requires Heads(f.eac3, f.header)
    ensures ParseHeader(f).1
    ensures
      var p := ParseHeader(f).0;
      && p.dataType == DATA_TYPE_EAC3 && p.dataTypeInfo == Mode(f.header) && p.rateMultiplier == EAC3_RATE_MULTIPLIER
      && p.frameSize == Size(f.header) && p.header == f.header && p.eac3 == f.eac3 && p.cursor == f.cursor
      && p.counts[0] == (f.counts[0] as int + BlocksOf(f.header)) % 256
      && (IsFirstInBurst(p) <==> BlocksOf(f.header) > 0 && p.counts[0] > MAX_BLOCKS)
  {
    hide FrameWords;
  }

  lemma HeaderRun(e: Encoder, s: seq<uint8>)
    requires AtGap(e) && |s| >= 6 && Synced(s, 2)
    ensures SameRun(e, s, HeaderStep(e, s[..6]), s[6..])
  {
    hide Encode, CutSafe, ScanStep, HeaderStep;
    EncodeGathers(e, s, 5);
    EncodeOne(Gathered(e, s, 5), s[5..]);
    assert s[5..][1..] == s[6..];
    HeaderComplete(e, s);
  }

  /** The framer when the header h has been read. */
  function FramerWith(e: Encoder, h: Header): Framer {
    ParseHeader(e.framer.(cursor := 6, header := h)).0.(cursor := 0)
  }

  predicate HasRoom(e: Encoder, h: Header) {
    e.burst == [] || IsFirstInBurst(FramerWith(e, h)) || Fits(e, HEADER_LENGTH)
  }

  lemma HeaderRoom(e: Encoder, s: seq<uint8>)
    requires AtGap(e) && |s| >= 6 && Heads(e.framer.eac3, s[..6])
    ensures HeaderFits(Gathered(e, s, 5), s[5]) <==> HasRoom(e, s[..6])
  {
    hide ParseHeader, IsFirstInBurst, Heads;
    var h := e.framer.header;
    assert (s[..5] + h[5..])[5 := s[5]] == s[..6];
    HeaderParsed(e.framer.(cursor := 6, header := s[..6]));
  }

  lemma HeaderFit(e: Encoder, s: seq<uint8>)
    requires AtGap(e) && |s| >= 6 && Synced(s, 2) && Heads(e.framer.eac3, s[..6])
    ensures
      var e' := HeaderStep(e, s[..6]);
      && Fitting(e, s) == (HasRoom(e, s[..6]) && Fitting(e', s[6..]))
      && Clean(e, s) == ((HasRoom(e, s[..6]) || !Adrift(e')) && Clean(e', s[6..]))
  {
    hide ScanStep, HeaderStep, HeaderFits, Adrift, HasRoom, Heads;
    GatherFits(e, s, 5);
    HeaderRoom(e, s);
    HeaderComplete(e, s);
    assert s[5..][0] == s[5] && s[5..][1..] == s[6..];
  }

  /** What the buffer holds when the header has been written. */
  function Begun(burst: seq<uint8>, first: bool, h: Header): seq<uint8> {
    if burst == [] || first then EnhancedPreamble(h) + h
    else if |burst| + HEADER_LENGTH > BUFFER_BYTES then [] else burst + h
  }

  predicate Room(e: Encoder, f: seq<uint8>)
    requires |f| >= 6
  {
    e.burst == [] || First(e.framer.counts[0], f) || |e.burst| + HEADER_LENGTH <= BUFFER_BYTES
  }

  /** e' is the encoder when the header of f has been written. */
  predicate HeaderStepped(e: Encoder, f: seq<uint8>, e': Encoder)
    requires |e.burst| <= BUFFER_BYTES && |f| >= 6
  {
    var first, count := First(e.framer.counts[0], f), CountWith(e.framer.counts[0], f);
    && !e'.scanning && e'.pending == |f| - 6 && e'.framer.cursor == 0 && e'.framer.eac3 == e.framer.eac3
    && e'.framer.dataType == DATA_TYPE_EAC3
    && e'.framer.counts[0] == (if e.burst != [] && first then ResetCount(count) else count)
    && e'.out == e.out + (if e.burst != [] && first then Flushed(e.burst) else [])
    && e'.burst == Begun(e.burst, first, f[..6])
  }

  lemma HeaderEnd(e: Encoder, f: seq<uint8>)
    requires AtGap(e) && |e.burst| <= BUFFER_BYTES && IsGroupFrame(e.framer.eac3, f)
    ensures HeaderStepped(e, f, HeaderStep(e, f[..6]))
    ensures HasRoom(e, f[..6]) == Room(e, f)
  {
    hide ParseHeader, IsFirstInBurst, Flush, Packed;
    var h := f[..6];
    var g := e.framer.(cursor := 6, header := h);
    HeaderParsed(g);
    FirstParsed(e, f);
    var p := FramerWith(e, h);
    var e0 := e.(framer := p);
    EnhancedStart(e0.(burst := []), h);
    if e.burst != [] && IsFirstInBurst(p) {
      EnhancedFlush(e0);
      EnhancedStart(Flush(e0), h);
    }
  }

  lemma FirstParsed(e: Encoder, f: seq<uint8>)
    requires |f| >= 6 && Heads(e.framer.eac3, f[..6])
    ensures First(e.framer.counts[0], f) == IsFirstInBurst(FramerWith(e, f[..6]))
  {
    hide ParseHeader, Heads, BlocksOf;
    HeaderParsed(e.framer.(cursor := 6, header := f[..6]));
  }

  lemma EnhancedStart(e: Encoder, h: Header)
    requires e.burst == [] && e.framer.dataType == DATA_TYPE_EAC3 && e.framer.dataTypeInfo == Mode(h)
    ensures WriteBytes(StartBurst(e), h) == e.(burst := EnhancedPreamble(h) + h)
  {
    hide Mode;
    var mode: int := e.framer.dataTypeInfo;
    assert (mode * 256 + 21) / 256 == mode && (mode * 256 + 21) % 256 == 21;
    assert [] + EnhancedPreamble(h) == EnhancedPreamble(h);
  }

  lemma EnhancedFlush(e: Encoder)
    requires |e.burst| <= BUFFER_BYTES && e.framer.dataType == DATA_TYPE_EAC3 && e.framer.rateMultiplier == 4
    ensures Flush(e) == e.(burst := [], framer := ResetBurst(e.framer), pending := 0, scanning := true, out := e.out + Flushed(e.burst))
  {
    hide ResetBurst, Packed;
  }

  lemma PayloadEnd(e: Encoder, chunk: seq<uint8>)
    requires !e.scanning && e.pending == |chunk| && e.framer.dataType == DATA_TYPE_EAC3
    ensures PayloadStep(e, chunk) == WriteBytes(e, chunk).(pending := 0, scanning := true)
    ensures !Adrift(PayloadStep(e, chunk))
  {
  }

  lemma PayloadFit(e: Encoder, s: seq<uint8>)
    requires !e.scanning && s != [] && e.pending <= |s| && e.framer.dataType == DATA_TYPE_EAC3
    ensures
      var e' := PayloadStep(e, s[..e.pending]);
      && Fitting(e, s) == (Fits(e, e.pending) && Fitting(e', s[e.pending..])) && Clean(e, s) == Clean(e', s[e.pending..])
  {
    hide PayloadStep, Adrift, Fits, ScanStep, HeaderFits, Clean, Fitting;
    PayloadEnd(e, s[..e.pending]);
    PayloadFitting(e, s);
    PayloadClean(e, s);
  }

  lemma PayloadFitting(e: Encoder, s: seq<uint8>)
    requires !e.scanning && s != [] && e.pending <= |s|
    ensures Fitting(e, s) == (Fits(e, e.pending) && Fitting(PayloadStep(e, s[..e.pending]), s[e.pending..]))
  {
    hide PayloadStep, Fits, ScanStep, HeaderFits;
  }

  lemma PayloadClean(e: Encoder, s: seq<uint8>)
    requires !e.scanning && s != [] && e.pending <= |s| && !Adrift(PayloadStep(e, s[..e.pending]))
    ensures Clean(e, s) == Clean(PayloadStep(e, s[..e.pending]), s[e.pending..])
  {
    hide PayloadStep, Fits, ScanStep, HeaderFits, Adrift;
  }

  /** The end of a frame that is a header alone. */
  lemma Resume(e: Encoder, s: seq<uint8>)
    requires Gap(e) && s != []
    ensures SameRun(e, s, e.(scanning := true), s) && SameFit(e, s, e.(scanning := true), s)
    ensures !e.scanning ==> e.(scanning := true) == PayloadStep(e, [])
  {
    if !e.scanning {
      PayloadEnd(e, []);
      hide PayloadStep;
      assert s[..0] == [] && s[0..] == s && e.burst + [] == e.burst;
      EncodePayload(e, s);
      PayloadFit(e, s);
    }
  }

  lemma SizeBound(eac3: bool, f: seq<uint8>)
    requires IsGroupFrame(eac3, f)
    ensures |f| <= 4096
  {
  }

  lemma FilledFrom(e: Encoder, f: seq<uint8>, begun: seq<uint8>)
    requires |e.burst| <= BUFFER_BYTES && 6 <= |f| <= 4096
    requires begun == Begun(e.burst, First(e.framer.counts[0], f), f[..6])
    ensures Filled(e.burst, First(e.framer.counts[0], f), f) == if |begun| + |f| - 6 > BUFFER_BYTES then [] else begun + f[6..]
    ensures FrameFits(e, f) == (Room(e, f) && |begun| + |f| - 6 <= BUFFER_BYTES)
  {
    hide First, EnhancedPreamble;
    assert f == f[..6] + f[6..];
    assert (EnhancedPreamble(f[..6]) + f[..6]) + f[6..] == EnhancedPreamble(f[..6]) + f;
    assert (e.burst + f[..6]) + f[6..] == e.burst + f;
    assert [] + f[6..] == f[6..];
  }

  lemma HeaderAdrift(e: Encoder)
    requires !e.scanning && e.framer.dataType == DATA_TYPE_EAC3
    ensures Adrift(e) == (e.pending > 0)
  {
  }

  lemma BehindHeader(e: Encoder, f: seq<uint8>, e1: Encoder)
    requires |e.burst| <= BUFFER_BYTES && IsGroupFrame(e.framer.eac3, f) && HeaderStepped(e, f, e1)
    ensures !e1.scanning && e1.pending == |f[6..]| && e1.framer.dataType == DATA_TYPE_EAC3 && |e1.burst| <= BUFFER_BYTES
    ensures (Room(e, f) || !Adrift(e1)) == !FrameLost(e, f)
    ensures (Room(e, f) && Fits(e1, |f| - 6)) == FrameFits(e, f)
  {
    hide First, CountWith, Heads, Flushed, EnhancedPreamble;
    SizeBound(e.framer.eac3, f);
    FilledFrom(e, f, e1.burst);
    HeaderAdrift(e1);
  }

  /** e' is e when the payload has been written. */
  predicate PayloadStepped(e: Encoder, payload: seq<uint8>, e': Encoder) {
    && e'.framer == e.framer && e'.out == e.out && (e'.scanning || e'.pending == 0)
    && e'.burst == if Fits(e, |payload|) then e.burst + payload else []
  }

  lemma FrameStepped(e: Encoder, f: seq<uint8>, e1: Encoder, e': Encoder)
    requires |e.burst| <= BUFFER_BYTES && IsGroupFrame(e.framer.eac3, f)
    requires HeaderStepped(e, f, e1) && PayloadStepped(e1, f[6..], e')
    ensures FrameStep(e, f, e')
  {
    hide First, CountWith, Heads, Flushed, EnhancedPreamble, FrameFits;
    SizeBound(e.framer.eac3, f);
    FilledFrom(e, f, e1.burst);
  }

  /** The payload of a frame through the encoder. */
  lemma PayloadRun(e: Encoder, payload: seq<uint8>, rest: seq<uint8>) returns (e': Encoder)
    requires !e.scanning && e.pending == |payload| && e.framer.dataType == DATA_TYPE_EAC3
    requires |e.burst| <= BUFFER_BYTES
    ensures SameRun(e, payload + rest, e', rest)
    ensures PayloadStepped(e, payload, e')
    ensures Fitting(e, payload + rest) == (Fits(e, |payload|) && Fitting(e', rest))
    ensures Clean(e, payload + rest) == Clean(e', rest)
  {
    hide Encode, CutSafe, Fitting, Clean, PayloadStep;
    if payload == [] {
      e' := e;
      assert payload + rest == rest && e.burst + payload == e.burst;
    } else {
      var s := payload + rest;
      assert s[..|payload|] == payload && s[|payload|..] == rest;
      EncodePayload(e, s);
      PayloadFit(e, s);
      PayloadEnd(e, payload);
      e' := PayloadStep(e, payload);
    }
  }

  lemma GroupFrameParts(eac3: bool, f: seq<uint8>, rest: seq<uint8>)
    requires IsGroupFrame(eac3, f)
    ensures |f| >= 6 && Synced(f + rest, 2) && Heads(eac3, f[..6])
    ensures (f + rest)[..6] == f[..6] && (f + rest)[6..] == f[6..] + rest
  {
    hide Heads, Size;
  }

  lemma ScanningAside(e: Encoder, f: seq<uint8>, e': Encoder)
    requires |e.burst| <= BUFFER_BYTES && |f| >= 6
    ensures var o := e.(scanning := true);
      && FrameStep(o, f, e') == FrameStep(e, f, e') && FrameFits(o, f) == FrameFits(e, f) && FrameLost(o, f) == FrameLost(e, f)
  {
    hide First, CountWith, Flushed, Filled;
  }

  /** One frame through the encoder, in one write with what follows. */
  lemma FrameRun(e: Encoder, f: seq<uint8>, rest: seq<uint8>) returns (e': Encoder)
    requires Gap(e) && IsGroupFrame(e.framer.eac3, f)
    ensures FrameStep(e, f, e') && SameRun(e, f + rest, e', rest)
    ensures Fitting(e, f + rest) == (FrameFits(e, f) && Fitting(e', rest))
    ensures Clean(e, f + rest) == (!FrameLost(e, f) && Clean(e', rest))
  {
    hide Encode, CutSafe, Fitting, Clean, HeaderStep, HeaderStepped, PayloadStepped, FrameStep, IsGroupFrame,
      HasRoom, Room, FrameFits, FrameLost, Adrift, Heads, Fits;
    GroupFrameParts(e.framer.eac3, f, rest);
    var s, o, h := f + rest, e.(scanning := true), f[..6];
    Resume(e, s);
    HeaderRun(o, s);
    HeaderFit(o, s);
    HeaderEnd(o, f);
    var e1 := HeaderStep(o, h);
    BehindHeader(o, f, e1);
    e' := PayloadRun(e1, f[6..], rest);
    FrameStepped(o, f, e1, e');
    ScanningAside(e, f, e');
  }

  // ---- runs of frames: the sizes decide what overflows

  ghost predicate GroupFrames(eac3: bool, fs: seq<seq<uint8>>) {
    forall i: nat :: i < |fs| ==> IsGroupFrame(eac3, fs[i])
  }

  /** How full the buffer is, the blocks of substream 0, and whether all writes fit or all overflows were harmless. */
  datatype Fill = Fill(level: nat, count: uint8, fits: bool, clean: bool)

  function Poured(s: Fill, f: seq<uint8>): Fill
    requires |f| >= 6
  {
    var count := CountWith(s.count, f);
    if s.level == 0 then Fill(PREAMBLE_SIZE + |f|, count, s.fits, s.clean)
    else if First(s.count, f) then Fill(PREAMBLE_SIZE + |f|, ResetCount(count), s.fits, s.clean)
    else if s.level + HEADER_LENGTH > BUFFER_BYTES then Fill(|f| - HEADER_LENGTH, count, false, s.clean && |f| == HEADER_LENGTH)
    else if s.level + |f| > BUFFER_BYTES then Fill(0, count, false, s.clean)
    else Fill(s.level + |f|, count, s.fits, s.clean)
  }

  /** The frames fs on top of s: only their sizes and their blocks matter. */
  function Filling(s: Fill, fs: seq<seq<uint8>>): Fill
    requires forall i: nat :: i < |fs| ==> |fs[i]| >= 6
  {
    if fs == [] then s else Poured(Filling(s, fs[..|fs| - 1]), fs[|fs| - 1])
  }

  function FillOf(e: Encoder): Fill {
    Fill(|e.burst|, e.framer.counts[0], true, true)
  }

  lemma PouredRun(e: Encoder, f: seq<uint8>, e': Encoder, s: Fill)
    requires |e.burst| <= BUFFER_BYTES && |f| >= 6 && FrameStep(e, f, e') && s.level == |e.burst| && s.count == e.framer.counts[0]
    ensures
      var t := Poured(s, f);
      && t.level == |e'.burst| && t.count == e'.framer.counts[0]
      && t.fits == (s.fits && FrameFits(e, f)) && t.clean == (s.clean && !FrameLost(e, f))
  {
    hide First, CountWith, Flushed;
  }

  lemma {:induction false} FillRun(e: Encoder, fs: seq<seq<uint8>>, rest: seq<uint8>) returns (e': Encoder)
    requires Gap(e) && GroupFrames(e.framer.eac3, fs)
    ensures Gap(e') && e'.framer.eac3 == e.framer.eac3 && SameRun(e, Concat(fs) + rest, e', rest)
    ensures forall i: nat :: i < |fs| ==> |fs[i]| >= 6
    ensures
      var s := Filling(FillOf(e), fs);
      && s.level == |e'.burst| && s.count == e'.framer.counts[0]
      && Fitting(e, Concat(fs) + rest) == (s.fits && Fitting(e', rest))
      && Clean(e, Concat(fs) + rest) == (s.clean && Clean(e', rest))
    decreases |fs|
  {
    hide Encode, CutSafe, Fitting, Clean, Poured, FrameFits, FrameLost, IsGroupFrame;
    FramesLong(e.framer.eac3, fs);
    if fs == [] {
      e' := e;
      assert Concat(fs) + rest == rest;
    } else {
      var before, f := fs[..|fs| - 1], fs[|fs| - 1];
      assert Concat(fs) + rest == Concat(before) + (f + rest);
      var e1 := FillRun(e, before, f + rest);
      e' := FrameRun(e1, f, rest);
      StepGap(e1, f, e');
      PouredRun(e1, f, e', Filling(FillOf(e), before));
    }
  }

  lemma FramesLong(eac3: bool, fs: seq<seq<uint8>>)
    requires GroupFrames(eac3, fs)
    ensures forall i: nat :: i < |fs| ==> |fs[i]| >= 6
  {
    hide Heads;
    assert forall i: nat :: i < |fs| && IsGroupFrame(eac3, fs[i]) ==> |fs[i]| >= 6;
  }

  lemma StepGap(e: Encoder, f: seq<uint8>, e': Encoder)
    requires |e.burst| <= BUFFER_BYTES && |f| >= 6 && FrameStep(e, f, e')
    ensures Gap(e') && e'.framer.eac3 == e.framer.eac3
  {
    hide First, CountWith, Flushed, Filled;
  }

  // ---- groups: the frames of one burst

  datatype Groups = Groups(closed: seq<seq<seq<uint8>>>, open: seq<seq<uint8>>, count: nat)

  /** A frame that takes substream 0 beyond six blocks begins a new group. */
  function Grouped(fs: seq<seq<uint8>>): (g: Groups)
    requires forall i: nat :: i < |fs| ==> |fs[i]| >= 6
    ensures g.count <= 6 && (fs != [] ==> g.open != []) && (g.open == [] ==> g.count == 0)
  {
    if fs == [] then Groups([], [], 0) else GroupedWith(Grouped(fs[..|fs| - 1]), fs[|fs| - 1])
  }

  function GroupedWith(g: Groups, f: seq<uint8>): Groups
    requires |f| >= 6
  {
    if g.count + Blocks(f) > 6 then Groups(g.closed + [g.open], [f], g.count + Blocks(f) - 6)
    else Groups(g.closed, g.open + [f], g.count + Blocks(f))
  }

  function TotalBlocks(fs: seq<seq<uint8>>): nat
    requires forall i: nat :: i < |fs| ==> |fs[i]| >= 6
  {
    if fs == [] then 0 else TotalBlocks(fs[..|fs| - 1]) + Blocks(fs[|fs| - 1])
  }

  /** A burst ends with every sixth block, as soon as there is another one. */
  lemma {:induction false} BlocksOfGroups(fs: seq<seq<uint8>>)
    requires forall i: nat :: i < |fs| ==> |fs[i]| >= 6
    ensures Grouped(fs).count + 6 * |Grouped(fs).closed| == TotalBlocks(fs)
    ensures TotalBlocks(fs) > 0 ==> Grouped(fs).count > 0
    decreases |fs|
  {
    hide Blocks;
    if fs != [] {
      BlocksOfGroups(fs[..|fs| - 1]);
    }
  }

  /** Nothing is lost or moved: the groups are the frames, in order. */
  lemma {:induction false} GroupsKeep(fs: seq<seq<uint8>>)
    requires forall i: nat :: i < |fs| ==> |fs[i]| >= 6
    ensures Concat(Payloads(Grouped(fs).closed)) + Concat(Grouped(fs).open) == Concat(fs)
    decreases |fs|
  {
    hide GroupedWith;
    if fs == [] {
      assert Payloads([]) == [];
    } else {
      GroupsKeep(fs[..|fs| - 1]);
      GroupedKeeps(Grouped(fs[..|fs| - 1]), fs[|fs| - 1]);
    }
  }

  lemma GroupedKeeps(g: Groups, f: seq<uint8>)
    requires |f| >= 6
    ensures
      var g' := GroupedWith(g, f);
      Concat(Payloads(g'.closed)) + Concat(g'.open) == Concat(Payloads(g.closed)) + Concat(g.open) + f
  {
    hide Blocks, Concat;
    ConcatOne(g.open, f);
    ConcatSingle(f);
    ConcatOne(Payloads(g.closed), Concat(g.open));
    assert Payloads(g.closed + [g.open]) == Payloads(g.closed) + [Concat(g.open)];
  }

  lemma ConcatOne(fs: seq<seq<uint8>>, f: seq<uint8>)
    ensures Concat(fs + [f]) == Concat(fs) + f
  {
    assert (fs + [f])[..|fs|] == fs;
  }

  lemma ConcatSingle(f: seq<uint8>)
    ensures Concat([f]) == f && Concat([]) == []
  {
    assert [f][..0] == [];
  }

  function Payloads(groups: seq<seq<seq<uint8>>>): seq<seq<uint8>> {
    seq(|groups|, i requires 0 <= i < |groups| => Concat(groups[i]))
  }

  predicate GroupFits(g: seq<seq<uint8>>) {
    PREAMBLE_SIZE + |Concat(g)| <= BUFFER_BYTES
  }

  ghost predicate GroupsFit(g: Groups) {
    (forall i: nat :: i < |g.closed| ==> GroupFits(g.closed[i])) && GroupFits(g.open)
  }

  ghost predicate FillsGroups(s: Fill, g: Groups) {
    && s.fits == GroupsFit(g)
    && (s.fits ==> s.count == g.count && s.level == if g.open == [] then 0 else PREAMBLE_SIZE + |Concat(g.open)|)
  }

  /** No write overflows exactly if every group fits into the buffer with its preamble. */
  lemma {:induction false} FillingOfGroups(fs: seq<seq<uint8>>)
    requires forall i: nat :: i < |fs| ==> 6 <= |fs[i]| <= 4096
    ensures FillsGroups(Filling(Fill(0, 0, true, true), fs), Grouped(fs))
    decreases |fs|
  {
    hide Poured, GroupedWith, Blocks;
    if fs == [] {
      assert GroupFits([]);
    } else {
      FillingOfGroups(fs[..|fs| - 1]);
      FillingOfGroup(Filling(Fill(0, 0, true, true), fs[..|fs| - 1]), Grouped(fs[..|fs| - 1]), fs[|fs| - 1]);
    }
  }

  lemma FillingOfGroup(s: Fill, g: Groups, f: seq<uint8>)
    requires FillsGroups(s, g) && g.count <= 6 && (g.open == [] ==> g.count == 0) && 6 <= |f| <= 4096
    ensures FillsGroups(Poured(s, f), GroupedWith(g, f))
  {
    hide Blocks, GroupsFit, Concat;
    ConcatOne(g.open, f);
    ConcatSingle(f);
    if g.count + Blocks(f) > 6 {
      FitsClosed(g, f, g.count + Blocks(f) - 6);
    } else {
      FitsOpen(g, f, g.count + Blocks(f));
    }
  }

  lemma FitsClosed(g: Groups, f: seq<uint8>, count: nat)
    requires |f| <= 4096
    ensures GroupsFit(Groups(g.closed + [g.open], [f], count)) == GroupsFit(g)
  {
    hide Concat;
    ConcatSingle(f);
    var closed := g.closed + [g.open];
    assert closed[|g.closed|] == g.open;
    assert forall i: nat :: i < |g.closed| ==> closed[i] == g.closed[i];
  }

  lemma FitsOpen(g: Groups, f: seq<uint8>, count: nat)
    ensures GroupsFit(Groups(g.closed, g.open + [f], count)) == (GroupsFit(g) && GroupFits(g.open + [f]))
  {
    hide Concat;
    ConcatOne(g.open, f);
  }

  // ---- the bursts of an E-AC-3 stream

  predicate IsGroup(g: seq<seq<uint8>>) {
    g != [] && |g[0]| >= 6 && GroupFits(g)
  }

  /** The data burst of a group: preamble, with the length in bytes, the frames, padding. */
  function EnhancedBurst(g: seq<seq<uint8>>): (w: seq<uint16>)
    requires IsGroup(g)
    ensures |w| == 12288
  {
    var payload := Concat(g);
    seq(12288, i requires 0 <= i < 12288 => EnhancedWord(Mode(g[0][..6]), payload, i))
  }

  function EnhancedWord(mode: uint8, payload: seq<uint8>, i: nat): uint16
    requires |payload| <= BUFFER_BYTES
  {
    var m: int := mode;
    if i == 0 then 0xF872 else if i == 1 then 0x4E1F
    else if i == 2 then m * 256 + 21
    else if i == 3 then |payload|
    else PackedWord(payload, i - 4)
  }

  function GroupBursts(groups: seq<seq<seq<uint8>>>): (b: seq<seq<uint16>>)
    requires forall i: nat :: i < |groups| ==> IsGroup(groups[i])
    ensures |b| == |groups|
  {
    seq(|groups|, i requires 0 <= i < |groups| => EnhancedBurst(groups[i]))
  }

  lemma EnhancedWordIs(h: Header, payload: seq<uint8>, full: seq<uint8>, i: nat)
    requires PREAMBLE_SIZE + |payload| <= BUFFER_BYTES
    requires full == (EnhancedPreamble(h) + payload)[6 := High(|payload|)][7 := Low(|payload|)]
    ensures PackedWord(full, i) == EnhancedWord(Mode(h), payload, i)
  {
    hide Mode;
    if i >= 4 {
      assert ByteAt(full, 2 * i) == ByteAt(payload, 2 * (i - 4));
      assert ByteAt(full, 2 * i + 1) == ByteAt(payload, 2 * (i - 4) + 1);
    } else {
      assert full[2 * i] == ByteAt(full, 2 * i) && full[2 * i + 1] == ByteAt(full, 2 * i + 1);
    }
  }

  lemma FlushedGroup(g: seq<seq<uint8>>)
    requires IsGroup(g) && Concat(g) != []
    ensures |EnhancedPreamble(g[0][..6]) + Concat(g)| <= BUFFER_BYTES
    ensures Flushed(EnhancedPreamble(g[0][..6]) + Concat(g)) == [EnhancedBurst(g)]
  {
    hide PackedWord, EnhancedWord, EnhancedPreamble, Concat, Mode, High, Low;
    var h, payload := g[0][..6], Concat(g);
    var full := (EnhancedPreamble(h) + payload)[6 := High(|payload|)][7 := Low(|payload|)];
    forall i: nat | i < 12288
      ensures PackedWord(full, i) == EnhancedWord(Mode(h), payload, i)
    {
      EnhancedWordIs(h, payload, full, i);
    }
    assert Packed(full, 12288) == EnhancedBurst(g);
  }

  /** Bursts for the closed groups have gone out, and the open one is in the buffer. */
  ghost predicate GroupState(out: seq<seq<uint16>>, g: Groups, e: Encoder) {
    && (forall i: nat :: i < |g.closed| ==> IsGroup(g.closed[i])) && (g.open != [] ==> IsGroup(g.open) && Concat(g.open) != [])
    && e.out == out + GroupBursts(g.closed) && e.framer.counts[0] == g.count <= 6 && (g.open == [] ==> g.count == 0)
    && e.burst == if g.open == [] then [] else EnhancedPreamble(g.open[0][..6]) + Concat(g.open)
  }

  lemma OpenLevel(out: seq<seq<uint16>>, g: Groups, e: Encoder)
    requires GroupState(out, g, e)
    ensures |e.burst| <= BUFFER_BYTES && (e.burst == [] <==> g.open == [])
  {
    hide EnhancedPreamble, Concat, GroupBursts;
  }

  lemma GroupStepped(out: seq<seq<uint16>>, g: Groups, e: Encoder, f: seq<uint8>, e': Encoder)
    requires GroupState(out, g, e) && |e.burst| <= BUFFER_BYTES && 6 <= |f| <= 4096 && FrameFits(e, f) && FrameStep(e, f, e')
    ensures GroupState(out, GroupedWith(g, f), e')
  {
    hide Blocks, EnhancedPreamble, Concat, GroupBursts, Flushed;
    OpenLevel(out, g, e);
    ConcatOne(g.open, f);
    ConcatSingle(f);
    if g.count + Blocks(f) > 6 {
      FlushedGroup(g.open);
      GroupBurstsOne(g.closed, g.open);
    } else if g.open == [] {
      assert g.open + [f] == [f];
    } else {
      assert (EnhancedPreamble(g.open[0][..6]) + Concat(g.open)) + f == EnhancedPreamble(g.open[0][..6]) + (Concat(g.open) + f);
    }
  }

  lemma GroupBurstsOne(groups: seq<seq<seq<uint8>>>, g: seq<seq<uint8>>)
    requires (forall i: nat :: i < |groups| ==> IsGroup(groups[i])) && IsGroup(g)
    ensures forall i: nat :: i < |groups + [g]| ==> IsGroup((groups + [g])[i])
    ensures GroupBursts(groups + [g]) == GroupBursts(groups) + [EnhancedBurst(g)]
  {
    hide EnhancedBurst, IsGroup;
  }

  predicate Fresh(e: Encoder) {
    Gap(e) && e.burst == [] && e.framer.counts[0] == 0
  }

  lemma {:induction false} GroupRun(e: Encoder, fs: seq<seq<uint8>>, rest: seq<uint8>) returns (e': Encoder)
    requires Fresh(e) && GroupFrames(e.framer.eac3, fs) && Filling(FillOf(e), fs).fits
    ensures Gap(e') && e'.framer.eac3 == e.framer.eac3 && SameRun(e, Concat(fs) + rest, e', rest)
    ensures GroupState(e.out, Grouped(fs), e')
    ensures Filling(FillOf(e), fs).level == |e'.burst| && Filling(FillOf(e), fs).count == e'.framer.counts[0]
    decreases |fs|
  {
    hide Encode, CutSafe, IsGroupFrame, FrameFits, GroupState, GroupedWith, Poured;
    FramesLong(e.framer.eac3, fs);
    if fs == [] {
      e' := e;
      assert Concat(fs) + rest == rest;
      NoGroups(e);
    } else {
      var before, f := fs[..|fs| - 1], fs[|fs| - 1];
      assert Concat(fs) + rest == Concat(before) + (f + rest);
      PouredFits(Filling(FillOf(e), before), f);
      var e1 := GroupRun(e, before, f + rest);
      e' := FrameRun(e1, f, rest);
      StepGap(e1, f, e');
      PouredRun(e1, f, e', Filling(FillOf(e), before));
      SizeBound(e.framer.eac3, f);
      GroupStepped(e.out, Grouped(before), e1, f, e');
    }
  }

  lemma NoGroups(e: Encoder)
    requires Fresh(e)
    ensures GroupState(e.out, Groups([], [], 0), e)
  {
    assert GroupBursts([]) == [];
  }

  lemma PouredFits(s: Fill, f: seq<uint8>)
    requires |f| >= 6 && Poured(s, f).fits
    ensures s.fits
  {
  }

  // ---- the main results for E-AC-3

  /** The buffer overflows nowhere exactly if each group fits into it. */
  lemma FittingIffGroupsFit(e: Encoder, fs: seq<seq<uint8>>)
    requires Fresh(e) && GroupFrames(e.framer.eac3, fs)
    ensures forall i: nat :: i < |fs| ==> 6 <= |fs[i]| <= 4096
    ensures Fitting(e, Concat(fs)) <==> GroupsFit(Grouped(fs))
  {
    hide Encode, CutSafe, Clean, GroupsFit, IsGroupFrame, Filling, Concat;
    FramesBounded(e.framer.eac3, fs);
    FillingOfGroups(fs);
    var e' := FillRun(e, fs, []);
    assert Concat(fs) + [] == Concat(fs);
  }

  lemma FramesBounded(eac3: bool, fs: seq<seq<uint8>>)
    requires GroupFrames(eac3, fs)
    ensures forall i: nat :: i < |fs| ==> 6 <= |fs[i]| <= 4096
  {
    hide IsGroupFrame;
    FramesLong(eac3, fs);
    forall i: nat | i < |fs|
      ensures |fs[i]| <= 4096
    {
      SizeBound(eac3, fs[i]);
    }
  }

  /** While all groups fit, each closed one has gone out as one burst, and the open one is in the buffer. */
  lemma EnhancedRun(e: Encoder, fs: seq<seq<uint8>>)
    requires Fresh(e) && GroupFrames(e.framer.eac3, fs)
    requires forall i: nat :: i < |fs| ==> |fs[i]| >= 6
    requires GroupsFit(Grouped(fs))
    ensures GroupState(e.out, Grouped(fs), Encode(e, Concat(fs)))
    ensures Gap(Encode(e, Concat(fs))) && Encode(e, Concat(fs)).framer.eac3 == e.framer.eac3
    ensures Fitting(e, Concat(fs))
  {
    hide Encode, CutSafe, Fitting, GroupsFit, IsGroupFrame, Filling, Concat, GroupState;
    FramesBounded(e.framer.eac3, fs);
    FillingOfGroups(fs);
    FittingIffGroupsFit(e, fs);
    var e' := GroupRun(e, fs, []);
    assert Concat(fs) + [] == Concat(fs);
    EncodeNothing(e', []);
  }

  function StartOf(j: nat): nat {
    6 * j
  }

  predicate HoldsBlock(before: nat, f: seq<uint8>, block: nat)
    requires |f| >= 6
  {
    before <= block < before + Blocks(f)
  }

  /**
   A frame is the first of a burst exactly if it holds block 6, 12, 18, ... of substream 0,
   counted from 0: the seventh block since the burst began.
   */
  lemma SeventhBlock(e: Encoder, fs: seq<seq<uint8>>, f: seq<uint8>)
    requires Fresh(e) && GroupFrames(e.framer.eac3, fs) && IsGroupFrame(e.framer.eac3, f)
    requires forall i: nat :: i < |fs| ==> |fs[i]| >= 6
    requires GroupsFit(Grouped(fs))
    ensures IsFirstInBurst(FramerWith(Encode(e, Concat(fs)), f[..6]))
      <==> exists j: nat :: j > 0 && HoldsBlock(TotalBlocks(fs), f, StartOf(j))
  {
    hide Encode, GroupsFit, Concat, IsFirstInBurst, FramerWith, Grouped, TotalBlocks, Blocks, IsGroupFrame, First, Fitting, HoldsBlock;
    EnhancedRun(e, fs);
    BlocksOfGroups(fs);
    GroupFrameParts(e.framer.eac3, f, []);
    FirstParsed(Encode(e, Concat(fs)), f);
    FirstHolds(TotalBlocks(fs), Grouped(fs).count, |Grouped(fs).closed|, f);
  }

  lemma FirstHolds(total: nat, count: nat, k: nat, f: seq<uint8>)
    requires |f| >= 6 && count + 6 * k == total && count <= 6 && (total > 0 ==> count > 0)
    ensures First(count, f) <==> exists j: nat :: j > 0 && HoldsBlock(total, f, StartOf(j))
  {
    hide Blocks;
    if First(count, f) {
      assert HoldsBlock(total, f, StartOf(k + 1));
    }
  }

  /** As many bursts have gone out as there are full sixes of blocks before the last block. */
  lemma BurstsEnded(e: Encoder, fs: seq<seq<uint8>>)
    requires Fresh(e) && GroupFrames(e.framer.eac3, fs)
    requires forall i: nat :: i < |fs| ==> |fs[i]| >= 6
    requires GroupsFit(Grouped(fs))
    ensures |Encode(e, Concat(fs)).out| == |e.out| + if TotalBlocks(fs) == 0 then 0 else (TotalBlocks(fs) - 1) / 6
  {
    hide Encode, GroupsFit, Concat, Grouped, TotalBlocks;
    EnhancedRun(e, fs);
    BlocksOfGroups(fs);
    var k, n := |Grouped(fs).closed|, Grouped(fs).count;
    assert n > 0 ==> (6 * k + (n - 1)) / 6 == k;
  }

  /** What a receiver does with an E-AC-3 burst, whose length is in bytes. */
  function UnpackEnhanced(w: seq<uint16>): seq<uint8>
    requires |w| == 12288 && w[3] <= BUFFER_BYTES - PREAMBLE_SIZE
  {
    seq(w[3], j requires 0 <= j < w[3] => PayloadByte(w, j))
  }

  lemma PayloadByteOfGroup(g: seq<seq<uint8>>, j: nat)
    requires IsGroup(g) && j < |Concat(g)|
    ensures 4 + j / 2 < 12288 && PayloadByte(EnhancedBurst(g), j) == Concat(g)[j]
  {
    hide Concat, Mode;
    var payload, i := Concat(g), j / 2;
    assert EnhancedBurst(g)[4 + i] == PackedWord(payload, i);
    var high: int, low: int := ByteAt(payload, 2 * i), ByteAt(payload, 2 * i + 1);
    assert (high * 256 + low) / 256 == high && (high * 256 + low) % 256 == low;
  }

  lemma UnpackGroup(g: seq<seq<uint8>>)
    requires IsGroup(g)
    ensures EnhancedBurst(g)[3] == |Concat(g)| <= BUFFER_BYTES - PREAMBLE_SIZE
    ensures UnpackEnhanced(EnhancedBurst(g)) == Concat(g)
  {
    hide Concat, Mode;
    assert EnhancedBurst(g)[3] == |Concat(g)|;
    hide EnhancedBurst, PayloadByte;
    forall j: nat | j < |Concat(g)|
      ensures UnpackEnhanced(EnhancedBurst(g))[j] == Concat(g)[j]
    {
      PayloadByteOfGroup(g, j);
    }
  }

  predicate Unpackable(out: seq<seq<uint16>>) {
    forall i: nat :: i < |out| ==> |out[i]| == 12288 && out[i][3] <= BUFFER_BYTES - PREAMBLE_SIZE
  }

  function AllUnpacked(out: seq<seq<uint16>>): seq<seq<uint8>>
    requires Unpackable(out)
  {
    seq(|out|, i requires 0 <= i < |out| => UnpackEnhanced(out[i]))
  }

  lemma UnpackGroups(groups: seq<seq<seq<uint8>>>)
    requires forall i: nat :: i < |groups| ==> IsGroup(groups[i])
    ensures Unpackable(GroupBursts(groups)) && AllUnpacked(GroupBursts(groups)) == Payloads(groups)
  {
    hide EnhancedBurst, UnpackEnhanced, IsGroup, Concat;
    forall i: nat | i < |groups|
      ensures GroupBursts(groups)[i][3] <= BUFFER_BYTES - PREAMBLE_SIZE
      ensures UnpackEnhanced(GroupBursts(groups)[i]) == Concat(groups[i])
    {
      UnpackGroup(groups[i]);
    }
  }

  /**
   A receiver gets back the stream of an E-AC-3 source byte for byte, up to the group that is
   still open, however the stream was divided into writes.
   */
  lemma ReceiverGetsGroups(e: Encoder, fs: seq<seq<uint8>>, writes: seq<seq<uint8>>)
    requires Fresh(e) && e.out == [] && GroupFrames(e.framer.eac3, fs)
    requires forall i: nat :: i < |fs| ==> |fs[i]| >= 6
    requires GroupsFit(Grouped(fs)) && Concat(writes) == Concat(fs)
    ensures Unpackable(EncodeAll(e, writes).out)
    ensures Concat(AllUnpacked(EncodeAll(e, writes).out)) + Concat(Grouped(fs).open) == Concat(fs)
  {
    hide Encode, EncodeAll, GroupsFit, Concat, Grouped, Fitting, UnpackEnhanced, EnhancedBurst, Payloads, IsGroup;
    EnhancedRun(e, fs);
    assert Concat(writes) + [] == Concat(fs);
    FittingWrites(e, writes, []);
    var g := Grouped(fs);
    assert [] + GroupBursts(g.closed) == GroupBursts(g.closed);
    UnpackGroups(g.closed);
    GroupsKeep(fs);
  }

  /** Behind its frames a burst holds zeros. */
  lemma GroupPaddingIsZero(g: seq<seq<uint8>>, i: nat)
    requires IsGroup(g) && 8 + |Concat(g)| <= 2 * i < 2 * 12288
    ensures EnhancedBurst(g)[i] == 0
  {
    hide Concat;
  }
}
