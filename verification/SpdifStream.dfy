/**
 Whole streams through the encoder of module SpdifSpec: where a stream may be cut into
 separate writes, and what comes out for plain AC-3.
 */
module SpdifStream {
  import opened SpdifSpec

  // ---- cutting a stream into writes

  /** A payload chunk that overflows the burst buffer without ending the frame. */
  predicate Spills(e: Encoder, chunk: seq<uint8>) {
    |e.burst| + |chunk| > BUFFER_BYTES && (|chunk| + 1 < e.pending || !IsLastInBurst(e.framer))
  }

  /** The last write of data does not end in a chunk that spills. */
  predicate CutSafe(e: Encoder, data: seq<uint8>)
    decreases |data|, if e.scanning then 0 else 1
  {
    if data == [] then true
    else if e.scanning then CutSafe(ScanStep(e, data[0]), data[1..])
    else if |data| < e.pending then !Spills(e, data)
    else CutSafe(PayloadStep(e, data[..e.pending]), data[e.pending..])
  }

  /** Nothing shows that the stream was cut behind a. */
  ghost predicate CutInvisible(e: Encoder, a: seq<uint8>) {
    forall b: seq<uint8> :: Encode(Encode(e, a), b) == Encode(e, a + b)
  }

  lemma PayloadSplit(e: Encoder, a: seq<uint8>, b: seq<uint8>)
    requires a != [] && b != [] && |a| + |b| <= e.pending && !Spills(e, a)
    ensures PayloadStep(PayloadStep(e, a), b) == PayloadStep(e, a + b)
  {
    hide ResetBurst, Packed, LengthCode, BurstBytes;
    assert (e.burst + a) + b == e.burst + (a + b);
  }

  lemma EncodePart(e: Encoder, a: seq<uint8>)
    requires !e.scanning && 0 < |a| <= e.pending
    ensures Encode(e, a) == PayloadStep(e, a)
  {
    hide PayloadStep;
    assert a[..|a|] == a && a[|a|..] == [];
  }

  lemma PayloadRest(e: Encoder, a: seq<uint8>)
    requires !e.scanning && |a| < e.pending
    ensures PayloadStep(e, a).pending == e.pending - |a| && !PayloadStep(e, a).scanning
  {
  }

  lemma EncodeInside(e: Encoder, a: seq<uint8>, b: seq<uint8>)
    requires !e.scanning && a != [] && b != [] && |a| < e.pending && !Spills(e, a)
    ensures Encode(Encode(e, a), b) == Encode(e, a + b)
  {
    hide PayloadStep, Spills;
    EncodePart(e, a);
    PayloadRest(e, a);
    var e' := PayloadStep(e, a);
    var n := Chunk(e', |b|);
    PayloadSplit(e, a, b[..n]);
    assert (a + b)[..|a| + n] == a + b[..n];
    assert (a + b)[|a| + n..] == b[n..];
  }

  lemma {:induction false} EncodeAppend(e: Encoder, a: seq<uint8>, b: seq<uint8>)
    requires CutSafe(e, a)
    ensures Encode(Encode(e, a), b) == Encode(e, a + b)
    decreases |a|, if e.scanning then 0 else 1
  {
    hide PayloadStep, ScanStep, Spills;
    if a == [] {
      assert a + b == b;
    } else if b == [] {
      assert a + b == a;
    } else if e.scanning {
      EncodeAppend(ScanStep(e, a[0]), a[1..], b);
      assert (a + b)[1..] == a[1..] + b;
    } else if |a| < e.pending {
      EncodeInside(e, a, b);
    } else {
      var n := e.pending;
      PayloadEnds(e, a[..n]);
      EncodeAppend(PayloadStep(e, a[..n]), a[n..], b);
      assert (a + b)[..n] == a[..n];
      assert (a + b)[n..] == a[n..] + b;
    }
  }

  lemma SpillShows(e: Encoder, a: seq<uint8>)
    requires !e.scanning && 0 < |a| < e.pending && Spills(e, a)
    ensures Encode(Encode(e, a), [0]) != Encode(e, a + [0])
  {
    hide PayloadStep, Spills, Encode;
    EncodePart(e, a + [0]);
    EncodePart(e, a);
    PayloadRest(e, a);
    EncodePart(PayloadStep(e, a), [0]);
    SpillsApart(e, a);
  }

  lemma SpillsApart(e: Encoder, a: seq<uint8>)
    requires !e.scanning && |a| < e.pending && Spills(e, a)
    ensures PayloadStep(PayloadStep(e, a), [0]) != PayloadStep(e, a + [0])
  {
    hide Flush;
    assert PayloadStep(e, a).burst == [];
    assert PayloadStep(PayloadStep(e, a), [0]).burst == [0];
    assert PayloadStep(e, a + [0]).burst == [];
  }

  lemma {:induction false} UnsafeCutShows(e: Encoder, a: seq<uint8>) returns (b: seq<uint8>)
    requires !CutSafe(e, a)
    ensures Encode(Encode(e, a), b) != Encode(e, a + b)
    decreases |a|, if e.scanning then 0 else 1
  {
    hide PayloadStep, ScanStep, Spills;
    if e.scanning {
      b := UnsafeCutShows(ScanStep(e, a[0]), a[1..]);
      assert (a + b)[1..] == a[1..] + b;
    } else if |a| < e.pending {
      b := [0];
      SpillShows(e, a);
    } else {
      var n := e.pending;
      PayloadEnds(e, a[..n]);
      b := UnsafeCutShows(PayloadStep(e, a[..n]), a[n..]);
      assert (a + b)[..n] == a[..n];
      assert (a + b)[n..] == a[n..] + b;
      EncodeStepOf(e, a + b, n);
    }
  }

  lemma EncodeStepOf(e: Encoder, data: seq<uint8>, n: nat)
    requires !e.scanning && data != [] && n == e.pending <= |data|
    ensures Encode(e, data) == Encode(PayloadStep(e, data[..n]), data[n..])
  {
    hide PayloadStep;
  }

  /** Cutting a stream into separate writes is invisible exactly where no chunk spills. */
  lemma CutInvisibleIff(e: Encoder, a: seq<uint8>)
    ensures CutInvisible(e, a) <==> CutSafe(e, a)
  {
    hide Encode, CutSafe;
    if CutSafe(e, a) {
      forall b: seq<uint8>
        ensures Encode(Encode(e, a), b) == Encode(e, a + b)
      {
        EncodeAppend(e, a, b);
      }
    } else {
      var b := UnsafeCutShows(e, a);
      assert Encode(Encode(e, a), b) != Encode(e, a + b);
    }
  }

  // ---- plain AC-3: which frames a stream holds

  /** What stands at the front of a stream, for a scanner that is looking for a sync word. */
  datatype Token = Skip(n: nat) | Frame(n: nat) | Enhanced | Partial

  function Next(s: seq<uint8>): (t: Token)
    requires s != []
    ensures t.Skip? ==> 0 < t.n <= |s|
    ensures t.Frame? ==> 6 < t.n <= |s| && t.n <= 3840 && PlainHeader(s[..6])
  {
    if s[0] != SYNC1 then Skip(1)
    else if |s| < 2 then Partial
    else if s[1] != SYNC2 then Skip(2)
    else if |s| < 6 then Partial
    else if 10 < Bsid(s[..6]) <= 16 then Enhanced
    else if !PlainHeader(s[..6]) then Skip(6)
    else if |s| < FrameBytes(s[..6]) then Partial
    else Frame(FrameBytes(s[..6]))
  }

  predicate PlainHeader(h: Header) {
    Bsid(h) <= 8 && PlainValid(h)
  }

  function FrameBytes(h: Header): (n: nat)
    requires PlainHeader(h)
    ensures 128 <= n <= 3840
  {
    2 * FrameWords(h[4] / 64, h[4] % 64)
  }

  /** The bytes of a frame with the given sampling and frame size codes, from the bit rate that they stand for. */
  function BytesAtCodes(fscod: nat, code: nat): nat
    requires fscod < 3 && code < 38
  {
    2 * (WordsAtRate(BIT_RATES[code / 2], SAMPLE_RATES[fscod]) + Padding(fscod, code))
  }

  /** Behind a sync word, the bytes of the header alone decide: a plain frame has the size of its bit rate. */
  lemma PlainFrameAt(s: seq<uint8>)
    requires |s| >= 6 && s[0] == 0x0B && s[1] == 0x77
    ensures Next(s) == Enhanced <==> 88 <= s[5] <= 135
    ensures s[5] < 72 && s[4] / 64 < 3 && s[4] % 64 < 38 ==>
      Next(s) == if |s| < BytesAtCodes(s[4] / 64, s[4] % 64) then Partial else Frame(BytesAtCodes(s[4] / 64, s[4] % 64))
    ensures 72 <= s[5] < 88 || s[5] > 135 || (s[5] < 72 && (s[4] / 64 == 3 || s[4] % 64 >= 38)) ==> Next(s) == Skip(6)
  {
    hide FrameWords, WordsAtRate, Padding;
    if s[4] / 64 < 3 && s[4] % 64 < 38 {
      SizeFromRate(s[4] / 64, s[4] % 64);
    }
  }

  /** The complete frames of a stream, in order. */
  function Frames(s: seq<uint8>): seq<seq<uint8>> {
    if s == [] then []
    else match Next(s)
      case Skip(n) => Frames(s[n..])
      case Frame(n) => [s[..n]] + Frames(s[n..])
      case _ => []
  }

  /** No E-AC-3 header (bsid 11 to 16) in the place of a frame. */
  predicate Plain(s: seq<uint8>) {
    if s == [] then true
    else match Next(s)
      case Skip(n) => Plain(s[n..])
      case Frame(n) => Plain(s[n..])
      case Enhanced => false
      case Partial => true
  }

  // ---- the burst of a frame

  const BURST_WORDS: nat := 3072

  predicate IsFrame(f: seq<uint8>) {
    6 < |f| <= 3840
  }

  /** The data burst of IEC 61937: preamble Pa, Pb, Pc, Pd (the length in bits), payload, padding. */
  function Burst(frame: seq<uint8>): (w: seq<uint16>)
    requires IsFrame(frame)
    ensures |w| == BURST_WORDS
  {
    seq(BURST_WORDS, i requires 0 <= i < BURST_WORDS => BurstWord(frame, i))
  }

  function BurstWord(frame: seq<uint8>, i: nat): uint16
    requires IsFrame(frame)
  {
    var mode: int := frame[5] % 8;
    if i == 0 then 0xF872 else if i == 1 then 0x4E1F
    else if i == 2 then mode * 256 + 1
    else if i == 3 then 8 * |frame|
    else PackedWord(frame, i - 4)
  }

  /** Byte j of the payload of a burst: the first byte of each word is its most significant half. */
  function PayloadByte(w: seq<uint16>, j: nat): uint8
    requires 4 + j / 2 < |w|
  {
    if j % 2 == 0 then High(w[4 + j / 2]) else Low(w[4 + j / 2])
  }

  /** What a receiver does with a burst. */
  function Unpack(w: seq<uint16>): seq<uint8>
    requires |w| == BURST_WORDS && w[3] / 16 + 5 < BURST_WORDS
  {
    seq(w[3] / 8, j requires 0 <= j < w[3] / 8 => PayloadByte(w, j))
  }

  lemma PayloadByteOfBurst(frame: seq<uint8>, j: nat)
    requires IsFrame(frame) && j < |frame|
    ensures PayloadByte(Burst(frame), j) == frame[j]
  {
    var i := j / 2;
    assert Burst(frame)[4 + i] == PackedWord(frame, i);
    var high: int, low: int := ByteAt(frame, 2 * i), ByteAt(frame, 2 * i + 1);
    assert (high * 256 + low) / 256 == high && (high * 256 + low) % 256 == low;
  }

  lemma UnpackBurst(frame: seq<uint8>)
    requires IsFrame(frame)
    ensures Burst(frame)[3] / 16 + 5 < BURST_WORDS
    ensures Unpack(Burst(frame)) == frame
  {
    assert Burst(frame)[3] == 8 * |frame|;
    var bits: int := Burst(frame)[3];
    assert bits / 8 == |frame| && bits / 16 <= 1920;
    hide Burst, PayloadByte;
    forall j: nat | j < |frame|
      ensures Unpack(Burst(frame))[j] == frame[j]
    {
      PayloadByteOfBurst(frame, j);
    }
  }

  function Bursts(frames: seq<seq<uint8>>): (b: seq<seq<uint16>>)
    requires forall f :: f in frames ==> IsFrame(f)
    ensures |b| == |frames|
  {
    seq(|frames|, i requires 0 <= i < |frames| => Burst(frames[i]))
  }

  lemma {:induction false} FramesAreFrames(s: seq<uint8>)
    ensures forall f :: f in Frames(s) ==> IsFrame(f)
  {
    hide PlainHeader, FrameBytes, Bsid;
    if s != [] {
      match Next(s)
      case Skip(n) => FramesAreFrames(s[n..]);
      case Frame(n) => FramesAreFrames(s[n..]);
      case _ =>
    }
  }

  // ---- the encoder on plain AC-3

  /** Looking for a sync word, none of which has been seen. */
  predicate AtGap(e: Encoder) {
    e.framer.cursor == 0 && e.scanning
  }

  /** Between two frames, with nothing in the burst buffer. */
  predicate Idle(e: Encoder) {
    !e.framer.eac3 && AtGap(e) && e.burst == []
  }

  /** e after k bytes of s that look like a header. */
  function Gathered(e: Encoder, s: seq<uint8>, k: nat): Encoder
    requires k <= |s| && k < 6
  {
    e.(framer := e.framer.(cursor := k, header := s[..k] + e.framer.header[k..]))
  }

  predicate Synced(s: seq<uint8>, k: nat)
    requires k <= |s|
  {
    (k > 0 ==> s[0] == SYNC1) && (k > 1 ==> s[1] == SYNC2)
  }

  lemma GatherStep(e: Encoder, s: seq<uint8>, k: nat)
    requires AtGap(e) && k < 5 && k < |s| && Synced(s, k + 1)
    ensures ScanStep(Gathered(e, s, k), s[k]) == Gathered(e, s, k + 1)
  {
    hide ParseHeader;
    var h := e.framer.header;
    assert (s[..k] + h[k..])[k := s[k]] == s[..k + 1] + h[k + 1..];
  }

  lemma EncodeOne(e: Encoder, s: seq<uint8>)
    requires e.scanning && s != []
    ensures Encode(e, s) == Encode(ScanStep(e, s[0]), s[1..])
    ensures CutSafe(e, s) == CutSafe(ScanStep(e, s[0]), s[1..])
  {
    hide ScanStep;
  }

  /** The two runs continue in the same way. */
  predicate SameRun(e: Encoder, s: seq<uint8>, e': Encoder, s': seq<uint8>) {
    Encode(e, s) == Encode(e', s') && CutSafe(e, s) == CutSafe(e', s')
  }

  lemma {:induction false} EncodeGathers(e: Encoder, s: seq<uint8>, k: nat)
    requires AtGap(e) && k < 6 && k <= |s| && Synced(s, k)
    ensures SameRun(e, s, Gathered(e, s, k), s[k..])
  {
    hide Encode, CutSafe, ScanStep;
    if k == 0 {
      assert s[..0] + e.framer.header[0..] == e.framer.header && s[0..] == s;
    } else {
      EncodeGathers(e, s, k - 1);
      EncodeOne(Gathered(e, s, k - 1), s[k - 1..]);
      GatherStep(e, s, k - 1);
      assert s[k - 1..][1..] == s[k..];
    }
  }

  lemma SkipOne(e: Encoder, byte: uint8)
    requires Idle(e) && byte != SYNC1
    ensures Idle(ScanStep(e, byte)) && ScanStep(e, byte).out == e.out
  {
    hide ParseHeader;
  }

  lemma SkipTwo(e: Encoder, s: seq<uint8>)
    requires Idle(e) && |s| >= 2 && s[0] == SYNC1 && s[1] != SYNC2
    ensures Idle(ScanStep(Gathered(e, s, 1), s[1])) && ScanStep(Gathered(e, s, 1), s[1]).out == e.out
  {
    hide ParseHeader;
  }

  lemma HeaderComplete(e: Encoder, s: seq<uint8>)
    requires AtGap(e) && |s| >= 6
    ensures ScanStep(Gathered(e, s, 5), s[5]) == HeaderStep(e, s[..6])
  {
    hide ParseHeader, StartBurst, Flush, WriteBytes;
    var h := e.framer.header;
    assert (s[..5] + h[5..])[5 := s[5]] == s[..6];
  }

  /** The scan of the last byte of the header h. */
  function HeaderStep(e: Encoder, h: Header): Encoder {
    var (p, valid) := ParseHeader(e.framer.(cursor := 6, header := h));
    var e0 := e.(framer := p.(cursor := 0));
    if valid then StartFrame(e0) else e0
  }

  lemma BadHeader(e: Encoder, h: Header)
    requires Idle(e) && !PlainHeader(h) && !(10 < Bsid(h) <= 16)
    ensures Idle(HeaderStep(e, h)) && HeaderStep(e, h).out == e.out
  {
    hide StartBurst, WriteBytes, Flush, FrameWords;
  }

  function Preamble(h: Header): seq<uint8> {
    [0xF8, 0x72, 0x4E, 0x1F, h[5] % 8, DATA_TYPE_AC3, 0, 0]
  }

  /** Inside a plain frame with header h: the preamble and the header are in the buffer. */
  predicate InFrame(e: Encoder, h: Header)
    requires PlainHeader(h)
  {
    && !e.framer.eac3 && e.framer.cursor == 0 && !e.scanning
    && e.framer.dataType == DATA_TYPE_AC3 && e.framer.rateMultiplier == 1
    && e.burst == Preamble(h) + h && e.pending == FrameBytes(h) - 6
  }

  lemma GoodHeader(e: Encoder, h: Header)
    requires Idle(e) && PlainHeader(h)
    ensures InFrame(HeaderStep(e, h), h) && HeaderStep(e, h).out == e.out
  {
    hide Flush, FrameWords, FrameBytes, WriteBytes, StartBurst;
    PlainParse(e.framer.(cursor := 6, header := h));
    var (p, valid) := ParseHeader(e.framer.(cursor := 6, header := h));
    var e0 := e.(framer := p.(cursor := 0));
    PreambleStarts(e0, h);
  }

  lemma PlainParse(f: Framer)
    requires !f.eac3 && PlainHeader(f.header)
    ensures ParseHeader(f).1
    ensures ParseHeader(f).0 == f.(dataType := DATA_TYPE_AC3, dataTypeInfo := f.header[5] % 8, rateMultiplier := 1, frameSize := FrameBytes(f.header))
  {
    hide FrameWords;
  }

  lemma PreambleStarts(e: Encoder, h: Header)
    requires e.burst == [] && e.framer.dataType == DATA_TYPE_AC3 && e.framer.dataTypeInfo == h[5] % 8
    ensures WriteBytes(StartBurst(e), h) == e.(burst := Preamble(h) + h)
  {
    hide BurstInfo;
    PlainInfo(e.framer);
    assert e.burst + Preamble(h) == Preamble(h);
  }

  lemma PlainInfo(f: Framer)
    requires f.dataType == DATA_TYPE_AC3
    ensures High(BurstInfo(f)) == f.dataTypeInfo && Low(BurstInfo(f)) == DATA_TYPE_AC3
  {
    var mode: int := f.dataTypeInfo;
    assert (mode * 256 + 1) / 256 == mode && (mode * 256 + 1) % 256 == 1;
  }

  lemma EncodePayload(e: Encoder, s: seq<uint8>)
    requires !e.scanning && s != [] && e.pending <= |s|
    ensures SameRun(e, s, PayloadStep(e, s[..e.pending]), s[e.pending..])
  {
    hide PayloadStep;
  }

  lemma ResetKeeps(f: Framer)
    ensures ResetBurst(f) == f.(counts := ResetBurst(f).counts)
  {
  }

  lemma FlushPlain(e: Encoder, frame: seq<uint8>)
    requires IsFrame(frame) && !e.framer.eac3 && e.framer.cursor == 0
    requires e.framer.dataType == DATA_TYPE_AC3 && e.framer.rateMultiplier == 1
    requires e.burst == Preamble(frame[..6]) + frame
    ensures Idle(Flush(e)) && Flush(e).out == e.out + [Burst(frame)]
  {
    hide Packed, Burst, ResetBurst, Preamble, High, Low;
    ResetKeeps(e.framer);
    assert |Preamble(frame[..6])| == 8 by { PreambleLength(frame[..6]); }
    BurstIsPacked(frame, e.burst[6 := High(8 * |frame|)][7 := Low(8 * |frame|)]);
  }

  lemma PreambleLength(h: Header)
    ensures |Preamble(h)| == 8
  {
  }

  /** The last chunk of a plain frame: its burst goes out, and the encoder is idle again. */
  lemma PlainPayload(e: Encoder, frame: seq<uint8>)
    requires |frame| >= 6 && PlainHeader(frame[..6]) && |frame| == FrameBytes(frame[..6]) && InFrame(e, frame[..6])
    ensures Idle(PayloadStep(e, frame[6..]))
    ensures PayloadStep(e, frame[6..]).out == e.out + [Burst(frame)]
  {
    hide Packed, FrameWords, FrameBytes, Burst, ResetBurst, StartBurst, Flush, Preamble;
    var h := frame[..6];
    PreambleLength(h);
    assert (Preamble(h) + h) + frame[6..] == Preamble(h) + frame;
    FlushPlain(WriteBytes(e, frame[6..]).(pending := 0), frame);
  }

  lemma BurstIsPacked(frame: seq<uint8>, full: seq<uint8>)
    requires IsFrame(frame)
    requires full == (Preamble(frame[..6]) + frame)[6 := High(8 * |frame|)][7 := Low(8 * |frame|)]
    ensures Packed(full, BURST_WORDS) == Burst(frame)
  {
    hide PackedWord, BurstWord;
    forall i: nat | i < BURST_WORDS
      ensures PackedWord(full, i) == BurstWord(frame, i)
    {
      WordOfBurst(frame, full, i);
    }
  }

  lemma WordOfBurst(frame: seq<uint8>, full: seq<uint8>, i: nat)
    requires IsFrame(frame)
    requires full == (Preamble(frame[..6]) + frame)[6 := High(8 * |frame|)][7 := Low(8 * |frame|)]
    ensures PackedWord(full, i) == BurstWord(frame, i)
  {
    if i >= 4 {
      assert ByteAt(full, 2 * i) == ByteAt(frame, 2 * (i - 4));
      assert ByteAt(full, 2 * i + 1) == ByteAt(frame, 2 * (i - 4) + 1);
    } else {
      assert full[2 * i] == ByteAt(full, 2 * i) && full[2 * i + 1] == ByteAt(full, 2 * i + 1);
    }
  }

  /** One item of the stream through the encoder. */
  lemma SkipRuns(e: Encoder, s: seq<uint8>) returns (e': Encoder)
    requires Idle(e) && s != [] && Next(s).Skip?
    ensures Idle(e') && e'.out == e.out && SameRun(e, s, e', s[Next(s).n..])
  {
    hide Encode, CutSafe, ScanStep, PlainHeader, Bsid, FrameBytes, HeaderStep, StartFrame;
    var n := Next(s).n;
    EncodeGathers(e, s, n - 1);
    EncodeOne(Gathered(e, s, n - 1), s[n - 1..]);
    assert s[n - 1..][1..] == s[n..];
    e' := ScanStep(Gathered(e, s, n - 1), s[n - 1]);
    if n == 1 {
      assert Gathered(e, s, 0) == e by { assert s[..0] + e.framer.header[0..] == e.framer.header; }
      SkipOne(e, s[0]);
    } else if n == 2 {
      SkipTwo(e, s);
    } else {
      HeaderComplete(e, s);
      BadHeader(e, s[..6]);
    }
  }

  lemma HeaderRuns(e: Encoder, s: seq<uint8>) returns (e': Encoder)
    requires Idle(e) && |s| >= 6 && Synced(s, 2) && PlainHeader(s[..6])
    ensures InFrame(e', s[..6]) && e'.out == e.out && SameRun(e, s, e', s[6..])
  {
    hide Encode, CutSafe, ScanStep, PlainHeader, HeaderStep, InFrame;
    EncodeGathers(e, s, 5);
    EncodeOne(Gathered(e, s, 5), s[5..]);
    assert s[5..][1..] == s[6..];
    HeaderComplete(e, s);
    GoodHeader(e, s[..6]);
    e' := HeaderStep(e, s[..6]);
  }

  lemma FrameRuns(e: Encoder, s: seq<uint8>) returns (e': Encoder)
    requires Idle(e) && s != [] && Next(s).Frame?
    ensures Idle(e') && e'.out == e.out + [Burst(s[..Next(s).n])] && SameRun(e, s, e', s[Next(s).n..])
  {
    hide Encode, CutSafe, PlainHeader, PayloadStep, Bsid, FrameBytes, Burst, Preamble;
    var n := Next(s).n;
    var e1 := HeaderRuns(e, s);
    var frame := s[..n];
    assert frame[..6] == s[..6] && s[6..][..n - 6] == frame[6..] && s[6..][n - 6..] == s[n..];
    EncodePayload(e1, s[6..]);
    PlainPayload(e1, frame);
    e' := PayloadStep(e1, frame[6..]);
  }

  /** The incomplete item at the end of a stream puts nothing out. */
  lemma PartialRuns(e: Encoder, s: seq<uint8>)
    requires Idle(e) && s != [] && Next(s).Partial?
    ensures Encode(e, s).out == e.out && CutSafe(e, s)
  {
    hide PlainHeader, FrameBytes, Bsid, PayloadStep, ScanStep, Encode, CutSafe;
    if |s| < 6 {
      EncodeGathers(e, s, |s|);
      EncodeNothing(Gathered(e, s, |s|), s[|s|..]);
    } else {
      var e1 := HeaderRuns(e, s);
      if |s| == 6 {
        EncodeNothing(e1, s[6..]);
      } else {
        UnfinishedPayload(e1, s[..6], s[6..]);
      }
    }
  }

  lemma EncodeNothing(e: Encoder, s: seq<uint8>)
    requires s == []
    ensures Encode(e, s) == e && CutSafe(e, s)
  {
  }

  lemma UnfinishedPayload(e: Encoder, h: Header, rest: seq<uint8>)
    requires PlainHeader(h) && InFrame(e, h) && rest != [] && |rest| < e.pending
    ensures Encode(e, rest).out == e.out && CutSafe(e, rest)
  {
    hide FrameWords;
    EncodePart(e, rest);
  }

  lemma {:induction false} PlainRun(e: Encoder, s: seq<uint8>)
    requires Idle(e) && Plain(s)
    ensures forall f :: f in Frames(s) ==> IsFrame(f)
    ensures Encode(e, s).out == e.out + Bursts(Frames(s))
    ensures CutSafe(e, s)
    decreases |s|
  {
    hide Encode, CutSafe, Next, Burst, Idle;
    FramesAreFrames(s);
    if s == [] {
      EncodeNothing(e, s);
    } else {
      match Next(s)
      case Skip(n) =>
        var e' := SkipRuns(e, s);
        PlainRun(e', s[n..]);
      case Frame(n) =>
        var e' := FrameRuns(e, s);
        PlainRun(e', s[n..]);
        assert Bursts(Frames(s)) == [Burst(s[..n])] + Bursts(Frames(s[n..]));
      case Partial =>
        PartialRuns(e, s);
    }
  }

  // ---- the main results for plain AC-3

  lemma NextOfPrefix(a: seq<uint8>, b: seq<uint8>)
    requires a != []
    ensures Next(a).Partial? || Next(a) == Next(a + b)
  {
    hide PlainHeader, Bsid, FrameBytes;
    if |a| >= 6 {
      assert (a + b)[..6] == a[..6];
    }
  }

  /** What was written before a cut is a plain stream too. */
  lemma {:induction false} PlainPrefix(a: seq<uint8>, b: seq<uint8>)
    requires Plain(a + b)
    ensures Plain(a)
    decreases |a|
  {
    hide Next;
    if a != [] {
      NextOfPrefix(a, b);
      match Next(a)
      case Skip(n) =>
        assert (a + b)[n..] == a[n..] + b;
        PlainPrefix(a[n..], b);
      case Frame(n) =>
        assert (a + b)[n..] == a[n..] + b;
        PlainPrefix(a[n..], b);
      case _ =>
    }
  }

  function Concat(writes: seq<seq<uint8>>): seq<uint8> {
    if writes == [] then [] else Concat(writes[..|writes| - 1]) + writes[|writes| - 1]
  }

  /** One call of write after the other. */
  function EncodeAll(e: Encoder, writes: seq<seq<uint8>>): Encoder {
    if writes == [] then e else Encode(EncodeAll(e, writes[..|writes| - 1]), writes[|writes| - 1])
  }

  /** Output and state do not depend on how a plain stream is divided into writes. */
  lemma {:induction false} PlainWrites(e: Encoder, writes: seq<seq<uint8>>)
    requires Idle(e) && Plain(Concat(writes))
    ensures EncodeAll(e, writes) == Encode(e, Concat(writes))
    decreases |writes|
  {
    hide Encode, CutSafe, Plain, Idle;
    if writes == [] {
      EncodeNothing(e, []);
    } else {
      var before := writes[..|writes| - 1];
      PlainPrefix(Concat(before), writes[|writes| - 1]);
      PlainWrites(e, before);
      PlainRun(e, Concat(before));
      EncodeAppend(e, Concat(before), writes[|writes| - 1]);
    }
  }

  function Unpacked(out: seq<seq<uint16>>): seq<seq<uint8>>
    requires forall w :: w in out ==> |w| == BURST_WORDS && w[3] / 16 + 5 < BURST_WORDS
  {
    seq(|out|, i requires 0 <= i < |out| => (assert out[i] in out; Unpack(out[i])))
  }

  lemma UnpackBursts(frames: seq<seq<uint8>>)
    requires forall f :: f in frames ==> IsFrame(f)
    ensures forall w :: w in Bursts(frames) ==> |w| == BURST_WORDS && w[3] / 16 + 5 < BURST_WORDS
    ensures Unpacked(Bursts(frames)) == frames
  {
    hide Burst, Unpack;
    forall i: nat | i < |frames|
      ensures Bursts(frames)[i][3] / 16 + 5 < BURST_WORDS && Unpack(Bursts(frames)[i]) == frames[i]
    {
      UnpackBurst(frames[i]);
    }
  }

  /** A receiver gets back the frames of the stream, in order, however the stream was written. */
  lemma ReceiverGetsFrames(e: Encoder, writes: seq<seq<uint8>>)
    requires Idle(e) && e.out == [] && Plain(Concat(writes))
    ensures forall f :: f in Frames(Concat(writes)) ==> IsFrame(f)
    ensures EncodeAll(e, writes).out == Bursts(Frames(Concat(writes)))
    ensures forall w :: w in EncodeAll(e, writes).out ==> |w| == BURST_WORDS && w[3] / 16 + 5 < BURST_WORDS
    ensures Unpacked(EncodeAll(e, writes).out) == Frames(Concat(writes))
  {
    hide Encode, Plain, Idle, Burst, Bursts, Frames, EncodeAll, Unpacked, IsFrame;
    PlainRun(e, Concat(writes));
    PlainWrites(e, writes);
    UnpackBursts(Frames(Concat(writes)));
  }

  // ---- a frame behind bytes that are no frame

  /** No sync word in p. */
  ghost predicate Noise(p: seq<uint8>) {
    forall i: nat :: i < |p| - 1 && p[i] == SYNC1 ==> p[i + 1] != SYNC2
  }

  /** Length of the run of first sync bytes at the end of p. */
  function TrailingSync(p: seq<uint8>): (n: nat)
    ensures n <= |p|
  {
    if p == [] || p[|p| - 1] != SYNC1 then 0 else 1 + TrailingSync(p[..|p| - 1])
  }

  lemma {:induction false} TrailingDrop(p: seq<uint8>)
    requires p != []
    ensures TrailingSync(p) == TrailingSync(p[1..]) + if p[0] == SYNC1 && TrailingSync(p[1..]) == |p| - 1 then 1 else 0
  {
    if |p| > 1 && p[|p| - 1] == SYNC1 {
      TrailingDrop(p[..|p| - 1]);
      assert p[1..][..|p| - 2] == p[..|p| - 1][1..];
    }
  }

  lemma {:induction false} FrameNoLonger(s: seq<uint8>, frame: seq<uint8>)
    requires frame in Frames(s)
    ensures |frame| <= |s|
  {
    hide PlainHeader, FrameBytes, Bsid;
    match Next(s)
    case Skip(n) => FrameNoLonger(s[n..], frame);
    case Frame(n) =>
      if frame != s[..n] {
        FrameNoLonger(s[n..], frame);
      }
    case _ =>
  }

  lemma SkipsNoise(p: seq<uint8>, s: seq<uint8>) returns (n: nat)
    requires Noise(p) && p != [] && s != [] && s[0] == SYNC1
    ensures n == 1 || n == 2
    ensures n == 1 ==> p[0] != SYNC1
    ensures n == 2 ==> p[0] == SYNC1
    ensures Frames(p + s) == Frames((p + s)[n..])
  {
    hide PlainHeader, FrameBytes, Bsid;
    n := if p[0] == SYNC1 then 2 else 1;
    if |p| > 1 {
      assert p[0] == SYNC1 ==> p[1] != SYNC2;
    }
  }

  /**
   The matcher drops the byte that breaks a match. So bytes without a sync word are skipped as
   a whole only if the first sync bytes at their end come in pairs; otherwise the last one of
   them takes the first byte of what follows with it.
   */
  lemma {:induction false} NoiseSkipped(p: seq<uint8>, s: seq<uint8>)
    requires Noise(p) && s != [] && s[0] == SYNC1
    ensures Frames(p + s) == if TrailingSync(p) % 2 == 0 then Frames(s) else Frames(s[1..])
    decreases |p|
  {
    hide Frames;
    if p == [] {
      assert p + s == s;
    } else {
      var n := SkipsNoise(p, s);
      TrailingDrop(p);
      if n == 2 && |p| == 1 {
        assert (p + s)[2..] == s[1..];
      } else {
        assert (p + s)[n..] == p[n..] + s;
        if n == 2 {
          TrailingDrop(p[1..]);
          assert p[1..][1..] == p[2..];
        }
        NoiseDrop(p, n);
        NoiseSkipped(p[n..], s);
      }
    }
  }

  lemma NoiseDrop(p: seq<uint8>, n: nat)
    requires Noise(p) && n <= |p|
    ensures Noise(p[n..])
  {
    forall i: nat | i < |p[n..]| - 1 && p[n..][i] == SYNC1
      ensures p[n..][i + 1] != SYNC2
    {
      assert p[n + i] == SYNC1;
    }
  }

  /** A frame behind bytes without a sync word is found exactly if the sync bytes before it come in pairs. */
  lemma FrameBehindNoiseIff(p: seq<uint8>, frame: seq<uint8>)
    requires Noise(p) && frame != [] && Next(frame) == Frame(|frame|)
    ensures Frames(p + frame) == [frame] <==> TrailingSync(p) % 2 == 0
    ensures frame in Frames(p + frame) <==> TrailingSync(p) % 2 == 0
  {
    hide PlainHeader, Bsid, FrameBytes;
    assert Frames(frame) == [frame] by { assert frame[..|frame|] == frame && frame[|frame|..] == []; }
    NoiseSkipped(p, frame);
    if frame in Frames(frame[1..]) {
      FrameNoLonger(frame[1..], frame);
    }
  }

  /** Behind the frame a burst holds zeros. */
  lemma PaddingIsZero(frame: seq<uint8>, i: nat)
    requires IsFrame(frame) && 8 + |frame| <= 2 * i < 2 * BURST_WORDS
    ensures Burst(frame)[i] == 0
  {
  }
}
