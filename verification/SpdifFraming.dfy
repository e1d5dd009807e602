/**
 Any stream through the encoder: as long as no write into the burst buffer overflows, or what
 overflows ends its frame, every burst that goes out begins with the sync words.
 */
module SpdifFraming {
  import opened SpdifSpec
  import opened SpdifStream

  // ---- overflows

  predicate Fits(e: Encoder, more: nat) {
    |e.burst| + more <= BUFFER_BYTES
  }

  /** No write into the burst buffer overflows. */
  predicate Fitting(e: Encoder, data: seq<uint8>)
    decreases |data|, if e.scanning then 0 else 1
  {
    if data == [] then true
    else if e.scanning then HeaderFits(e, data[0]) && Fitting(ScanStep(e, data[0]), data[1..])
    else
      var n := Chunk(e, |data|);
      Fits(e, n) && Fitting(PayloadStep(e, data[..n]), data[n..])
  }

  predicate HeaderFits(e: Encoder, byte: uint8) {
    var (framer, found) := Scan(e.framer, byte);
    found && e.burst != [] && !IsFirstInBurst(framer) ==> Fits(e, HEADER_LENGTH)
  }

  /** Bytes of a frame to come that can all be written into the empty buffer without its preamble. */
  predicate Adrift(e: Encoder) {
    !e.scanning && e.pending > 0 && !(IsLastInBurst(e.framer) && e.pending <= PREAMBLE_SIZE)
  }

  /** If a write overflows, no more than the end of a plain frame too short to go out is still to come. */
  predicate Clean(e: Encoder, data: seq<uint8>)
    decreases |data|, if e.scanning then 0 else 1
  {
    if data == [] then true
    else if e.scanning then
      && (!HeaderFits(e, data[0]) ==> !Adrift(ScanStep(e, data[0])))
      && Clean(ScanStep(e, data[0]), data[1..])
    else
      var n := Chunk(e, |data|);
      && (!Fits(e, n) ==> !Adrift(PayloadStep(e, data[..n])))
      && Clean(PayloadStep(e, data[..n]), data[n..])
  }

  lemma {:induction false} FittingIsClean(e: Encoder, data: seq<uint8>)
    requires Fitting(e, data)
    ensures Clean(e, data)
    decreases |data|, if e.scanning then 0 else 1
  {
    hide ScanStep, PayloadStep, HeaderFits, Adrift, Fits;
    if data != [] {
      if e.scanning {
        FittingIsClean(ScanStep(e, data[0]), data[1..]);
      } else {
        var n := Chunk(e, |data|);
        if n == 0 {
          PayloadEnds(e, data[..n]);
        }
        FittingIsClean(PayloadStep(e, data[..n]), data[n..]);
      }
    }
  }

  const SYNC_BYTES: seq<uint8> := [0xF8, 0x72, 0x4E, 0x1F]

  /** A burst of one of the two sizes, beginning with the sync words. */
  predicate Framed(w: seq<uint16>) {
    (|w| == 3072 || |w| == 12288) && w[0] == SPDIF_SYNC1 && w[1] == SPDIF_SYNC2
  }

  predicate AllFramed(out: seq<seq<uint16>>) {
    forall w :: w in out ==> Framed(w)
  }

  predicate Ready(e: Encoder) {
    && (e.burst == [] || (|e.burst| >= PREAMBLE_SIZE && e.burst[..4] == SYNC_BYTES))
    && (e.framer.rateMultiplier == 1 || e.framer.rateMultiplier == 4)
    && AllFramed(e.out)
  }

  lemma FlushFrames(e: Encoder)
    requires Ready(e)
    ensures Ready(Flush(e)) && Flush(e).burst == []
  {
    hide LengthCode, ResetBurst, High, Low;
    ResetKeeps(e.framer);
    if |e.burst| > PREAMBLE_SIZE && |e.burst| <= BurstBytes(e.framer) {
      var code := LengthCode(e.framer, (|e.burst| - PREAMBLE_SIZE) % 0x1_0000);
      SyncWords(e.burst, code, BurstBytes(e.framer) / 2);
    }
  }

  lemma SyncWords(burst: seq<uint8>, code: uint16, words: nat)
    requires |burst| >= PREAMBLE_SIZE && burst[..4] == SYNC_BYTES && (words == 3072 || words == 12288)
    ensures Framed(Packed(burst[6 := High(code)][7 := Low(code)], words))
  {
    hide High, Low;
    assert burst[0] == SYNC_BYTES[0] && burst[1] == SYNC_BYTES[1] && burst[2] == SYNC_BYTES[2] && burst[3] == SYNC_BYTES[3];
  }

  lemma ParseKeepsRate(f: Framer)
    requires f.rateMultiplier == 1 || f.rateMultiplier == 4
    ensures ParseHeader(f).0.rateMultiplier == 1 || ParseHeader(f).0.rateMultiplier == 4
  {
    hide FrameWords, Counted, BlocksPerFrame;
  }

  lemma ScanKeepsRate(f: Framer, byte: uint8)
    requires f.rateMultiplier == 1 || f.rateMultiplier == 4
    ensures Scan(f, byte).0.rateMultiplier == 1 || Scan(f, byte).0.rateMultiplier == 4
  {
    hide ParseHeader;
    if 2 <= f.cursor < HEADER_LENGTH {
      ParseKeepsRate(f.(header := f.header[f.cursor := byte], cursor := f.cursor + 1));
    }
  }

  lemma StartIsReady(e: Encoder)
    requires Ready(e) && e.burst == []
    ensures Ready(StartBurst(e)) && |StartBurst(e).burst| == PREAMBLE_SIZE
    ensures StartBurst(e).framer == e.framer
  {
    hide AllFramed, BurstInfo;
  }

  lemma WriteIsReady(e: Encoder, chunk: seq<uint8>)
    requires Ready(e) && (e.burst != [] || chunk == []) && Fits(e, |chunk|)
    ensures Ready(WriteBytes(e, chunk))
  {
    hide AllFramed;
    assert e.burst != [] ==> (e.burst + chunk)[..4] == e.burst[..4];
  }

  lemma StartFrameIsReady(e: Encoder)
    requires Ready(e) && (e.burst != [] && !IsFirstInBurst(e.framer) ==> Fits(e, HEADER_LENGTH))
    ensures Ready(StartFrame(e)) && (StartFrame(e).burst != [])
  {
    hide StartBurst, Flush, IsFirstInBurst, AllFramed;
    if e.burst == [] {
      StartIsReady(e);
      WriteIsReady(StartBurst(e), e.framer.header);
    } else if IsFirstInBurst(e.framer) {
      FlushFrames(e);
      StartIsReady(Flush(e));
      WriteIsReady(StartBurst(Flush(e)), e.framer.header);
    } else {
      WriteIsReady(e, e.framer.header);
    }
  }

  // ---- what every step keeps

  const MAX_PAYLOAD: int := 4090

  /** Inside a frame, what is still to come is no more than the longest frame. */
  predicate Regular(e: Encoder) {
    && (e.framer.rateMultiplier == 1 || e.framer.rateMultiplier == 4)
    && (!e.scanning ==> e.framer.cursor == 0 && e.pending <= MAX_PAYLOAD)
  }

  lemma ParseSize(f: Framer)
    ensures ParseHeader(f).1 ==> HEADER_LENGTH <= ParseHeader(f).0.frameSize <= 4096
    ensures ParseHeader(f).0.cursor == f.cursor
  {
    hide Counted, BlocksPerFrame;
  }

  lemma ScanSize(f: Framer, byte: uint8)
    requires Scan(f, byte).1
    ensures HEADER_LENGTH <= Scan(f, byte).0.frameSize <= 4096 && Scan(f, byte).0.cursor == 0
  {
    hide ParseHeader;
    ParseSize(f.(header := f.header[f.cursor := byte], cursor := f.cursor + 1));
  }

  lemma FlushRegular(e: Encoder)
    ensures Flush(e).framer == ResetBurst(e.framer) && Flush(e).scanning && Flush(e).burst == []
    ensures |e.burst| <= PREAMBLE_SIZE ==> Flush(e).out == e.out
  {
    hide ResetBurst, Packed, LengthCode, BurstBytes;
  }

  lemma StartFrameRegular(e: Encoder)
    ensures var e' := StartFrame(e);
            && !e'.scanning && e'.pending == (if e.framer.frameSize < HEADER_LENGTH then 0 else e.framer.frameSize - HEADER_LENGTH)
            && e'.framer.cursor == e.framer.cursor && e'.framer.rateMultiplier == e.framer.rateMultiplier
  {
    hide Flush, BurstInfo, IsFirstInBurst;
    FlushRegular(e);
    ResetKeeps(e.framer);
  }

  lemma ScanStepRegular(e: Encoder, byte: uint8)
    requires Regular(e) && e.scanning
    ensures Regular(ScanStep(e, byte))
  {
    hide Scan, StartFrame;
    ScanKeepsRate(e.framer, byte);
    var (framer, found) := Scan(e.framer, byte);
    if found {
      ScanSize(e.framer, byte);
      StartFrameRegular(e.(framer := framer));
    }
  }

  lemma PayloadStepRegular(e: Encoder, chunk: seq<uint8>)
    requires Regular(e) && !e.scanning && |chunk| <= e.pending
    ensures Regular(PayloadStep(e, chunk))
  {
    hide Flush, ResetBurst;
    FlushRegular(WriteBytes(e, chunk).(pending := e.pending - |chunk|));
    ResetKeeps(e.framer);
  }

  // ---- bursts are framed

  /** The rest of a plain frame that is too short to go out. */
  predicate Doomed(e: Encoder) {
    !e.scanning && IsLastInBurst(e.framer) && |e.burst| + e.pending <= PREAMBLE_SIZE
  }

  predicate Steady(e: Encoder) {
    Regular(e) && AllFramed(e.out) && (Doomed(e) || (Ready(e) && (e.scanning || e.burst != [] || e.pending == 0)))
  }

  lemma ScanStepSteady(e: Encoder, byte: uint8)
    requires Steady(e) && e.scanning && (!HeaderFits(e, byte) ==> !Adrift(ScanStep(e, byte)))
    ensures Steady(ScanStep(e, byte))
  {
    hide Scan, StartFrame, AllFramed, IsFirstInBurst;
    ScanStepRegular(e, byte);
    ScanKeepsRate(e.framer, byte);
    var (framer, found) := Scan(e.framer, byte);
    if found {
      StartFrameRegular(e.(framer := framer));
      if HeaderFits(e, byte) {
        StartFrameIsReady(e.(framer := framer));
      } else {
        HeaderLost(e.(framer := framer));
      }
    }
  }

  lemma HeaderLost(e: Encoder)
    requires e.burst != [] && !IsFirstInBurst(e.framer) && !Fits(e, HEADER_LENGTH)
    ensures StartFrame(e).burst == [] && StartFrame(e).out == e.out && StartFrame(e).framer == e.framer
  {
    hide IsFirstInBurst, StartBurst, Flush;
  }

  lemma PayloadStepSteady(e: Encoder, chunk: seq<uint8>)
    requires Steady(e) && !e.scanning && |chunk| <= e.pending && (chunk == [] ==> e.pending == 0)
    requires !Fits(e, |chunk|) ==> !Adrift(PayloadStep(e, chunk))
    ensures Steady(PayloadStep(e, chunk))
  {
    hide Flush, AllFramed, Regular;
    PayloadStepRegular(e, chunk);
    RegularRate(e);
    var e1 := WriteBytes(e, chunk).(pending := e.pending - |chunk|);
    FlushRegular(e1);
    ResetKeeps(e1.framer);
    if Doomed(e) || !Fits(e, |chunk|) {
      assert |e1.burst| <= PREAMBLE_SIZE by { assert !Fits(e, |chunk|) ==> WriteBytes(e, chunk).burst == []; }
    } else {
      WriteIsReady(e, chunk);
      FlushFrames(e1);
    }
  }

  lemma RegularRate(e: Encoder)
    requires Regular(e)
    ensures e.framer.rateMultiplier == 1 || e.framer.rateMultiplier == 4
  {
  }

  /** Whatever the stream, every burst that goes out is framed, as long as all overflows are harmless. */
  lemma {:induction false} CleanRunIsFramed(e: Encoder, data: seq<uint8>)
    requires Steady(e) && Clean(e, data)
    ensures Steady(Encode(e, data)) && AllFramed(Encode(e, data).out)
    decreases |data|, if e.scanning then 0 else 1
  {
    hide ScanStep, PayloadStep, HeaderFits, Fits, Adrift, Steady, AllFramed;
    if data == [] {
      SteadyIsFramed(e);
    } else if e.scanning {
      ScanStepSteady(e, data[0]);
      CleanRunIsFramed(ScanStep(e, data[0]), data[1..]);
    } else {
      var n := Chunk(e, |data|);
      if n == 0 {
        PayloadEnds(e, data[..n]);
      }
      PayloadStepSteady(e, data[..n]);
      CleanRunIsFramed(PayloadStep(e, data[..n]), data[n..]);
    }
  }

  lemma SteadyIsFramed(e: Encoder)
    requires Steady(e)
    ensures AllFramed(e.out)
  {
  }

  /** The two runs overflow in the same way. */
  predicate SameFit(e: Encoder, s: seq<uint8>, e': Encoder, s': seq<uint8>) {
    Fitting(e, s) == Fitting(e', s') && Clean(e, s) == Clean(e', s')
  }

  lemma FitOne(e: Encoder, s: seq<uint8>)
    requires e.scanning && s != [] && HeaderFits(e, s[0])
    ensures SameFit(e, s, ScanStep(e, s[0]), s[1..])
  {
    hide ScanStep, HeaderFits, Adrift;
  }

  lemma {:induction false} GatherFits(e: Encoder, s: seq<uint8>, k: nat)
    requires AtGap(e) && k < 6 && k <= |s| && Synced(s, k)
    ensures SameFit(e, s, Gathered(e, s, k), s[k..])
  {
    hide Fitting, Clean, ScanStep, HeaderFits;
    if k == 0 {
      assert s[..0] + e.framer.header[0..] == e.framer.header && s[0..] == s;
    } else {
      GatherFits(e, s, k - 1);
      GatherStep(e, s, k - 1);
      GatherHeaderFits(e, s, k - 1);
      FitOne(Gathered(e, s, k - 1), s[k - 1..]);
      assert s[k - 1..][1..] == s[k..];
    }
  }

  lemma GatherHeaderFits(e: Encoder, s: seq<uint8>, k: nat)
    requires AtGap(e) && k < 5 && k < |s| && Synced(s, k + 1)
    ensures HeaderFits(Gathered(e, s, k), s[k])
  {
    hide ParseHeader, IsFirstInBurst;
  }

  /** A stream that does not overflow may be cut anywhere. */
  lemma {:induction false} FittingCut(e: Encoder, a: seq<uint8>, b: seq<uint8>)
    requires Fitting(e, a + b)
    ensures CutSafe(e, a)
    decreases |a|, if e.scanning then 0 else 1
  {
    hide ScanStep, PayloadStep, HeaderFits;
    if a != [] {
      if e.scanning {
        assert (a + b)[1..] == a[1..] + b;
        FittingCut(ScanStep(e, a[0]), a[1..], b);
      } else if |a| >= e.pending {
        var n := e.pending;
        PayloadEnds(e, a[..n]);
        assert (a + b)[..n] == a[..n];
        assert (a + b)[n..] == a[n..] + b;
        FittingCut(PayloadStep(e, a[..n]), a[n..], b);
      }
    }
  }

  /** If a stream does not overflow in one write, it has the same output and state in any division into writes. */
  lemma {:induction false} FittingWrites(e: Encoder, writes: seq<seq<uint8>>, rest: seq<uint8>)
    requires Fitting(e, Concat(writes) + rest)
    ensures EncodeAll(e, writes) == Encode(e, Concat(writes))
    decreases |writes|
  {
    hide Encode, CutSafe, Fitting;
    if writes == [] {
      EncodeNothing(e, []);
    } else {
      var before, last := writes[..|writes| - 1], writes[|writes| - 1];
      assert Concat(writes) + rest == Concat(before) + (last + rest);
      FittingWrites(e, before, last + rest);
      FittingCut(e, Concat(before), last + rest);
      EncodeAppend(e, Concat(before), last);
    }
  }
}
