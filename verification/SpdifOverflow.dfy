/**
 What an overflow of the burst buffer does: exactly which ones can spoil a burst, on the bytes
 of any stream and on the frame sizes of an E-AC-3 stream, and streams in which they do.
 */
module SpdifOverflow {
  import opened SpdifSpec
  import opened SpdifStream
  import opened SpdifFraming
  import opened SpdifGroups

  /** Whatever follows without overflowing, all bursts are framed. */
  ghost predicate Safe(e: Encoder) {
    forall b: seq<uint8> :: Fitting(e, b) ==> AllFramed(Encode(e, b).out)
  }

  /** So at every moment of the write of data. */
  ghost predicate AlwaysFramed(e: Encoder, data: seq<uint8>)
    decreases |data|, if e.scanning then 0 else 1
  {
    Safe(e) &&
    if data == [] then true
    else if e.scanning then AlwaysFramed(ScanStep(e, data[0]), data[1..])
    else
      var n := Chunk(e, |data|);
      AlwaysFramed(PayloadStep(e, data[..n]), data[n..])
  }

  // ---- an overflow inside a frame spoils a burst

  /** An independent frame of six blocks for substream 0, and a dependent frame, headers alone. */
  const INDEPENDENT: seq<uint8> := [0x0B, 0x77, 0x00, 0x02, 0x30, 0x80]
  const DEPENDENT: seq<uint8> := [0x0B, 0x77, 0x40, 0x02, 0x30, 0x80]

  lemma ShortFrames(eac3: bool)
    ensures IsGroupFrame(eac3, INDEPENDENT) && Blocks(INDEPENDENT) == 6
    ensures IsGroupFrame(eac3, DEPENDENT) && Blocks(DEPENDENT) == 0
  {
  }

  /** A burst without preamble has gone out or, from bytes in the buffer, is about to. */
  predicate Spoiling(e: Encoder, n: nat) {
    && Gap(e) && |e.burst| <= n <= 20000
    && (!AllFramed(e.out) || (|e.burst| > PREAMBLE_SIZE && e.burst[0] == 0))
  }

  lemma RawIsUnframed(out: seq<seq<uint16>>, burst: seq<uint8>)
    requires PREAMBLE_SIZE < |burst| <= BUFFER_BYTES && burst[0] == 0
    ensures !AllFramed(out + Flushed(burst))
  {
    hide Packed, High, Low, Framed;
    var n: uint16 := |burst| - PREAMBLE_SIZE;
    RawWord(burst, High(n), Low(n), 12288);
    var w := Packed(burst[6 := High(n)][7 := Low(n)], 12288);
    assert (out + [w])[|out|] == w;
  }

  lemma RawWord(burst: seq<uint8>, high: uint8, low: uint8, words: nat)
    requires PREAMBLE_SIZE < |burst| && burst[0] == 0 && words > 0
    ensures !Framed(Packed(burst[6 := high][7 := low], words))
  {
  }

  lemma KeepsUnframed(out: seq<seq<uint16>>, more: seq<seq<uint16>>)
    requires !AllFramed(out)
    ensures !AllFramed(out + more)
  {
    hide Framed;
    var w :| w in out && !Framed(w);
    assert w in out + more;
  }

  lemma SpoilStep(e: Encoder, n: nat, rest: seq<uint8>) returns (e': Encoder)
    requires Spoiling(e, n) && n <= 19000
    ensures Spoiling(e', n + 14)
    ensures SameRun(e, INDEPENDENT + rest, e', rest) && Fitting(e, INDEPENDENT + rest) == Fitting(e', rest)
    ensures AllFramed(e'.out) ==> AllFramed(e.out)
    ensures AllFramed(e'.out) ==> e'.framer.counts[0] == (e.framer.counts[0] as int + 6) % 256 <= 6
  {
    hide Encode, CutSafe, Fitting, Clean, AllFramed, Flushed, Blocks, IsGroupFrame, SameRun, FrameLost;
    ShortFrames(e.framer.eac3);
    e' := FrameRun(e, INDEPENDENT, rest);
    if !AllFramed(e.out) {
      KeepsUnframed(e.out, Flushed(e.burst));
      assert e.out + [] == e.out;
    } else {
      RawIsUnframed(e.out, e.burst);
    }
  }

  /** A dependent frame comes behind what is in the buffer. */
  lemma DependentStep(e: Encoder, rest: seq<uint8>) returns (e': Encoder)
    requires Gap(e) && 0 < |e.burst| <= 18000 && e.burst[0] == 0
    ensures Gap(e') && |e'.burst| == |e.burst| + 6 && e'.burst[0] == 0
    ensures SameRun(e, DEPENDENT + rest, e', rest) && Fitting(e, DEPENDENT + rest) == Fitting(e', rest)
  {
    hide Encode, CutSafe, Fitting, Clean, Flushed, Blocks, IsGroupFrame, SameRun, FrameLost;
    ShortFrames(e.framer.eac3);
    e' := FrameRun(e, DEPENDENT, rest);
  }

  /** Two dependent frames make the bytes in the buffer a burst; three independent ones send it. */
  const WITNESS: seq<uint8> := DEPENDENT + (DEPENDENT + (INDEPENDENT + (INDEPENDENT + (INDEPENDENT + []))))

  lemma RawGoesOut(e: Encoder)
    requires Gap(e) && 0 < |e.burst| <= 5000 && e.burst[0] == 0
    ensures Fitting(e, WITNESS) && !AllFramed(Encode(e, WITNESS).out)
  {
    hide Encode, CutSafe, Fitting, AllFramed;
    var e1 := DependentStep(e, DEPENDENT + (INDEPENDENT + (INDEPENDENT + (INDEPENDENT + []))));
    var e2 := DependentStep(e1, INDEPENDENT + (INDEPENDENT + (INDEPENDENT + [])));
    var e3 := SpoilStep(e2, 6000, INDEPENDENT + (INDEPENDENT + []));
    var e4 := SpoilStep(e3, 6014, INDEPENDENT + []);
    var e5 := SpoilStep(e4, 6028, []);
    EncodeNothing(e5, []);
    FitsNothing(e5);
  }

  lemma FitsNothing(e: Encoder)
    ensures Fitting(e, [])
  {
  }

  /** The rest of the frame, all zeros. */
  lemma RestOfZeros(e: Encoder, rest: seq<uint8>)
    requires Regular(e) && !e.scanning && e.pending > 0 && e.burst == []
    ensures
      var e' := PayloadStep(e, Zeros(e.pending));
      && Encode(e, Zeros(e.pending) + rest) == Encode(e', rest) && Fitting(e, Zeros(e.pending) + rest) == Fitting(e', rest)
  {
    hide PayloadStep, Encode, Fitting, CutSafe;
    var s := Zeros(e.pending) + rest;
    assert s[..e.pending] == Zeros(e.pending) && s[e.pending..] == rest;
    EncodePayload(e, s);
    PayloadFitting(e, s);
  }

  /** A plain frame goes out at once. */
  lemma PlainRestUnframed(e: Encoder)
    requires Regular(e) && !e.scanning && e.burst == [] && IsLastInBurst(e.framer) && e.pending > PREAMBLE_SIZE
    ensures !AllFramed(PayloadStep(e, Zeros(e.pending)).out)
  {
    hide Packed, High, Low, LengthCode, Framed;
    var zeros, size := Zeros(e.pending), BurstBytes(e.framer);
    assert [] + zeros == zeros;
    var code := LengthCode(e.framer, (|zeros| - PREAMBLE_SIZE) % 0x1_0000);
    RawWord(zeros, High(code), Low(code), size / 2);
    var w := Packed(zeros[6 := High(code)][7 := Low(code)], size / 2);
    assert (e.out + [w])[|e.out|] == w;
  }

  lemma EnhancedRestRaw(e: Encoder)
    requires Regular(e) && !e.scanning && e.burst == [] && !IsLastInBurst(e.framer) && e.pending > 0
    ensures
      var e' := PayloadStep(e, Zeros(e.pending));
      Gap(e') && 0 < |e'.burst| <= 5000 && e'.burst[0] == 0
  {
    hide Flush;
    assert [] + Zeros(e.pending) == Zeros(e.pending);
  }

  /** Inside a frame whose beginning was dropped, some bytes to come make up a burst without preamble. */
  lemma AdriftIsUnsafe(e: Encoder) returns (b: seq<uint8>)
    requires Regular(e) && Adrift(e) && e.burst == []
    ensures Fitting(e, b) && !AllFramed(Encode(e, b).out)
  {
    hide PayloadStep, Encode, Fitting, AllFramed, Regular;
    var zeros := Zeros(e.pending);
    if IsLastInBurst(e.framer) {
      b := zeros + [];
      RestOfZeros(e, []);
      PlainRestUnframed(e);
      EncodeNothing(PayloadStep(e, zeros), []);
      FitsNothing(PayloadStep(e, zeros));
    } else {
      b := zeros + WITNESS;
      RestOfZeros(e, WITNESS);
      EnhancedRestRaw(e);
      RawGoesOut(PayloadStep(e, zeros));
    }
  }

  // ---- exactly which overflows are harmless

  lemma SteadyIsSafe(e: Encoder)
    requires Steady(e)
    ensures Safe(e)
  {
    hide Encode, Fitting, Clean, Steady, AllFramed;
    forall b: seq<uint8> | Fitting(e, b)
      ensures AllFramed(Encode(e, b).out)
    {
      FittingIsClean(e, b);
      CleanRunIsFramed(e, b);
    }
  }

  lemma AdriftIsNotSafe(e: Encoder)
    requires Regular(e) && Adrift(e) && e.burst == []
    ensures !Safe(e)
  {
    hide Encode, Fitting, AllFramed, Regular, Adrift;
    var b := AdriftIsUnsafe(e);
  }

  lemma HeaderSpills(e: Encoder, byte: uint8)
    requires Steady(e) && e.scanning && !HeaderFits(e, byte)
    ensures Regular(ScanStep(e, byte)) && ScanStep(e, byte).burst == []
  {
    hide Scan, StartFrame, IsFirstInBurst, AllFramed;
    ScanStepRegular(e, byte);
    HeaderLost(e.(framer := Scan(e.framer, byte).0));
  }

  lemma PayloadSpills(e: Encoder, chunk: seq<uint8>)
    requires Steady(e) && !e.scanning && |chunk| <= e.pending && !Fits(e, |chunk|) && Adrift(PayloadStep(e, chunk))
    ensures Regular(PayloadStep(e, chunk)) && PayloadStep(e, chunk).burst == []
  {
    hide Flush, AllFramed;
    PayloadStepRegular(e, chunk);
    FlushRegular(WriteBytes(e, chunk).(pending := e.pending - |chunk|));
  }

  /**
   At every moment of a write, whatever follows without an overflow gives framed bursts alone,
   exactly if each overflow ends its frame, or leaves no more than 8 bytes of a plain frame.
   */
  lemma {:induction false} AlwaysFramedIff(e: Encoder, data: seq<uint8>)
    requires Steady(e)
    ensures AlwaysFramed(e, data) <==> Clean(e, data)
    decreases |data|, if e.scanning then 0 else 1
  {
    hide Steady, Safe, ScanStep, PayloadStep, HeaderFits, Fits, Adrift;
    SteadyIsSafe(e);
    if data != [] && e.scanning {
      var e' := ScanStep(e, data[0]);
      if !HeaderFits(e, data[0]) && Adrift(e') {
        HeaderSpills(e, data[0]);
        AdriftIsNotSafe(e');
        NotSafe(e', data[1..]);
      } else {
        ScanStepSteady(e, data[0]);
        AlwaysFramedIff(e', data[1..]);
      }
    } else if data != [] {
      var n := Chunk(e, |data|);
      if n == 0 {
        PayloadEnds(e, data[..n]);
      }
      var e' := PayloadStep(e, data[..n]);
      if !Fits(e, n) && Adrift(e') {
        PayloadSpills(e, data[..n]);
        AdriftIsNotSafe(e');
        NotSafe(e', data[n..]);
      } else {
        PayloadStepSteady(e, data[..n]);
        AlwaysFramedIff(e', data[n..]);
      }
    }
  }

  lemma NotSafe(e: Encoder, data: seq<uint8>)
    requires !Safe(e)
    ensures !AlwaysFramed(e, data)
  {
    hide Safe;
  }

  /** A new encoder meets what these results, and those on plain and on E-AC-3 streams, require. */
  lemma NewEncoder(eac3: bool)
    ensures Steady(Initial(eac3)) && Fresh(Initial(eac3)) && (!eac3 ==> Idle(Initial(eac3)))
  {
  }

  // ---- the same for E-AC-3 frames, by their sizes

  const EMPTY: Fill := Fill(0, 0, true, true)

  /** When frame k comes, the buffer has no room for its header, and the frame starts no burst and has more than a header. */
  predicate HeaderLostAt(fs: seq<seq<uint8>>, k: nat)
    requires k < |fs| && forall i: nat :: i < |fs| ==> |fs[i]| >= 6
  {
    var s := Filling(EMPTY, fs[..k]);
    s.level > 0 && !First(s.count, fs[k]) && s.level + HEADER_LENGTH > BUFFER_BYTES && |fs[k]| > HEADER_LENGTH
  }

  lemma {:induction false} FillingClean(fs: seq<seq<uint8>>)
    requires forall i: nat :: i < |fs| ==> |fs[i]| >= 6
    ensures Filling(EMPTY, fs).clean <==> forall k: nat :: k < |fs| ==> !HeaderLostAt(fs, k)
    decreases |fs|
  {
    hide HeaderLostAt, Poured;
    if fs != [] {
      var n := |fs| - 1;
      var before := fs[..n];
      FillingClean(before);
      PouredClean(Filling(EMPTY, before), fs[n]);
      assert HeaderLostAt(fs, n) == !PouredKeeps(Filling(EMPTY, before), fs[n]) by { LostAtEnd(fs); }
      forall k: nat | k < n
        ensures HeaderLostAt(fs, k) == HeaderLostAt(before, k)
      {
        LostAtPrefix(fs, n, k);
      }
    }
  }

  predicate PouredKeeps(s: Fill, f: seq<uint8>)
    requires |f| >= 6
  {
    !(s.level > 0 && !First(s.count, f) && s.level + HEADER_LENGTH > BUFFER_BYTES && |f| > HEADER_LENGTH)
  }

  lemma PouredClean(s: Fill, f: seq<uint8>)
    requires |f| >= 6
    ensures Poured(s, f).clean == (s.clean && PouredKeeps(s, f))
  {
    hide First, CountWith;
  }

  lemma LostAtEnd(fs: seq<seq<uint8>>)
    requires fs != [] && forall i: nat :: i < |fs| ==> |fs[i]| >= 6
    ensures HeaderLostAt(fs, |fs| - 1) == !PouredKeeps(Filling(EMPTY, fs[..|fs| - 1]), fs[|fs| - 1])
  {
    hide First, Filling;
  }

  lemma LostAtPrefix(fs: seq<seq<uint8>>, n: nat, k: nat)
    requires k < n <= |fs| && forall i: nat :: i < |fs| ==> |fs[i]| >= 6
    ensures HeaderLostAt(fs, k) == HeaderLostAt(fs[..n], k)
  {
    hide First, Filling;
    assert fs[..n][..k] == fs[..k];
  }

  /**
   Frames of E-AC-3 from an empty buffer on: all bursts are framed whatever follows exactly if
   no frame comes when there is no room for its header.
   */
  lemma FramesAlwaysFramedIff(e: Encoder, fs: seq<seq<uint8>>)
    requires Fresh(e) && Steady(e) && GroupFrames(e.framer.eac3, fs)
    ensures forall i: nat :: i < |fs| ==> |fs[i]| >= 6
    ensures AlwaysFramed(e, Concat(fs)) <==> forall k: nat :: k < |fs| ==> !HeaderLostAt(fs, k)
  {
    hide AlwaysFramed, Clean, Steady, HeaderLostAt, Filling, Fitting, Encode, CutSafe, IsGroupFrame, Concat;
    FramesLong(e.framer.eac3, fs);
    AlwaysFramedIff(e, Concat(fs));
    var e' := FillRun(e, fs, []);
    assert Concat(fs) + [] == Concat(fs);
    CleanNothing(e');
    FillingClean(fs);
  }

  lemma CleanNothing(e: Encoder)
    ensures Clean(e, []) && Fitting(e, [])
  {
  }

  // ---- streams that go wrong

  /** An independent (type 0) or dependent (type 1) frame of substream 0 with six blocks and an empty payload. */
  function LongFrame(kind: nat, size: nat): (f: seq<uint8>)
    requires kind < 2 && (size == 4094 || size == 4090)
    ensures |f| == size
  {
    [0x0B, 0x77, kind * 64 + 7, if size == 4094 then 0xFE else 0xFC, 0x30, 0x80] + Zeros(size - 6)
  }

  lemma LongFrameIs(eac3: bool, kind: nat, size: nat)
    requires kind < 2 && (size == 4094 || size == 4090)
    ensures IsGroupFrame(eac3, LongFrame(kind, size)) && Blocks(LongFrame(kind, size)) == if kind == 0 then 6 else 0
    ensures LongFrame(kind, size)[6..] == Zeros(size - 6)
  {
    assert LongFrame(kind, size)[..6] == [0x0B, 0x77, kind * 64 + 7, if size == 4094 then 0xFE else 0xFC, 0x30, 0x80];
  }

  /** One independent frame and k dependent ones. */
  function Program(size: nat, k: nat): (fs: seq<seq<uint8>>)
    requires size == 4094 || size == 4090
    ensures |fs| == k + 1 && forall i: nat :: i < |fs| ==> |fs[i]| == size
  {
    if k == 0 then [LongFrame(0, size)] else Program(size, k - 1) + [LongFrame(1, size)]
  }

  lemma {:induction false} ProgramFrames(eac3: bool, size: nat, k: nat)
    requires size == 4094 || size == 4090
    ensures GroupFrames(eac3, Program(size, k))
  {
    hide IsGroupFrame, LongFrame;
    LongFrameIs(eac3, if k == 0 then 0 else 1, size);
    if k > 0 {
      ProgramFrames(eac3, size, k - 1);
    }
  }

  lemma PouredLong(level: nat, size: nat)
    requires size == 4094 || size == 4090
    ensures Poured(EMPTY, LongFrame(0, size)) == Fill(8 + size, 6, true, true)
    ensures 0 < level && level + size <= BUFFER_BYTES ==>
              Poured(Fill(level, 6, true, true), LongFrame(1, size)) == Fill(level + size, 6, true, true)
  {
    hide LongFrame, Blocks;
    LongFrameIs(true, 0, size);
    LongFrameIs(true, 1, size);
  }

  lemma {:induction false} ProgramFills(size: nat, k: nat)
    requires (size == 4094 || size == 4090) && k <= 5
    ensures Filling(EMPTY, Program(size, k)) == Fill(8 + size + k * size, 6, true, true)
  {
    hide LongFrame, Poured;
    PouredLong(8 + size + (k - 1) * size, size);
    if k == 0 {
      assert Program(size, 0)[..0] == [];
    } else {
      ProgramFills(size, k - 1);
      assert Program(size, k)[..k] == Program(size, k - 1);
      assert k * size == (k - 1) * size + size;
    }
  }

  /** Six frames of 4094 bytes fill the burst buffer of a fresh encoder but for four bytes. */
  lemma ProgramRun(e: Encoder, size: nat, rest: seq<uint8>) returns (e': Encoder)
    requires Fresh(e) && (size == 4094 || size == 4090)
    ensures Gap(e') && e'.framer.eac3 == e.framer.eac3 && SameRun(e, Concat(Program(size, 5)) + rest, e', rest)
    ensures |e'.burst| == 8 + 6 * size && e'.framer.counts[0] == 6 && e'.out == e.out
  {
    hide Encode, CutSafe, Fitting, Clean, GroupFrames, IsGroupFrame, Concat, Filling;
    ProgramFrames(e.framer.eac3, size, 5);
    ProgramFills(size, 5);
    e' := GroupRun(e, Program(size, 5), rest);
    ProgramGroups(size, 5);
    assert e.out + GroupBursts([]) == e.out;
  }

  lemma {:induction false} ProgramGroups(size: nat, k: nat)
    requires size == 4094 || size == 4090
    ensures Grouped(Program(size, k)) == Groups([], Program(size, k), 6)
  {
    hide LongFrame, Blocks;
    LongFrameIs(true, if k == 0 then 0 else 1, size);
    if k == 0 {
      assert Program(size, 0)[..0] == [];
    } else {
      ProgramGroups(size, k - 1);
      assert Program(size, k)[..k] == Program(size, k - 1);
    }
  }

  /**
   A seventh frame of 4094 bytes is written without its header over what was there. The next
   independent frame then sends its payload as a burst that has no preamble.
   */
  lemma PayloadSentAsBurst(e: Encoder)
    requires Fresh(e) && e.out == []
    ensures !AllFramed(Encode(e, Concat(Program(4094, 5)) + (LongFrame(1, 4094) + LongFrame(0, 4094))).out)
  {
    hide Encode, CutSafe, Fitting, Clean, GroupFrames, IsGroupFrame, Concat, LongFrame, Program, AllFramed, Flushed, Blocks;
    var d, i := LongFrame(1, 4094), LongFrame(0, 4094);
    LongFrameIs(e.framer.eac3, 0, 4094);
    LongFrameIs(e.framer.eac3, 1, 4094);
    var e6 := ProgramRun(e, 4094, d + i);
    var e7 := FrameRun(e6, d, i);
    assert e7.burst == Zeros(4088) && e7.framer.counts[0] == 6;
    var e8 := FrameRun(e7, i, []);
    assert i + [] == i;
    RawIsUnframed(e7.out, e7.burst);
    EncodeNothing(e8, []);
  }

  /** With frames of 4090 bytes the header of a seventh one fits, and a cut in its payload shows. */
  lemma ReachableUnsafeCut(e: Encoder)
    requires Fresh(e)
    ensures !CutSafe(e, Concat(Program(4090, 5)) + LongFrame(1, 4090)[..36])
  {
    hide Encode, CutSafe, GroupFrames, IsGroupFrame, Concat, LongFrame, Program, Flushed, Blocks, HeaderStep;
    var d := LongFrame(1, 4090);
    var s := d[..36];
    LongFrameIs(e.framer.eac3, 1, 4090);
    var e6 := ProgramRun(e, 4090, s);
    var o := e6.(scanning := true);
    Resume(e6, s);
    GroupFrameParts(e.framer.eac3, d, []);
    assert d + [] == d && s[..6] == d[..6];
    HeaderRun(o, s);
    HeaderEnd(o, d);
    var e7 := HeaderStep(o, d[..6]);
    CutSpills(e7, s[6..]);
  }

  lemma CutSpills(e: Encoder, a: seq<uint8>)
    requires !e.scanning && 0 < |a| < e.pending && Spills(e, a)
    ensures !CutSafe(e, a)
  {
    hide Spills;
  }
}
