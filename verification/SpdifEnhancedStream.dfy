/**
 Any byte stream through an encoder made for E-AC-3: which frames it holds, between whatever
 other bytes, and that their groups go out as bursts.
 */
module SpdifEnhancedStream {
  import opened SpdifSpec
  import opened SpdifStream
  import opened SpdifFraming
  import opened SpdifGroups

  // ---- the frames of a stream

  /** What stands at the front of a stream, for a scanner made for E-AC-3 that is looking for a sync word. */
  function NextFrame(s: seq<uint8>): (t: Token)
    requires s != []
    ensures t.Skip? ==> 0 < t.n <= |s| && t.n <= 6
    ensures t.Frame? ==> 6 <= t.n <= |s| && IsGroupFrame(true, s[..t.n])
    ensures !t.Enhanced?
  {
    if s[0] != SYNC1 then Skip(1)
    else if |s| < 2 then Partial
    else if s[1] != SYNC2 then Skip(2)
    else if |s| < 6 then Partial
    else if !Heads(true, s[..6]) then Skip(6)
    else if |s| < Size(s[..6]) then Partial
    else
      SizeAtLeastHeader(s[..6]);
      assert s[..Size(s[..6])][..6] == s[..6];
      Frame(Size(s[..6]))
  }

  /** An E-AC-3 frame has the size that its header says, and adds 1, 2, 3 or 6 blocks if it is of substream 0. */
  lemma EnhancedFrameAt(s: seq<uint8>)
    requires |s| >= 6 && s[0] == 0x0B && s[1] == 0x77 && 88 <= s[5] <= 135
    ensures
      var size := 2 * (s[2] as int % 8 * 256 + s[3] as int + 1);
      NextFrame(s) == if size < 6 || s[4] >= 240 then Skip(6) else if |s| < size then Partial else Frame(size)
    ensures Blocks(s) ==
      if s[2] / 8 != 0 && s[2] / 8 != 16 then 0
      else if s[4] / 64 == 3 then 6 else [1, 2, 3, 6][s[4] / 16 % 4]
  {
  }

  /** In an E-AC-3 stream, a plain frame is one of substream 0 with six blocks. */
  lemma PlainFrameFound(s: seq<uint8>)
    requires |s| >= 6 && s[0] == 0x0B && s[1] == 0x77 && (s[5] < 88 || s[5] > 135)
    ensures NextFrame(s) == Next(s) && Blocks(s) == 6
  {
    hide FrameWords;
  }

  lemma SizeAtLeastHeader(h: Header)
    requires Heads(true, h)
    ensures HEADER_LENGTH <= Size(h) <= 4096
  {
  }

  /** The frames of a stream, in order; the last one may be unfinished. */
  function FoundFrames(s: seq<uint8>): (fs: seq<seq<uint8>>)
    ensures forall i: nat :: i < |fs| ==> |fs[i]| >= 6
  {
    if s == [] then []
    else match NextFrame(s)
      case Skip(n) => FoundFrames(s[n..])
      case Frame(n) => [s[..n]] + FoundFrames(s[n..])
      case _ => if |s| < 6 then [] else [s]
  }

  lemma FoundFirst(f: seq<uint8>, s: seq<uint8>)
    requires IsGroupFrame(true, f)
    ensures FoundFrames(f + s) == [f] + FoundFrames(s)
  {
    hide Heads, Size;
    assert (f + s)[..6] == f[..6] && (f + s)[..|f|] == f && (f + s)[|f|..] == s;
  }

  lemma {:induction false} ConcatFront(fs: seq<seq<uint8>>)
    requires fs != []
    ensures Concat(fs) == fs[0] + Concat(fs[1..])
    decreases |fs|
  {
    if |fs| > 1 {
      ConcatFront(fs[..|fs| - 1]);
      assert fs[1..][..|fs| - 2] == fs[..|fs| - 1][1..];
    } else {
      assert fs[..0] == [];
    }
  }

  /** Of frames back to back, each is found. */
  lemma {:induction false} AllFound(fs: seq<seq<uint8>>)
    requires GroupFrames(true, fs)
    ensures FoundFrames(Concat(fs)) == fs
    decreases |fs|
  {
    hide IsGroupFrame, FoundFrames;
    if fs == [] {
      assert FoundFrames([]) == [] by { NothingFound(); }
    } else {
      ConcatFront(fs);
      FoundFirst(fs[0], Concat(fs[1..]));
      AllFound(fs[1..]);
    }
  }

  lemma NothingFound()
    ensures FoundFrames([]) == []
  {
  }

  // ---- bytes that are skipped

  /** The encoder has only moved on. */
  predicate MovedOn(e: Encoder, e': Encoder) {
    && AtGap(e') && e'.burst == e.burst && e'.out == e.out
    && e'.framer.eac3 == e.framer.eac3 && e'.framer.counts == e.framer.counts
  }

  lemma InvalidParse(f: Framer)
    requires f.eac3 && !Heads(true, f.header)
    ensures !ParseHeader(f).1
    ensures ParseHeader(f).0.eac3 && ParseHeader(f).0.counts == f.counts
  {
    hide FrameWords, FrameBytes;
  }

  /** The byte that ends what is skipped. */
  lemma SkipByte(e: Encoder, s: seq<uint8>)
    requires AtGap(e) && e.framer.eac3 && s != [] && NextFrame(s).Skip?
    ensures
      var n: nat := NextFrame(s).n;
      n - 1 < |s| && HeaderFits(Gathered(e, s, n - 1), s[n - 1]) && MovedOn(e, ScanStep(Gathered(e, s, n - 1), s[n - 1]))
  {
    hide ParseHeader, StartFrame, IsFirstInBurst, Heads;
    var n: nat := NextFrame(s).n;
    if n == 6 {
      assert (s[..5] + e.framer.header[5..])[5 := s[5]] == s[..6];
      InvalidParse(e.framer.(cursor := 6, header := s[..6]));
    }
  }

  lemma SkipRun(e: Encoder, s: seq<uint8>) returns (e': Encoder)
    requires AtGap(e) && e.framer.eac3 && s != [] && NextFrame(s).Skip?
    ensures MovedOn(e, e') && SameRun(e, s, e', s[NextFrame(s).n..]) && SameFit(e, s, e', s[NextFrame(s).n..])
  {
    hide Encode, CutSafe, Fitting, Clean, ScanStep, HeaderFits, MovedOn, Heads;
    var n: nat := NextFrame(s).n;
    assert Synced(s, n - 1);
    EncodeGathers(e, s, n - 1);
    GatherFits(e, s, n - 1);
    SkipByte(e, s);
    EncodeOne(Gathered(e, s, n - 1), s[n - 1..]);
    FitOne(Gathered(e, s, n - 1), s[n - 1..]);
    assert s[n - 1..][1..] == s[n..];
    e' := ScanStep(Gathered(e, s, n - 1), s[n - 1]);
  }

  // ---- the unfinished item at the end

  /** Less than a header. */
  lemma ShortRest(e: Encoder, s: seq<uint8>)
    requires AtGap(e) && s != [] && |s| < 6 && NextFrame(s).Partial?
    ensures Encode(e, s).out == e.out && Fitting(e, s)
  {
    hide Encode, CutSafe, Fitting, Clean, Heads;
    EncodeGathers(e, s, |s|);
    GatherFits(e, s, |s|);
    assert s[|s|..] == [];
    EncodeNothing(Gathered(e, s, |s|), []);
    FitNothing(Gathered(e, s, |s|));
  }

  lemma FitNothing(e: Encoder)
    ensures Fitting(e, [])
  {
  }

  lemma UnfinishedRest(e: Encoder, rest: seq<uint8>)
    requires !e.scanning && |rest| < e.pending
    ensures Encode(e, rest).out == e.out && (|e.burst| <= BUFFER_BYTES ==> Fitting(e, rest) == Fits(e, |rest|))
  {
    if rest != [] {
      EncodePart(e, rest);
      assert rest[..|rest|] == rest && rest[|rest|..] == [];
    }
  }

  /** A frame that begins with s. */
  function Completed(s: seq<uint8>): seq<uint8>
    requires |s| >= 6
  {
    s + seq(if Size(s[..6]) > |s| then Size(s[..6]) - |s| else 0, _ => 0)
  }

  lemma CompletedIs(e: Encoder, s: seq<uint8>)
    requires |s| >= 6 && NextFrame(s).Partial?
    ensures Synced(s, 2) && Heads(true, s[..6]) && |s| < Size(s[..6]) <= 4096
    ensures
      var f := Completed(s);
      && IsGroupFrame(true, f) && f[..6] == s[..6] && |f| == Size(s[..6])
      && First(e.framer.counts[0], f) == First(e.framer.counts[0], s) && Room(e, f) == Room(e, s)
  {
    hide Heads, Size, BlocksOf, CountWith;
    SizeAtLeastHeader(s[..6]);
    assert Completed(s)[..6] == s[..6];
    assert CountWith(e.framer.counts[0], Completed(s)) == CountWith(e.framer.counts[0], s) by { SameCount(e.framer.counts[0], Completed(s), s); }
  }

  lemma SameCount(count: uint8, f: seq<uint8>, s: seq<uint8>)
    requires |f| >= 6 && |s| >= 6 && f[..6] == s[..6]
    ensures CountWith(count, f) == CountWith(count, s)
  {
    hide BlocksOf;
  }

  /** The beginning of a frame: it may send the burst before it, and counts as a frame of the next. */
  lemma UnfinishedFrame(e: Encoder, s: seq<uint8>)
    requires AtGap(e) && e.framer.eac3 && |e.burst| <= BUFFER_BYTES && |s| >= 6 && NextFrame(s).Partial?
    ensures Fitting(e, s) == FrameFits(e, s)
    ensures Encode(e, s).out == e.out + if e.burst != [] && First(e.framer.counts[0], s) then Flushed(e.burst) else []
  {
    hide Encode, CutSafe, Fitting, Clean, HeaderStep, Heads, Size, First, Flushed, Room, FrameFits, HasRoom, Completed, CountWith,
      EnhancedPreamble, IsGroupFrame;
    var f := Completed(s);
    CompletedIs(e, s);
    HeaderRun(e, s);
    HeaderFit(e, s);
    HeaderEnd(e, f);
    var e1 := HeaderStep(e, s[..6]);
    UnfinishedRest(e1, s[6..]);
    FilledFrom(e, s, e1.burst);
  }

  // ---- the groups of a stream

  /** The groups g, and the frames fs behind them. */
  function Over(g: Groups, fs: seq<seq<uint8>>): Groups
    requires forall i: nat :: i < |fs| ==> |fs[i]| >= 6
    decreases |fs|
  {
    if fs == [] then g else Over(GroupedWith(g, fs[0]), fs[1..])
  }

  lemma {:induction false} OverLast(g: Groups, fs: seq<seq<uint8>>)
    requires fs != [] && forall i: nat :: i < |fs| ==> |fs[i]| >= 6
    ensures Over(g, fs) == GroupedWith(Over(g, fs[..|fs| - 1]), fs[|fs| - 1])
    decreases |fs|
  {
    hide GroupedWith;
    if |fs| > 1 {
      OverLast(GroupedWith(g, fs[0]), fs[1..]);
      assert fs[1..][..|fs| - 2] == fs[..|fs| - 1][1..];
    }
  }

  lemma {:induction false} OverNothing(fs: seq<seq<uint8>>)
    requires forall i: nat :: i < |fs| ==> |fs[i]| >= 6
    ensures Over(Groups([], [], 0), fs) == Grouped(fs)
    decreases |fs|
  {
    hide GroupedWith;
    if fs != [] {
      OverNothing(fs[..|fs| - 1]);
      OverLast(Groups([], [], 0), fs);
    }
  }

  /** Groups that do not fit are not mended by what follows. */
  lemma {:induction false} OverFits(g: Groups, fs: seq<seq<uint8>>)
    requires (forall i: nat :: i < |fs| ==> 6 <= |fs[i]| <= 4096) && GroupsFit(Over(g, fs))
    ensures GroupsFit(g)
    decreases |fs|
  {
    hide GroupsFit, Blocks;
    if fs != [] {
      OverFits(GroupedWith(g, fs[0]), fs[1..]);
      FitsClosed(g, fs[0], g.count + Blocks(fs[0]) - if g.count + Blocks(fs[0]) > 6 then 6 else 0);
      FitsOpen(g, fs[0], g.count + Blocks(fs[0]));
    }
  }

  lemma {:induction false} FoundBounded(s: seq<uint8>)
    ensures forall i: nat :: i < |FoundFrames(s)| ==> 6 <= |FoundFrames(s)[i]| <= 4096
  {
    hide Heads, Size, IsGroupFrame;
    if s != [] {
      var t := NextFrame(s);
      if t.Skip? {
        FoundBounded(s[t.n..]);
      } else if t.Frame? {
        SizeBound(true, s[..t.n]);
        FoundBounded(s[t.n..]);
      } else if |s| >= 6 {
        SizeAtLeastHeader(s[..6]);
      }
    }
  }

  /** With the groups g in the buffer and put out, the frame f fits exactly if the groups with f do. */
  lemma FitsWith(out: seq<seq<uint16>>, g: Groups, e: Encoder, f: seq<uint8>)
    requires GroupState(out, g, e) && 6 <= |f| <= 4096
    ensures GroupsFit(g) && FrameFits(e, f) == GroupsFit(GroupedWith(g, f))
  {
    hide EnhancedPreamble, Concat, GroupBursts, Blocks;
    OpenLevel(out, g, e);
    ConcatSingle([]);
    ConcatOne(g.open, f);
    if g.count + Blocks(f) > 6 {
      FitsClosed(g, f, g.count + Blocks(f) - 6);
    } else {
      FitsOpen(g, f, g.count + Blocks(f));
    }
  }

  /** What the frame f, if only begun, puts out. */
  lemma OutWith(out: seq<seq<uint16>>, g: Groups, e: Encoder, f: seq<uint8>)
    requires GroupState(out, g, e) && |e.burst| <= BUFFER_BYTES && 6 <= |f| <= 4096
    ensures forall i: nat :: i < |GroupedWith(g, f).closed| ==> IsGroup(GroupedWith(g, f).closed[i])
    ensures e.out + (if e.burst != [] && First(e.framer.counts[0], f) then Flushed(e.burst) else [])
      == out + GroupBursts(GroupedWith(g, f).closed)
  {
    hide Blocks, EnhancedPreamble, Concat, GroupBursts, Flushed;
    OpenLevel(out, g, e);
    if g.count + Blocks(f) > 6 {
      FlushedGroup(g.open);
      GroupBurstsOne(g.closed, g.open);
    }
  }

  /** The bursts of the closed groups have gone out. */
  ghost predicate Out(out: seq<seq<uint16>>, g: Groups, all: seq<seq<uint16>>) {
    (forall i: nat :: i < |g.closed| ==> IsGroup(g.closed[i])) && all == out + GroupBursts(g.closed)
  }

  lemma NothingRuns(e: Encoder, out: seq<seq<uint16>>, g: Groups)
    requires GroupState(out, g, e)
    ensures Fitting(e, []) && GroupsFit(g) && FoundFrames([]) == [] && Out(out, g, Encode(e, []).out)
  {
    hide EnhancedPreamble, Concat, GroupBursts;
    OpenLevel(out, g, e);
    ConcatSingle([]);
  }

  lemma StateMoves(out: seq<seq<uint16>>, g: Groups, e: Encoder, e': Encoder)
    requires GroupState(out, g, e) && MovedOn(e.(scanning := true), e') && |e.burst| <= BUFFER_BYTES
    ensures GroupState(out, g, e') && Gap(e') && e'.framer.eac3 == e.framer.eac3
  {
    hide EnhancedPreamble, Concat, GroupBursts;
  }

  lemma StateScans(out: seq<seq<uint16>>, g: Groups, e: Encoder)
    requires GroupState(out, g, e)
    ensures GroupState(out, g, e.(scanning := true))
  {
    hide EnhancedPreamble, Concat, GroupBursts;
  }

  lemma FrameParts(e: Encoder, s: seq<uint8>)
    requires s != [] && NextFrame(s).Frame?
    ensures IsGroupFrame(true, s[..NextFrame(s).n]) && 6 <= NextFrame(s).n <= 4096
  {
    hide Heads, Size;
    SizeBound(true, s[..NextFrame(s).n]);
  }

  lemma OverFront(g: Groups, f: seq<uint8>, fs: seq<seq<uint8>>)
    requires |f| >= 6 && forall i: nat :: i < |fs| ==> |fs[i]| >= 6
    ensures Over(g, [f] + fs) == Over(GroupedWith(g, f), fs)
  {
    hide GroupedWith;
    assert ([f] + fs)[1..] == fs;
  }

  lemma NeverFits(g: Groups, rest: seq<uint8>)
    requires !GroupsFit(g)
    ensures !GroupsFit(Over(g, FoundFrames(rest)))
  {
    hide GroupsFit;
    FoundBounded(rest);
    if GroupsFit(Over(g, FoundFrames(rest))) {
      OverFits(g, FoundFrames(rest));
    }
  }

  lemma LastRuns(e: Encoder, out: seq<seq<uint16>>, g: Groups, s: seq<uint8>)
    requires AtGap(e) && e.framer.eac3 && |e.burst| <= BUFFER_BYTES && s != [] && NextFrame(s).Partial?
    requires GroupState(out, g, e)
    ensures Fitting(e, s) <==> GroupsFit(Over(g, FoundFrames(s)))
    ensures Fitting(e, s) ==> Out(out, Over(g, FoundFrames(s)), Encode(e, s).out)
  {
    hide Encode, Fitting, GroupState, GroupedWith, GroupsFit, NextFrame, First, Flushed, FrameFits, Out;
    if |s| < 6 {
      ShortRest(e, s);
      NothingRuns(e, out, g);
      EncodeNothing(e, []);
    } else {
      CompletedIs(e, s);
      UnfinishedFrame(e, s);
      FitsWith(out, g, e, s);
      OutWith(out, g, e, s);
      OverFront(g, s, []);
      assert [s] + [] == [s];
      assert Out(out, GroupedWith(g, s), Encode(e, s).out) by { IsOut(out, GroupedWith(g, s), Encode(e, s).out); }
    }
  }

  lemma IsOut(out: seq<seq<uint16>>, g: Groups, all: seq<seq<uint16>>)
    requires (forall i: nat :: i < |g.closed| ==> IsGroup(g.closed[i])) && all == out + GroupBursts(g.closed)
    ensures Out(out, g, all)
  {
  }

  lemma {:induction false} StreamRun(e: Encoder, out: seq<seq<uint16>>, g: Groups, s: seq<uint8>)
    requires Gap(e) && e.framer.eac3 && GroupState(out, g, e)
    ensures Fitting(e, s) <==> GroupsFit(Over(g, FoundFrames(s)))
    ensures Fitting(e, s) ==> Out(out, Over(g, FoundFrames(s)), Encode(e, s).out)
    decreases |s|
  {
    hide Encode, CutSafe, Fitting, Clean, IsGroupFrame, FrameFits, GroupState, GroupedWith, GroupsFit, NextFrame, Out, FrameStep,
      MovedOn, First, Flushed;
    if s == [] {
      NothingRuns(e, out, g);
    } else {
      var o := e.(scanning := true);
      Resume(e, s);
      match NextFrame(s)
      case Skip(n) =>
        var e' := SkipRun(o, s);
        StateMoves(out, g, e, e');
        StreamRun(e', out, g, s[n..]);
      case Frame(n) =>
        var f, rest := s[..n], s[n..];
        assert s == f + rest;
        FrameParts(e, s);
        var e' := FrameRun(e, f, rest);
        FitsWith(out, g, e, f);
        OverFront(g, f, FoundFrames(rest));
        if FrameFits(e, f) {
          GroupStepped(out, g, e, f, e');
          StepGap(e, f, e');
          StreamRun(e', out, GroupedWith(g, f), rest);
        } else {
          NeverFits(GroupedWith(g, f), rest);
        }
      case _ =>
        StateScans(out, g, e);
        LastRuns(o, out, g, s);
    }
  }

  // ---- the main results

  /** An E-AC-3 encoder gets any bytes: the buffer overflows nowhere exactly if all groups of frames fit. */
  lemma StreamFitsIff(e: Encoder, s: seq<uint8>)
    requires Fresh(e) && e.framer.eac3
    ensures Fitting(e, s) <==> GroupsFit(Grouped(FoundFrames(s)))
  {
    hide GroupsFit, Fitting, Encode, Out, GroupState;
    NoGroups(e);
    StreamRun(e, e.out, Groups([], [], 0), s);
    OverNothing(FoundFrames(s));
  }

  /** Then one burst has gone out for each closed group, with the frames of the stream and nothing of what is between them. */
  lemma StreamBursts(e: Encoder, s: seq<uint8>)
    requires Fresh(e) && e.framer.eac3 && GroupsFit(Grouped(FoundFrames(s)))
    ensures forall i: nat :: i < |Grouped(FoundFrames(s)).closed| ==> IsGroup(Grouped(FoundFrames(s)).closed[i])
    ensures Encode(e, s).out == e.out + GroupBursts(Grouped(FoundFrames(s)).closed)
    ensures Fitting(e, s)
  {
    hide GroupsFit, Fitting, Encode, GroupState;
    NoGroups(e);
    StreamRun(e, e.out, Groups([], [], 0), s);
    OverNothing(FoundFrames(s));
  }

  /** However the stream was written, a receiver gets its frames back, one behind the other, up to the group still open. */
  lemma ReceiverGetsStream(e: Encoder, writes: seq<seq<uint8>>)
    requires Fresh(e) && e.framer.eac3 && e.out == [] && GroupsFit(Grouped(FoundFrames(Concat(writes))))
    ensures Unpackable(EncodeAll(e, writes).out)
    ensures
      var fs := FoundFrames(Concat(writes));
      Concat(AllUnpacked(EncodeAll(e, writes).out)) + Concat(Grouped(fs).open) == Concat(fs)
  {
    hide Encode, EncodeAll, GroupsFit, Concat, Grouped, Fitting, UnpackEnhanced, EnhancedBurst, Payloads, IsGroup, FoundFrames;
    var s := Concat(writes);
    StreamBursts(e, s);
    assert s + [] == s;
    FittingWrites(e, writes, []);
    var g := Grouped(FoundFrames(s));
    assert [] + GroupBursts(g.closed) == GroupBursts(g.closed);
    UnpackGroups(g.closed);
    GroupsKeep(FoundFrames(s));
  }
}
