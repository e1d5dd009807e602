/**
 AC3FrameScanner and SPDIFEncoder as the classes they are (audio_utils/spdif). The methods are
 proved against the functions of module SpdifSpec; what the burst buffer holds past the cursor,
 which the code never says, is part of the invariant: it is zero.
 */
module Spdif {
  import opened Bits
  import opened SpdifSpec

  class Ac3FrameScanner {
    const eac3: bool
    const header: array<uint8>
    const counts: array<uint8>
    var cursor: nat
    var dataType: uint8
    var dataTypeInfo: uint8
    var rateMultiplier: nat
    var frameSize: nat
    var streamType: nat
    var substream: nat

    ghost predicate Valid()
      reads this
    {
      header.Length == 6 && counts.Length == 8 && header != counts && rateMultiplier <= 4
    }

    ghost function View(): Framer
      requires Valid()
      reads this, header, counts
    {
      Framer(eac3, cursor, header[..], dataType, dataTypeInfo, rateMultiplier, frameSize, streamType, substream, counts[..])
    }

    constructor (eac3: bool)
      ensures Valid() && fresh(header) && fresh(counts) && header != counts
      ensures View() == Framer(eac3, 0, seq(6, i => 0), DATA_TYPE_AC3, 0, 1, 6, 0, 0, seq(8, i => 0))
    {
      this.eac3 := eac3;
      header := new uint8[6](i => 0);
      counts := new uint8[8](i => 0);
      cursor, dataType, dataTypeInfo, rateMultiplier, frameSize := 0, DATA_TYPE_AC3, 0, 1, 6;
      streamType, substream := 0, 0;
      new;
      assert header[..] == seq(6, i => 0) && counts[..] == seq(8, i => 0);
    }

    method CountBlocks(id: nat, blocks: nat)
      requires Valid() && id < 8
      modifies counts
      ensures counts[..] == Counted(old(counts[..]), id, blocks)
    {
      var count: int := counts[id];
      counts[id] := (count + blocks) % 256;
    }

    method ParseEac3Header() returns (valid: bool)
      requires Valid()
      modifies this, counts
      ensures Valid() && header[..] == old(header[..])
      ensures (View(), valid) == ParseEac3(old(View()))
    {
      hide Counted;
      dataType := DATA_TYPE_EAC3;
      var mode := header[5] % 8;
      dataTypeInfo := 0;
      streamType := header[2] / 64;
      substream := header[2] / 8 % 8;
      if streamType != 1 && substream == 0 {
        if header[5] / 8 % 2 == 1 {
          dataTypeInfo := mode;
        }
      }
      var high: int, low: int := header[2] % 8, header[3];
      var size := (high * 256 + low + 1) * 2;
      if size < HEADER_LENGTH {
        return false;
      }
      frameSize := size;
      var code: nat := 3;
      if header[4] / 64 == 3 {
        if header[4] / 16 % 4 >= 3 {
          return false;
        }
      } else {
        code := header[4] / 16 % 4;
      }
      rateMultiplier := EAC3_RATE_MULTIPLIER;
      if streamType == 0 || streamType == 2 {
        CountBlocks(substream, BlocksPerFrame(code));
      }
      return true;
    }

    method ParseAc3Header() returns (valid: bool)
      requires Valid()
      modifies this, counts
      ensures Valid() && header[..] == old(header[..])
      ensures (View(), valid) == ParseAc3(old(View()))
    {
      hide FrameWords, Counted;
      dataType := DATA_TYPE_AC3;
      dataTypeInfo := header[5] % 8;
      var fscod, code := header[4] / 64, header[4] % 64;
      if fscod >= 3 {
        return false;
      } else if code >= 38 {
        return false;
      }
      rateMultiplier := 1;
      frameSize := 2 * FrameWords(fscod, code);
      if eac3 {
        streamType := 2;
        substream := 0;
        CountBlocks(0, 6);
        dataType := DATA_TYPE_EAC3;
        rateMultiplier := EAC3_RATE_MULTIPLIER;
      }
      return true;
    }

    method ParseHeaderBytes() returns (valid: bool)
      requires Valid()
      modifies this, counts
      ensures Valid() && header[..] == old(header[..])
      ensures (View(), valid) == ParseHeader(old(View()))
    {
      hide ParseEac3, ParseAc3;
      var bsid := header[5] / 8;
      if bsid > 10 && bsid <= 16 {
        valid := ParseEac3Header();
      } else if bsid <= 8 {
        valid := ParseAc3Header();
      } else {
        valid := false;
      }
    }

    method ScanByte(byte: uint8) returns (found: bool)
      requires Valid() && cursor < HEADER_LENGTH
      modifies this, header, counts
      ensures Valid() && cursor < HEADER_LENGTH
      ensures (View(), found) == Scan(old(View()), byte)
    {
      hide ParseHeader;
      found := false;
      if cursor < 2 {
        if byte == (if cursor == 0 then SYNC1 else SYNC2) {
          header[cursor] := byte;
          cursor := cursor + 1;
        } else {
          cursor := 0;
        }
      } else if cursor < HEADER_LENGTH {
        header[cursor] := byte;
        cursor := cursor + 1;
        if cursor >= HEADER_LENGTH {
          found := ParseHeaderBytes();
          cursor := 0;
        }
      }
    }

    method ConvertBytesToLengthCode(numBytes: uint16) returns (code: uint16)
      requires Valid()
      ensures code == LengthCode(View(), numBytes)
    {
      var n: int := numBytes;
      code := if dataType == DATA_TYPE_EAC3 then numBytes else n * 8 % 0x1_0000;
    }

    method StartsBurst() returns (first: bool)
      requires Valid()
      ensures first == IsFirstInBurst(View())
    {
      if dataType == DATA_TYPE_EAC3 {
        if (streamType == 0 || streamType == 2) && substream == 0 && counts[0] > MAX_BLOCKS {
          return true;
        }
      }
      return false;
    }

    method ResetCounts()
      requires Valid()
      modifies counts
      ensures View() == ResetBurst(old(View()))
    {
      var i := 0;
      while i < 8
        invariant 0 <= i <= 8
        invariant forall j :: 0 <= j < i ==> counts[j] == ResetCount(old(counts[j]))
        invariant forall j :: i <= j < 8 ==> counts[j] == old(counts[j])
      {
        if counts[i] >= MAX_BLOCKS {
          counts[i] := counts[i] - MAX_BLOCKS;
        } else if counts[i] > 0 {
          counts[i] := 0;
        }
        i := i + 1;
      }
    }
  }

  const BUFFER_WORDS: nat := 12288

  /** Word i of the buffer holds bytes 2i and 2i + 1, and zero where there are none. */
  ghost predicate Holds(words: seq<uint16>, bytes: seq<uint8>) {
    |words| == BUFFER_WORDS && forall i: nat :: i < BUFFER_WORDS ==> words[i] == PackedWord(bytes, i)
  }

  /** All words but word k, which is still being put together. */
  ghost predicate HoldsBut(words: seq<uint16>, bytes: seq<uint8>, k: nat) {
    |words| == BUFFER_WORDS && forall i: nat :: i < BUFFER_WORDS && i != k ==> words[i] == PackedWord(bytes, i)
  }

  lemma FirstHalf(bytes: seq<uint8>, byte: uint8)
    requires |bytes| % 2 == 0
    ensures PackedWord(bytes, |bytes| / 2) == 0
    ensures (var b: int := byte; Or(0, b * 256)) == PackedWord(bytes + [byte], |bytes| / 2)
  {
    var b: int := byte;
    OrZero(b * 256);
  }

  lemma SecondHalf(bytes: seq<uint8>, byte: uint8)
    requires |bytes| % 2 == 1
    ensures Or(PackedWord(bytes, |bytes| / 2), byte) == PackedWord(bytes + [byte], |bytes| / 2)
    ensures PackedWord(bytes + [byte], |bytes| / 2 + 1) == 0
  {
    hide Or;
    var high: int := bytes[|bytes| - 1];
    assert PackedWord(bytes, |bytes| / 2) == high * 256;
    assert Pow2(8) == 256;
    assert (high * 256) % 256 == 0;
    OrDisjoint(high * 256, byte, 8);
  }

  lemma OtherWords(bytes: seq<uint8>, byte: uint8, i: nat)
    requires i != |bytes| / 2
    ensures PackedWord(bytes + [byte], i) == PackedWord(bytes, i)
  {
  }

  lemma HoldsAppended(words: seq<uint16>, bytes: seq<uint8>, byte: uint8)
    requires HoldsBut(words, bytes, |bytes| / 2)
    ensures HoldsBut(words, bytes + [byte], |bytes| / 2)
  {
    hide PackedWord;
    forall i: nat | i < BUFFER_WORDS && i != |bytes| / 2
      ensures words[i] == PackedWord(bytes + [byte], i)
    {
      OtherWords(bytes, byte, i);
    }
  }

  lemma HoldsAll(words: seq<uint16>, bytes: seq<uint8>, k: nat)
    requires Holds(words, bytes)
    ensures HoldsBut(words, bytes, k)
  {
  }

  /** What the code reads back before it packs: word k, of which a half may be there. */
  lemma HoldsAt(words: seq<uint16>, bytes: seq<uint8>, k: nat)
    requires k < BUFFER_WORDS && Holds(words, bytes)
    ensures words[k] == PackedWord(bytes, k) && HoldsBut(words, bytes, k)
  {
    hide PackedWord;
  }

  lemma HoldsCompleted(words: seq<uint16>, bytes: seq<uint8>, k: nat, word: uint16)
    requires k < BUFFER_WORDS && HoldsBut(words, bytes, k) && word == PackedWord(bytes, k)
    ensures Holds(words[k := word], bytes)
  {
    hide PackedWord;
  }

  class SPDIFEncoder {
    const framer: Ac3FrameScanner
    const buffer: array<uint16>
    var byteCursor: nat
    var payloadBytesPending: nat
    var scanning: bool
    /** What writeOutput was given, one sequence of words for each burst. */
    var output: seq<seq<uint16>>
    /** The bytes written since the buffer was cleared. */
    ghost var burst: seq<uint8>

    ghost predicate Valid()
      reads this, framer, framer.header, framer.counts, buffer
    {
      && framer.Valid() && framer.cursor < HEADER_LENGTH
      && buffer.Length == BUFFER_WORDS && byteCursor == |burst| <= BUFFER_BYTES && Holds(buffer[..], burst)
    }

    ghost function View(): Encoder
      requires framer.Valid()
      reads this, framer, framer.header, framer.counts
    {
      Encoder(framer.View(), burst, payloadBytesPending, scanning, output)
    }

    constructor (eac3: bool)
      ensures Valid() && fresh(framer) && fresh(framer.header) && fresh(framer.counts) && fresh(buffer)
      ensures View() == Initial(eac3)
    {
      hide PackedWord;
      framer := new Ac3FrameScanner(eac3);
      buffer := new uint16[BUFFER_WORDS](i => 0);
      byteCursor, payloadBytesPending, scanning, output, burst := 0, 0, true, [], [];
      new;
      EmptyHolds(buffer[..]);
      assert framer.View().header == seq(6, _ => 0) && framer.View().counts == seq(8, _ => 0);
    }

    method ClearBurstBuffer()
      requires Valid()
      modifies this`byteCursor, this`burst, buffer
      ensures Valid() && View() == old(View()).(burst := [])
    {
      hide PackedWord;
      forall i | 0 <= i < buffer.Length {
        buffer[i] := 0;
      }
      byteCursor := 0;
      burst := [];
      EmptyHolds(buffer[..]);
    }

    method Reset()
      requires Valid()
      modifies this`byteCursor, this`burst, this`payloadBytesPending, this`scanning, buffer, framer.counts
      ensures Valid() && View() == SpdifSpec.Reset(old(View()))
    {
      hide ResetBurst, Holds;
      ClearBurstBuffer();
      framer.ResetCounts();
      payloadBytesPending := 0;
      scanning := true;
    }

    predicate WouldOverflow(numBytes: nat)
      reads this
    {
      numBytes > BUFFER_BYTES || byteCursor > BUFFER_BYTES - numBytes
    }

    /** Pack the bytes into the words: the first of a pair into the most significant half. */
    method PackBytes(chunk: seq<uint8>)
      requires Valid() && chunk != [] && byteCursor + |chunk| <= BUFFER_BYTES
      modifies this`byteCursor, this`burst, buffer
      ensures Valid() && burst == old(burst) + chunk
    {
      hide PackedWord, Holds, HoldsBut, Or;
      var pad: int := buffer[byteCursor / 2];
      HoldsAt(buffer[..], burst, byteCursor / 2);
      var i := 0;
      while i < |chunk|
        invariant 0 <= i <= |chunk|
        invariant burst == old(burst) + chunk[..i] && byteCursor == |burst|
        invariant HoldsBut(buffer[..], burst, byteCursor / 2)
        invariant pad == PackedWord(burst, byteCursor / 2)
        invariant byteCursor % 2 == 0 ==> Holds(buffer[..], burst)
      {
        HoldsAppended(buffer[..], burst, chunk[i]);
        if byteCursor % 2 == 1 {
          SecondHalf(burst, chunk[i]);
          pad := Or(pad, chunk[i]);
          HoldsCompleted(buffer[..], burst + [chunk[i]], byteCursor / 2, pad);
          StoreWord(byteCursor / 2, pad);
          HoldsAll(buffer[..], burst + [chunk[i]], byteCursor / 2 + 1);
          pad := 0;
        } else {
          var byte: int := chunk[i];
          FirstHalf(burst, chunk[i]);
          pad := Or(pad, byte * 256);
        }
        burst := burst + [chunk[i]];
        byteCursor := byteCursor + 1;
        i := i + 1;
      }
      if byteCursor % 2 == 1 {
        HoldsCompleted(buffer[..], burst, byteCursor / 2, pad);
        StoreWord(byteCursor / 2, pad);
      }
    }

    method StoreWord(k: nat, word: uint16)
      requires k < buffer.Length
      modifies buffer
      ensures buffer[..] == old(buffer[..])[k := word]
    {
      buffer[k] := word;
    }

    method WriteBurstBufferBytes(chunk: seq<uint8>)
      requires Valid()
      modifies this`byteCursor, this`burst, buffer
      ensures Valid() && View() == WriteBytes(old(View()), chunk)
    {
      hide PackedWord, Holds, HoldsBut;
      if WouldOverflow(|chunk|) {
        ClearBurstBuffer();
        return;
      }
      if |chunk| == 0 {
        assert burst + chunk == burst;
        return;
      }
      PackBytes(chunk);
    }
  
    /** Whole words, from the next even byte on. */
    method WriteBurstBufferShorts(words: seq<uint16>)
      requires Valid()
      modifies this`byteCursor, this`burst, this`payloadBytesPending, this`scanning, buffer, framer.counts
      ensures Valid()
      ensures View() == if |Even(old(burst))| + 2 * |words| > BUFFER_BYTES then SpdifSpec.Reset(old(View()))
                        else old(View()).(burst := Even(old(burst)) + BytesOf(words))
    {
      hide PackedWord, Holds, ResetBurst, BytesOf;
      EvenHolds(buffer[..], burst);
      byteCursor := (byteCursor + 1) / 2 * 2;
      burst := Even(burst);
      if WouldOverflow(2 * |words|) {
        Reset();
        return;
      }
      StoredHolds(buffer[..], burst, words);
      StoreWords(byteCursor / 2, words);
      byteCursor := byteCursor + 2 * |words|;
      burst := burst + BytesOf(words);
    }

    method StoreWords(k: nat, words: seq<uint16>)
      requires k + |words| <= buffer.Length
      modifies buffer
      ensures buffer[..] == old(buffer[..k]) + words + old(buffer[k + |words|..])
    {
      forall i | 0 <= i < |words| {
        buffer[k + i] := words[i];
      }
    }

    method StartDataBurst()
      requires Valid() && byteCursor == 0
      modifies this`byteCursor, this`burst, this`payloadBytesPending, this`scanning, buffer, framer.counts
      ensures Valid() && View() == StartBurst(old(View()))
    {
      hide Holds, Or, ResetBurst, BurstInfo;
      InfoIsOr(framer.View());
      var info: int := framer.dataTypeInfo;
      var burstInfo := Or(Or(0, info * 256), framer.dataType);
      assert |burst| == 0;
      FourWords(SPDIF_SYNC1, SPDIF_SYNC2, burstInfo, 0);
      WriteBurstBufferShorts([SPDIF_SYNC1, SPDIF_SYNC2, burstInfo, 0]);
    }

    method SendZeroPad()
      requires Valid()
      modifies this`byteCursor, this`burst, buffer
      ensures Valid()
      ensures old(|burst|) > BurstBytes(framer.View()) ==> burst == []
      ensures old(|burst|) <= BurstBytes(framer.View()) ==>
                byteCursor == BurstBytes(framer.View()) && buffer[..] == old(buffer[..])
    {
      hide Holds, PackedWord;
      var burstSize := framer.rateMultiplier * 6 * 256 * 2 * 2;
      if byteCursor > burstSize {
        ClearBurstBuffer();
      } else {
        ZerosHold(buffer[..], burst, burstSize - byteCursor);
        burst := burst + Zeros(burstSize - byteCursor);
        byteCursor := burstSize;
      }
    }

    method SetLengthCode()
      requires Valid() && byteCursor > PREAMBLE_SIZE
      modifies this`burst, buffer
      ensures Valid()
      ensures var code := LengthCode(framer.View(), (byteCursor - PREAMBLE_SIZE) % 0x1_0000);
              burst == old(burst)[6 := High(code)][7 := Low(code)]
    {
      hide Holds, PackedWord;
      var code := framer.ConvertBytesToLengthCode((byteCursor - PREAMBLE_SIZE) % 0x1_0000);
      CodeHolds(buffer[..], burst, code);
      StoreWord(3, code);
      burst := burst[6 := High(code)][7 := Low(code)];
    }

    method FlushBurstBuffer()
      requires Valid()
      modifies this, buffer, framer.counts
      ensures Valid() && View() == Flush(old(View()))
    {
      hide Holds, PackedWord, ResetBurst, LengthCode, High, Low;
      if byteCursor > PREAMBLE_SIZE {
        SetLengthCode();
        HoldsPacked(buffer[..], burst, BurstBytes(framer.View()) / 2);
        SendZeroPad();
        if byteCursor > 0 {
          output := output + [buffer[..byteCursor / 2]];
        }
      }
      Reset();
    }

    method StartSyncFrame() returns (pending: nat)
      requires Valid()
      modifies this`byteCursor, this`burst, buffer
      ensures Valid() && View() == WriteBytes(old(View()), framer.header[..])
      ensures pending == if framer.frameSize < HEADER_LENGTH then 0 else framer.frameSize - HEADER_LENGTH
    {
      hide Holds;
      WriteBurstBufferBytes(framer.header[..]);
      if framer.frameSize < HEADER_LENGTH {
        return 0;
      }
      return framer.frameSize - HEADER_LENGTH;
    }

    /** A header was recognised: the body of the first branch of write. */
    method BeginFrame()
      requires Valid()
      modifies this, buffer, framer.counts
      ensures Valid() && View() == StartFrame(old(View()))
    {
      hide Holds, StartBurst, Flush, WriteBytes;
      if byteCursor == 0 {
        StartDataBurst();
      } else {
        var first := framer.StartsBurst();
        if first {
          FlushBurstBuffer();
          FlushEmpties(old(View()));
          StartDataBurst();
        }
      }
      StartKeepsHeader(old(View()));
      payloadBytesPending := StartSyncFrame();
      scanning := false;
    }

    method WritePayload(chunk: seq<uint8>)
      requires Valid() && |chunk| <= payloadBytesPending
      modifies this, buffer, framer.counts
      ensures Valid() && View() == PayloadStep(old(View()), chunk)
    {
      hide Holds, Flush, WriteBytes;
      WriteKeepsPending(View(), chunk);
      WriteBurstBufferBytes(chunk);
      payloadBytesPending := payloadBytesPending - |chunk|;
      if payloadBytesPending == 0 {
        if framer.dataType != DATA_TYPE_EAC3 {
          FlushBurstBuffer();
        }
        scanning := true;
      }
    }

    method Write(data: seq<uint8>)
      requires Valid()
      modifies this, buffer, framer, framer.header, framer.counts
      ensures Valid() && View() == Encode(old(View()), data)
    {
      hide Holds, ScanStep, PayloadStep, Encode;
      var i := 0;
      assert data[0..] == data;
      while i < |data|
        invariant 0 <= i <= |data| && Valid()
        invariant Encode(View(), data[i..]) == Encode(old(View()), data)
        decreases |data| - i, if scanning then 0 else 1
      {
        ghost var before := View();
        if scanning {
          var found := framer.ScanByte(data[i]);
          if found {
            BeginFrame();
          }
          Scanned(before, data[i]);
          EncodeByte(before, data, i);
          i := i + 1;
        } else {
          var n := if |data| - i > payloadBytesPending then payloadBytesPending else |data| - i;
          EncodeChunk(before, data, i, n);
          if n == 0 {
            PayloadEnds(before, data[i..i + n]);
          }
          WritePayload(data[i..i + n]);
          i := i + n;
        }
      }
      assert data[i..] == [];
      EncodeEnd(View());
    }
  }

  lemma Scanned(e: Encoder, byte: uint8)
    ensures
      var (framer, found) := Scan(e.framer, byte);
      ScanStep(e, byte) == if found then StartFrame(e.(framer := framer)) else e.(framer := framer)
  {
  }

  lemma EncodeByte(e: Encoder, data: seq<uint8>, i: nat)
    requires e.scanning && i < |data|
    ensures Encode(e, data[i..]) == Encode(ScanStep(e, data[i]), data[i + 1..])
  {
    hide ScanStep;
    assert data[i..][1..] == data[i + 1..];
  }

  lemma EncodeChunk(e: Encoder, data: seq<uint8>, i: nat, n: nat)
    requires !e.scanning && i < |data| && n == Chunk(e, |data| - i)
    ensures Encode(e, data[i..]) == Encode(PayloadStep(e, data[i..i + n]), data[i + n..])
  {
    hide PayloadStep;
    assert data[i..][..n] == data[i..i + n] && data[i..][n..] == data[i + n..];
  }

  lemma EncodeEnd(e: Encoder)
    ensures Encode(e, []) == e
  {
  }

  lemma FlushEmpties(e: Encoder)
    ensures Flush(e).burst == []
  {
  }

  /** Neither a flush nor a new burst touches the header that was just gathered. */
  lemma StartKeepsHeader(e: Encoder)
    ensures StartBurst(e).framer == e.framer && Flush(e).framer.header == e.framer.header
    ensures Flush(e).framer.frameSize == e.framer.frameSize
  {
  }

  lemma WriteKeepsPending(e: Encoder, chunk: seq<uint8>)
    ensures WriteBytes(e, chunk).pending == e.pending && WriteBytes(e, chunk).framer == e.framer
  {
  }

  function Even(bytes: seq<uint8>): seq<uint8> {
    if |bytes| % 2 == 1 then bytes + [0] else bytes
  }

  function BytesOf(words: seq<uint16>): (b: seq<uint8>)
    ensures |b| == 2 * |words|
  {
    seq(2 * |words|, i requires 0 <= i < 2 * |words| => if i % 2 == 0 then High(words[i / 2]) else Low(words[i / 2]))
  }

  lemma FourWords(a: uint16, b: uint16, c: uint16, d: uint16)
    ensures BytesOf([a, b, c, d]) == [High(a), Low(a), High(b), Low(b), High(c), Low(c), High(d), Low(d)]
  {
  }

  lemma InfoIsOr(f: Framer)
    ensures var info: int := f.dataTypeInfo; Or(Or(0, info * 256), f.dataType) == BurstInfo(f)
  {
    hide Or;
    var info: int := f.dataTypeInfo;
    OrZero(info * 256);
    assert Pow2(8) == 256;
    assert (info * 256) % 256 == 0;
    OrDisjoint(info * 256, f.dataType, 8);
  }

  lemma EvenHolds(words: seq<uint16>, bytes: seq<uint8>)
    requires Holds(words, bytes)
    ensures Holds(words, Even(bytes))
  {
    forall i: nat
      ensures PackedWord(Even(bytes), i) == PackedWord(bytes, i)
    {
    }
  }

  lemma ZerosHold(words: seq<uint16>, bytes: seq<uint8>, n: nat)
    requires Holds(words, bytes)
    ensures Holds(words, bytes + Zeros(n))
  {
    forall i: nat
      ensures PackedWord(bytes + Zeros(n), i) == PackedWord(bytes, i)
    {
    }
  }

  lemma StoredHolds(words: seq<uint16>, bytes: seq<uint8>, more: seq<uint16>)
    requires Holds(words, bytes) && |bytes| % 2 == 0 && |bytes| + 2 * |more| <= BUFFER_BYTES
    ensures Holds(words[..|bytes| / 2] + more + words[|bytes| / 2 + |more|..], bytes + BytesOf(more))
  {
    hide PackedWord;
    var k := |bytes| / 2;
    forall i: nat | i < BUFFER_WORDS
      ensures PackedWord(bytes + BytesOf(more), i) == (words[..k] + more + words[k + |more|..])[i]
    {
      StoredWord(bytes, more, i);
    }
  }

  lemma StoredWord(bytes: seq<uint8>, more: seq<uint16>, i: nat)
    requires |bytes| % 2 == 0
    ensures PackedWord(bytes + BytesOf(more), i)
         == if |bytes| / 2 <= i < |bytes| / 2 + |more| then more[i - |bytes| / 2] else PackedWord(bytes, i)
  {
    var k := |bytes| / 2;
    if k <= i < k + |more| {
      var w: int := more[i - k];
      assert w / 256 * 256 + w % 256 == w;
      assert (bytes + BytesOf(more))[2 * i] == BytesOf(more)[2 * (i - k)] == High(more[i - k]);
      assert (bytes + BytesOf(more))[2 * i + 1] == BytesOf(more)[2 * (i - k) + 1] == Low(more[i - k]);
    }
  }

  lemma CodeHolds(words: seq<uint16>, bytes: seq<uint8>, code: uint16)
    requires Holds(words, bytes) && |bytes| >= 8
    ensures Holds(words[3 := code], bytes[6 := High(code)][7 := Low(code)])
  {
    var c: int := code;
    assert c / 256 * 256 + c % 256 == c;
    var after := bytes[6 := High(code)][7 := Low(code)];
    assert PackedWord(after, 3) == code;
    forall i: nat | i != 3
      ensures PackedWord(after, i) == PackedWord(bytes, i)
    {
    }
  }

  lemma HoldsPacked(words: seq<uint16>, bytes: seq<uint8>, n: nat)
    requires Holds(words, bytes) && n <= BUFFER_WORDS
    ensures words[..n] == Packed(bytes, n)
  {
    hide PackedWord;
  }

  lemma EmptyHolds(words: seq<uint16>)
    requires |words| == BUFFER_WORDS && forall i: nat :: i < BUFFER_WORDS ==> words[i] == 0
    ensures Holds(words, [])
  {
  }
}
