/**
 IEC 61937 data bursts from AC-3 and E-AC-3 byte streams (audio_utils/spdif): the frame
 scanner and the encoder as functions on values. A burst is kept as the bytes written so far;
 module Spdif shows that the buffer of 16-bit words holds exactly these, and zeros behind.
 */
module SpdifSpec {

  type uint8 = x: int | 0 <= x < 256
  type uint16 = x: int | 0 <= x < 0x1_0000

  const SYNC1: uint8 := 0x0B
  const SYNC2: uint8 := 0x77
  const HEADER_LENGTH: int := 6
  const SPDIF_SYNC1: uint16 := 0xF872
  const SPDIF_SYNC2: uint16 := 0x4E1F
  const DATA_TYPE_AC3: uint8 := 1
  const DATA_TYPE_EAC3: uint8 := 21
  const EAC3_RATE_MULTIPLIER: int := 4
  const MAX_BLOCKS: int := 6
  const PREAMBLE_SIZE: int := 8

  // ---- AC3FrameScanner

  /** Number of 16-bit words in an AC-3 frame, by frame size code, for 48, 44.1 and 32 kHz. */
  const WORDS_48K: seq<nat> := [
    64, 64, 80, 80, 96, 96, 112, 112, 128, 128, 160, 160, 192, 192, 224, 224, 256, 256, 320, 320, 384, 384,
    448, 448, 512, 512, 640, 640, 768, 768, 896, 896, 1024, 1024, 1152, 1152, 1280, 1280]
  const WORDS_44K: seq<nat> := [
    69, 70, 87, 88, 104, 105, 121, 122, 139, 140, 174, 175, 208, 209, 243, 244, 278, 279, 348, 349, 417, 418,
    487, 488, 557, 558, 696, 697, 835, 836, 975, 976, 1114, 1115, 1253, 1254, 1393, 1394]
  const WORDS_32K: seq<nat> := [
    96, 96, 120, 120, 144, 144, 168, 168, 192, 192, 240, 240, 288, 288, 336, 336, 384, 384, 480, 480, 576, 576,
    672, 672, 768, 768, 960, 960, 1152, 1152, 1344, 1344, 1536, 1536, 1728, 1728, 1920, 1920]

  function FrameWords(fscod: nat, code: nat): (words: nat)
    requires fscod < 3 && code < 38
    ensures 64 <= words <= 1920
  {
    WordsBounded(code);
    if fscod == 0 then WORDS_48K[code] else if fscod == 1 then WORDS_44K[code] else WORDS_32K[code]
  }

  lemma WordsBounded(code: nat)
    requires code < 38
    ensures 64 <= WORDS_48K[code] <= 1920 && 64 <= WORDS_44K[code] <= 1920 && 64 <= WORDS_32K[code] <= 1920
  {
    Words48Bounded(code);
    Words44Bounded(code);
    Words32Bounded(code);
  }

  lemma Words48Bounded(code: nat)
    requires code < 38
    ensures 64 <= WORDS_48K[code] <= 1920
  {
    assert forall x :: x in WORDS_48K ==> 64 <= x <= 1920;
    assert WORDS_48K[code] in WORDS_48K;
  }

  lemma Words44Bounded(code: nat)
    requires code < 38
    ensures 64 <= WORDS_44K[code] <= 1920
  {
    assert forall x :: x in WORDS_44K ==> 64 <= x <= 1920;
    assert WORDS_44K[code] in WORDS_44K;
  }

  lemma Words32Bounded(code: nat)
    requires code < 38
    ensures 64 <= WORDS_32K[code] <= 1920
  {
    assert forall x :: x in WORDS_32K ==> 64 <= x <= 1920;
    assert WORDS_32K[code] in WORDS_32K;
  }

  /** The nominal bit rates of AC-3 in kbit/s, two frame size codes each, and its sampling rates in Hz. */
  const BIT_RATES: seq<nat> := [32, 40, 48, 56, 64, 80, 96, 112, 128, 160, 192, 224, 256, 320, 384, 448, 512, 576, 640]
  const SAMPLE_RATES: seq<nat> := [48000, 44100, 32000]
  const FRAME_SAMPLES: nat := 1536

  /** The whole 16-bit words that a bit rate yields in the time of one frame. */
  function WordsAtRate(kbps: nat, sampleRate: nat): nat
    requires sampleRate > 0
  {
    kbps * 1000 * FRAME_SAMPLES / 16 / sampleRate
  }

  /** At 44.1 kHz frames of two sizes alternate, to make up for the fraction of a word. */
  function Padding(fscod: nat, code: nat): nat {
    if fscod == 1 then code % 2 else 0
  }

  lemma Words48(code: nat)
    requires code < 38
    ensures WORDS_48K[code] == WordsAtRate(BIT_RATES[code / 2], 48000)
  {
  }

  lemma Words44(code: nat)
    requires code < 38
    ensures WORDS_44K[code] == WordsAtRate(BIT_RATES[code / 2], 44100) + code % 2
  {
    hide *;
    if code < 12 {
      Words44Low(code);
    } else if code < 25 {
      Words44Middle(code);
    } else {
      Words44High(code);
    }
  }

  lemma Words44Low(code: nat)
    requires code < 12
    ensures WORDS_44K[code] == WordsAtRate(BIT_RATES[code / 2], 44100) + code % 2
  {
  }

  lemma Words44Middle(code: nat)
    requires 12 <= code < 25
    ensures WORDS_44K[code] == WordsAtRate(BIT_RATES[code / 2], 44100) + code % 2
  {
  }

  lemma Words44High(code: nat)
    requires 25 <= code < 38
    ensures WORDS_44K[code] == WordsAtRate(BIT_RATES[code / 2], 44100) + code % 2
  {
  }

  lemma Words32(code: nat)
    requires code < 38
    ensures WORDS_32K[code] == WordsAtRate(BIT_RATES[code / 2], 32000)
  {
  }

  /** The table of frame sizes is that of the bit rates. */
  lemma SizeFromRate(fscod: nat, code: nat)
    requires fscod < 3 && code < 38
    ensures FrameWords(fscod, code) == WordsAtRate(BIT_RATES[code / 2], SAMPLE_RATES[fscod]) + Padding(fscod, code)
  {
    hide WordsAtRate;
    Words48(code);
    Words44(code);
    Words32(code);
  }

  type Header = h: seq<uint8> | |h| == 6 witness [0, 0, 0, 0, 0, 0]
  type Counts = c: seq<uint8> | |c| == 8 witness [0, 0, 0, 0, 0, 0, 0, 0]

  /** The scanner's fields; eac3 says that it was made for one of the E-AC-3 formats. */
  datatype Framer = Framer(
    eac3: bool, cursor: nat, header: Header,
    dataType: uint8, dataTypeInfo: uint8, rateMultiplier: nat, frameSize: nat,
    streamType: nat, substream: nat, counts: Counts)

  function Bsid(h: Header): nat {
    h[5] / 8
  }

  /** parseHeader for an E-AC-3 header: the fields, and whether the header is valid. */
  function ParseEac3(f: Framer): (Framer, bool) {
    var h := f.header;
    var streamType, substream := h[2] / 64, h[2] / 8 % 8;
    var info := if streamType != 1 && substream == 0 && h[5] / 8 % 2 == 1 then h[5] % 8 else 0;
    var high: int, low: int := h[2] % 8, h[3];
    var size: nat := (high * 256 + low + 1) * 2;
    var g := f.(dataType := DATA_TYPE_EAC3, dataTypeInfo := info, streamType := streamType, substream := substream);
    if size < HEADER_LENGTH then (g, false)
    else
      var fscod := h[4] / 64;
      var code := h[4] / 16 % 4;
      if fscod == 3 && code >= 3 then (g.(frameSize := size), false)
      else
        var blocks := BlocksPerFrame(if fscod == 3 then 3 else code);
        var counted := if streamType == 0 || streamType == 2
          then Counted(g.counts, substream, blocks) else g.counts;
        (g.(frameSize := size, rateMultiplier := EAC3_RATE_MULTIPLIER, counts := counted), true)
  }

  /** The block count of a substream is a byte that wraps around. */
  function Counted(counts: Counts, substream: nat, blocks: nat): Counts
    requires substream < 8
  {
    var count: int := counts[substream];
    counts[substream := (count + blocks) % 256]
  }

  function BlocksPerFrame(code: nat): (n: nat)
    ensures code < 4 ==> n == [1, 2, 3, 6][code]
  {
    if code == 0 then 1 else if code == 1 then 2 else if code == 2 then 3 else 6
  }

  /** A plain AC-3 header is valid if both of its codes are. */
  predicate PlainValid(h: Header) {
    h[4] / 64 < 3 && h[4] % 64 < 38
  }

  /** parseHeader for a plain AC-3 header. */
  function ParseAc3(f: Framer): (Framer, bool) {
    var h := f.header;
    var g := f.(dataType := DATA_TYPE_AC3, dataTypeInfo := h[5] % 8);
    if !PlainValid(h) then (g, false)
    else
      var sized := g.(rateMultiplier := 1, frameSize := 2 * FrameWords(h[4] / 64, h[4] % 64));
      if !f.eac3 then (sized, true)
      else
        (sized.(dataType := DATA_TYPE_EAC3, rateMultiplier := EAC3_RATE_MULTIPLIER, streamType := 2, substream := 0,
                counts := Counted(sized.counts, 0, 6)), true)
  }

  function ParseHeader(f: Framer): (Framer, bool) {
    var bsid := Bsid(f.header);
    if 10 < bsid <= 16 then ParseEac3(f)
    else if bsid <= 8 then ParseAc3(f)
    else (f, false)
  }

  /** scan: one byte through the sync and header state machine. */
  function Scan(f: Framer, byte: uint8): (Framer, bool) {
    if f.cursor < 2 then
      if byte == (if f.cursor == 0 then SYNC1 else SYNC2) then
        (f.(header := f.header[f.cursor := byte], cursor := f.cursor + 1), false)
      else
        (f.(cursor := 0), false)
    else if f.cursor < HEADER_LENGTH then
      var g := f.(header := f.header[f.cursor := byte], cursor := f.cursor + 1);
      if g.cursor < HEADER_LENGTH then (g, false)
      else
        var (p, valid) := ParseHeader(g);
        (p.(cursor := 0), valid)
    else
      (f, false)
  }

  predicate IsFirstInBurst(f: Framer) {
    f.dataType == DATA_TYPE_EAC3 && (f.streamType == 0 || f.streamType == 2) && f.substream == 0 && f.counts[0] > MAX_BLOCKS
  }

  predicate IsLastInBurst(f: Framer) {
    f.dataType != DATA_TYPE_EAC3
  }

  function ResetCount(c: uint8): (r: uint8)
    ensures (r + 6 == c) || (c < 6 && r == 0)
  {
    if c >= MAX_BLOCKS then c - MAX_BLOCKS else 0
  }

  function ResetBurst(f: Framer): Framer {
    f.(counts := seq(8, i requires 0 <= i < 8 => ResetCount(f.counts[i])))
  }

  function LengthCode(f: Framer, numBytes: uint16): uint16 {
    if f.dataType == DATA_TYPE_EAC3 then numBytes else (var n: int := numBytes; n * 8 % 0x1_0000)
  }

  // ---- SPDIFEncoder

  /** Capacity of the burst buffer: two channels of 16 bits for 4 * 6 * 256 sample frames. */
  const BUFFER_BYTES: int := 24576

  datatype Encoder = Encoder(
    framer: Framer, burst: seq<uint8>, pending: nat, scanning: bool, out: seq<seq<uint16>>)

  /** An encoder made for AC-3, or for one of the E-AC-3 formats. */
  function Initial(eac3: bool): Encoder {
    Encoder(Framer(eac3, 0, seq(6, _ => 0), DATA_TYPE_AC3, 0, 1, 6, 0, 0, seq(8, _ => 0)), [], 0, true, [])
  }

  function BurstBytes(f: Framer): nat {
    f.rateMultiplier * 6 * 256 * 4
  }

  function ByteAt(bytes: seq<uint8>, k: nat): (b: uint8)
    ensures k >= |bytes| ==> b == 0
  {
    if k < |bytes| then bytes[k] else 0
  }

  function Zeros(n: nat): (s: seq<uint8>)
    ensures |s| == n && forall i: nat :: i < n ==> s[i] == 0
  {
    seq(n, _ => 0)
  }

  /** Bytes packed two to a word, the first one in the most significant half; zeros behind. */
  function Packed(bytes: seq<uint8>, words: nat): (w: seq<uint16>)
    ensures |w| == words
  {
    seq(words, i requires 0 <= i < words => PackedWord(bytes, i))
  }

  function PackedWord(bytes: seq<uint8>, i: nat): uint16 {
    var high: int, low: int := ByteAt(bytes, 2 * i), ByteAt(bytes, 2 * i + 1);
    high * 256 + low
  }

  /** writeBurstBufferBytes: an overflowing chunk is dropped, with all that was in the buffer. */
  function WriteBytes(e: Encoder, chunk: seq<uint8>): Encoder {
    if |e.burst| + |chunk| > BUFFER_BYTES then e.(burst := [])
    else e.(burst := e.burst + chunk)
  }

  /** reset */
  function Reset(e: Encoder): Encoder {
    e.(burst := [], framer := ResetBurst(e.framer), pending := 0, scanning := true)
  }

  function High(w: uint16): uint8 {
    w / 256
  }

  function Low(w: uint16): uint8 {
    w % 256
  }

  /** flushBurstBuffer: set the length code, pad with zeros to the burst size, write, reset. */
  function Flush(e: Encoder): Encoder {
    if |e.burst| > PREAMBLE_SIZE then
      var code := LengthCode(e.framer, (|e.burst| - PREAMBLE_SIZE) % 0x1_0000);
      var size := BurstBytes(e.framer);
      if |e.burst| > size then Reset(e)
      else
        var full := e.burst[6 := High(code)][7 := Low(code)];
        Reset(e.(out := e.out + [Packed(full, size / 2)]))
    else
      Reset(e)
  }

  function BurstInfo(f: Framer): uint16 {
    var info: int, kind: int := f.dataTypeInfo, f.dataType;
    info * 256 + kind
  }

  /** startDataBurst: the preamble, with the length code still 0. */
  function StartBurst(e: Encoder): Encoder {
    var info := BurstInfo(e.framer);
    WriteBytes(e, [High(SPDIF_SYNC1), Low(SPDIF_SYNC1), High(SPDIF_SYNC2), Low(SPDIF_SYNC2), High(info), Low(info), 0, 0])
  }

  /** A header was found: start a burst where one is due, and write the header into it. */
  function StartFrame(e: Encoder): Encoder {
    var f := e.framer;
    var e1 := if |e.burst| == 0 then StartBurst(e) else if IsFirstInBurst(f) then StartBurst(Flush(e)) else e;
    WriteBytes(e1, f.header).(
    pending := if f.frameSize < HEADER_LENGTH then 0 else f.frameSize - HEADER_LENGTH, scanning := false)
  }

  /** One byte while scanning for a header. */
  function ScanStep(e: Encoder, byte: uint8): Encoder {
    var (framer, found) := Scan(e.framer, byte);
    var e0 := e.(framer := framer);
    if found then StartFrame(e0) else e0
  }

  /** A chunk of payload, no more than the frame still needs. */
  function PayloadStep(e: Encoder, chunk: seq<uint8>): Encoder
    requires |chunk| <= e.pending
  {
    var e0 := WriteBytes(e, chunk);
    var e1 := e0.(pending := e.pending - |chunk|);
    if e1.pending > 0 then e1
    else if IsLastInBurst(e1.framer) then Flush(e1).(scanning := true)
    else e1.(scanning := true)
  }

  lemma PayloadEnds(e: Encoder, chunk: seq<uint8>)
    requires |chunk| == e.pending
    ensures PayloadStep(e, chunk).scanning
  {
  }

  function Chunk(e: Encoder, n: nat): nat {
    if n > e.pending then e.pending else n
  }

  /** write: all the bytes of one call. */
  function Encode(e: Encoder, data: seq<uint8>): Encoder
    decreases |data|, if e.scanning then 0 else 1
  {
    if data == [] then e
    else if e.scanning then Encode(ScanStep(e, data[0]), data[1..])
    else
      var n := Chunk(e, |data|);
      Encode(PayloadStep(e, data[..n]), data[n..])
  }
}
