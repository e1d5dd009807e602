/**
 What further holds of packed camera metadata over any run of its operations: the sorted
 flag, the rule for entries without values, and the structure validator, which accepts every
 buffer the operations can produce and protects the reads of any buffer it accepts.
 */
module PacketRules {
  import opened Packet
  import opened Bits

  // ---- the sorted flag

  ghost predicate ItemsSorted(items: seq<Item>) {
    forall j: nat, k: nat :: j < k < |items| ==> items[j].tag <= items[k].tag
  }

  /** FLAG_SORTED promises that binary search may be used. */
  ghost predicate FlagRight(p: Packet)
    requires WellFormed(p)
  {
    p.sorted ==> ItemsSorted(Items(p))
  }

  lemma TagsOfItems(p: Packet)
    requires WellFormed(p)
    ensures forall j: nat :: j < |p.entries| ==> Items(p)[j].tag == p.entries[j].tag && Items(p)[j].kind == p.entries[j].kind
  {
    hide Tiled, ItemOf, Entry.Size, Entry.Lo;
    forall j: nat | j < |p.entries|
      ensures Items(p)[j].tag == p.entries[j].tag && Items(p)[j].kind == p.entries[j].kind
    {
      EntryPlaced(p, j);
      ItemTag(p.entries[j], p.data);
    }
  }

  /** append only ORs the source's flag into an empty destination. The flag stays right exactly
      if the destination is not an empty one that carries the flag while the source is unsorted. */
  lemma AppendKeepsFlagIff(dst: Packet, src: Packet)
    requires WellFormed(dst) && WellFormed(src) && RoomToAppend(dst, src) && FlagRight(dst) && FlagRight(src)
    ensures WellFormed(Appended(dst, src))
    ensures FlagRight(Appended(dst, src)) <==> !(|dst.entries| == 0 && dst.sorted && !ItemsSorted(Items(src)))
  {
    hide WellFormed, Items, RebasedAll;
    AppendRefines(dst, src);
    ItemCount(dst);
    ItemCount(src);
    if |dst.entries| == 0 {
      assert Items(dst) + Items(src) == Items(src);
    } else if |src.entries| == 0 {
      assert Items(dst) + Items(src) == Items(dst);
    }
  }

  lemma ItemCount(p: Packet)
    requires WellFormed(p)
    ensures |Items(p)| == |p.entries|
  {
  }

  /** The exception can be reached: sort an empty buffer, then append two entries out of order. */
  lemma SortedFlagCanLie() returns (dst: Packet, src: Packet)
    ensures WellFormed(dst) && dst == Sorted(PlacedPacket(2, 0), [])
    ensures WellFormed(src) && src == Added(Added(PlacedPacket(2, 0), 7, 0, 1, [1], []), 3, 0, 1, [2], [])
    ensures RoomToAppend(dst, src) && FlagRight(dst) && FlagRight(src)
    ensures WellFormed(Appended(dst, src)) && !FlagRight(Appended(dst, src))
  {
    var empty := PlacedPacket(2, 0);
    dst := Sorted(empty, []);
    PlaceIsWellFormed(2, 0);
    AddRefines(empty, 7, 0, 1, [1], []);
    var one := Added(empty, 7, 0, 1, [1], []);
    AddRefines(one, 3, 0, 1, [2], []);
    src := Added(one, 3, 0, 1, [2], []);
    assert Items(src)[0].tag == 7 && Items(src)[1].tag == 3;
    AppendKeepsFlagIff(dst, src);
  }

  // ---- entries without values

  /** The validator's rule for entries with count 0: the union reads as offset 0. */
  ghost predicate ZeroRight(e: Entry) {
    e.count == 0 ==> e.Lo() == 0
  }

  ghost predicate ZerosRight(p: Packet) {
    forall j: nat :: j < |p.entries| ==> ZeroRight(p.entries[j])
  }

  lemma ShiftKeepsZero(e: Entry, lo: uint32, s: nat)
    ensures ZeroRight(e) ==> ZeroRight(Shifted(e, lo, s))
  {
  }

  lemma DeleteKeepsZeros(p: Packet, i: nat)
    requires ZerosRight(p) && i < |p.entries| && (p.entries[i].Size() > 0 ==> p.entries[i].Hi() <= |p.data|)
    ensures ZerosRight(Deleted(p, i))
  {
    hide Entry.Size, Entry.Lo, Shifted, ZeroRight;
    var e, q := p.entries[i], Deleted(p, i);
    forall j: nat | j < |q.entries|
      ensures ZeroRight(q.entries[j])
    {
      var k := if j < i then j else j + 1;
      assert ZeroRight(p.entries[k]);
      ShiftKeepsZero(p.entries[k], e.Lo(), e.Size());
    }
  }

  lemma AppendKeepsZeros(dst: Packet, src: Packet)
    requires ZerosRight(dst) && ZerosRight(src) && |dst.data| < WORD
    ensures ZerosRight(Appended(dst, src))
  {
    hide Entry.Size, Entry.Lo, Rebased, ZeroRight;
    var all := Appended(dst, src).entries;
    forall j: nat | j < |all|
      ensures ZeroRight(all[j])
    {
      if j >= |dst.entries| {
        assert ZeroRight(src.entries[j - |dst.entries|]);
        RebaseKeepsZero(src.entries[j - |dst.entries|], |dst.data|);
      }
    }
  }

  lemma RebaseKeepsZero(e: Entry, heap: uint32)
    ensures ZeroRight(e) ==> ZeroRight(Rebased(e, heap))
  {
  }

  lemma AddKeepsZeros(p: Packet, tag: uint32, kind: EntryType, count: uint32, payload: seq<uint8>, pad: seq<uint8>)
    requires ZerosRight(p) && |payload| == count * TypeSize(kind) && |p.data| < WORD
    ensures ZerosRight(Added(p, tag, kind, count, payload, pad))
  {
    assert OffsetOf(ZERO_UNION) == 0;
    var e := NewEntry(tag, kind, payload, count, |p.data|);
    if count == 0 {
      assert e.value == ZERO_UNION;
    }
    assert ZeroRight(e);
  }

  lemma SortKeepsZeros(p: Packet, order: seq<nat>)
    requires ZerosRight(p) && forall j: nat | j < |order| :: order[j] < |p.entries|
    ensures ZerosRight(Sorted(p, order))
  {
    hide ZeroRight;
  }

  /** update leaves stale bytes in the union of an entry that it empties. The rule survives
      exactly if there are values, or the union held only zeros before. */
  lemma UpdateKeepsZerosIff(p: Packet, i: nat, count: uint32, payload: seq<uint8>, pad: seq<uint8>)
    requires ZerosRight(p) && i < |p.entries| && (p.entries[i].Size() > 0 ==> p.entries[i].Hi() <= |p.data|)
    requires |p.data| < WORD && |payload| == count * TypeSize(p.entries[i].kind)
    ensures ZerosRight(Updated(p, i, count, payload, pad)) <==> count > 0 || p.entries[i].Lo() == 0
  {
    hide Entry.Size, Entry.Lo, Updated, ZeroRight;
    var u := Updated(p, i, count, payload, pad);
    UpdatedZero(p, i, count, payload, pad, i);
    forall j: nat | j < |p.entries| && j != i
      ensures ZeroRight(u.entries[j])
    {
      assert ZeroRight(p.entries[j]);
      UpdatedZero(p, i, count, payload, pad, j);
    }
  }

  lemma UpdatedZero(p: Packet, i: nat, count: uint32, payload: seq<uint8>, pad: seq<uint8>, j: nat)
    requires j < |p.entries| && ZeroRight(p.entries[j])
    requires i < |p.entries| && (p.entries[i].Size() > 0 ==> p.entries[i].Hi() <= |p.data|) && |p.data| < WORD
    requires |payload| == count * TypeSize(p.entries[i].kind)
    ensures |Updated(p, i, count, payload, pad).entries| == |p.entries|
    ensures
      var f := Updated(p, i, count, payload, pad).entries[j];
      && (j != i ==> ZeroRight(f))
      && (j == i ==> (ZeroRight(f) <==> count > 0 || p.entries[i].Lo() == 0))
  {
    hide Entry.Size, Entry.Lo, Shifted, ZeroRight, NewValue, Cut, Grown, Overwritten;
    ShiftKeepsZero(p.entries[j], p.entries[i].Lo(), p.entries[i].Size());
    NewValueZero(p.entries[i], count, payload, 0);
    FreedShrinks(p, i);
    NewValueZero(p.entries[i], count, payload, |Freed(p, i).data|);
  }

  lemma FreedShrinks(p: Packet, i: nat)
    requires i < |p.entries| && (p.entries[i].Size() > 0 ==> p.entries[i].Hi() <= |p.data|)
    ensures |Freed(p, i).data| <= |p.data| && |Freed(p, i).entries| == |p.entries|
  {
  }

  lemma NewValueZero(e: Entry, count: uint32, payload: seq<uint8>, heap: uint32)
    requires |payload| == count * TypeSize(e.kind)
    ensures ZeroRight(NewValue(e, count, payload, heap)) <==> count > 0 || e.Lo() == 0
  {
    hide OffsetOf, UnionOf;
    if count == 0 {
      assert NewValue(e, count, payload, heap).value == e.value;
    }
  }

  // ---- validate_camera_metadata_structure

  const VENDOR_SECTION: int := 0x8000
  const HEADER_SIZE: int := 48
  const ENTRY_SIZE: int := 16

  /** The header fields, as found in memory: nothing is known of them. */
  datatype Header = Header(
    size: uint32, entryCount: uint32, entryCapacity: uint32, entriesStart: uint32,
    dataCount: uint32, dataCapacity: uint32, dataStart: uint32)

  /** An entry as found in memory: its type may be any byte. */
  datatype RawEntry = RawEntry(tag: uint32, count: uint32, value: Union, kind: uint8)

  datatype Verdict = Ok | Shift | Bad

  function Misalignment(base: nat): nat {
    Align8(base) - base
  }

  /** The checks on the header, 32-bit wrap-around included (lines 462-529). */
  predicate HeaderAccepted(h: Header, expected: int) {
    && (expected >= 0 ==> HEADER_SIZE <= expected && h.size <= expected)
    && h.entryCount <= h.entryCapacity
    && h.dataCount <= h.dataCapacity
    && h.entryCapacity <= 0xFFFF_FFFF / ENTRY_SIZE
    && h.entriesStart <= (h.entriesStart + ENTRY_SIZE * h.entryCapacity) % WORD <= h.dataStart
    && h.dataStart <= (h.dataStart + h.dataCapacity) % WORD <= h.size
  }

  /** The checks on entry i of a buffer at address base (lines 535-608); size_t has 64 bits. */
  predicate EntryAccepted(h: Header, base: nat, i: nat, e: RawEntry, tagType: uint32 -> int) {
    && (base + h.entriesStart + ENTRY_SIZE * i + Misalignment(base)) % 4 == 0
    && e.kind < NUM_TYPES
    && (tagType(e.tag) == e.kind || e.tag / 0x1_0000 >= VENDOR_SECTION)
    && (if DataSize(e.kind, e.count) != 0 then
          && (base + h.dataStart + OffsetOf(e.value) + Misalignment(base)) % DATA_ALIGNMENT == 0
          && OffsetOf(e.value) + DataSize(e.kind, e.count) <= h.dataCapacity
        else
          e.count == 0 ==> OffsetOf(e.value) == 0)
  }

  /** What a header must satisfy: the counts within the capacities, then the table, then the heap, within the size. */
  predicate SoundHeader(h: Header, expected: int) {
    && h.entryCount <= h.entryCapacity && h.dataCount <= h.dataCapacity
    && h.entriesStart + ENTRY_SIZE * h.entryCapacity <= h.dataStart && h.dataStart + h.dataCapacity <= h.size
    && (expected >= 0 ==> HEADER_SIZE <= expected && h.size <= expected)
  }

  /** What entry i must satisfy, in a buffer that begins at the given aligned address: it is one that
      the interface can read, its values lie aligned in the heap, and its tag has its type. */
  ghost predicate SoundEntry(h: Header, address: nat, i: nat, e: RawEntry, tagType: uint32 -> int) {
    && e.kind < NUM_TYPES && TypeRight(Item(e.tag, e.kind, []), tagType)
    && (address + h.entriesStart + ENTRY_SIZE * i) % 4 == 0
    && ZeroRight(EntryOf(e)) && InHeap(EntryOf(e), address + h.dataStart, h.dataCapacity)
  }

  function EntryOf(e: RawEntry): Entry
    requires e.kind < NUM_TYPES
  {
    Entry(e.tag, e.count, e.value, e.kind)
  }

  predicate InHeap(e: Entry, heapAddress: nat, capacity: nat) {
    e.Size() > 0 ==> (heapAddress + e.Lo()) % DATA_ALIGNMENT == 0 && e.Hi() <= capacity
  }

  lemma SoundHeaderIff(h: Header, expected: int)
    ensures HeaderAccepted(h, expected) <==> SoundHeader(h, expected)
  {
    if h.entryCapacity <= 0xFFFF_FFFF / ENTRY_SIZE {
      NoWrap(h.entriesStart, ENTRY_SIZE * h.entryCapacity);
      WrapIsNone(h.entriesStart, ENTRY_SIZE * h.entryCapacity);
    }
    NoWrap(h.dataStart, h.dataCapacity);
    WrapIsNone(h.dataStart, h.dataCapacity);
  }

  lemma WrapIsNone(a: uint32, b: nat)
    ensures a + b < WORD ==> (a + b) % WORD == a + b
  {
  }

  lemma SoundEntryIff(h: Header, base: nat, i: nat, e: RawEntry, tagType: uint32 -> int)
    ensures EntryAccepted(h, base, i, e, tagType) <==> SoundEntry(h, Align8(base), i, e, tagType)
  {
    hide Align8, OffsetOf, TypeSize;
    if e.kind < NUM_TYPES {
      PayloadFits(EntryOf(e));
    }
    assert base + Misalignment(base) == Align8(base);
  }

  /** The validator: expected is the size to check against, or negative if none was given. */
  method Validate(h: Header, base: nat, entries: seq<RawEntry>, tagType: uint32 -> int, expected: int)
    returns (v: Verdict)
    requires |entries| == h.entryCount
    ensures v != Bad <==>
      (SoundHeader(h, expected) && forall i: nat :: i < |entries| ==> SoundEntry(h, Align8(base), i, entries[i], tagType))
    ensures v != Bad ==> (v == Ok <==> base % DATA_ALIGNMENT == 0)
    ensures v != Bad <==>
      (HeaderAccepted(h, expected) && forall i: nat :: i < |entries| ==> EntryAccepted(h, base, i, entries[i], tagType))
  {
    hide EntryAccepted, HeaderAccepted, SoundEntry, SoundHeader;
    SoundHeaderIff(h, expected);
    forall i: nat | i < |entries|
      ensures EntryAccepted(h, base, i, entries[i], tagType) <==> SoundEntry(h, Align8(base), i, entries[i], tagType)
    {
      SoundEntryIff(h, base, i, entries[i], tagType);
    }
    if !HeaderAccepted(h, expected) {
      return Bad;
    }
    var i := 0;
    while i < |entries|
      invariant 0 <= i <= |entries|
      invariant forall k: nat :: k < i ==> EntryAccepted(h, base, k, entries[k], tagType)
    {
      if !EntryAccepted(h, base, i, entries[i], tagType) {
        return Bad;
      }
      i := i + 1;
    }
    AlignedIffNoOffset(base);
    v := if Misalignment(base) == 0 then Ok else Shift;
  }

  lemma AlignedIffNoOffset(base: nat)
    ensures Misalignment(base) == 0 <==> base % DATA_ALIGNMENT == 0
  {
  }

  /** Behind the misalignment every buffer is aligned. */
  lemma MisalignmentAligns(base: nat)
    ensures (base + Misalignment(base)) % DATA_ALIGNMENT == 0
  {
  }

  /** Where get_camera_metadata_entry finds the values of an entry: in the heap or in the table. */
  function ValueStart(h: Header, i: nat, e: RawEntry): nat
    requires e.kind < NUM_TYPES
  {
    if e.count * TypeSize(e.kind) > 4 then h.dataStart + OffsetOf(e.value)
    else h.entriesStart + ENTRY_SIZE * i + 8
  }

  /** Every buffer the validator accepts, trusted or not: reading any entry and all its values
      stays inside the entry's union or the heap, and so inside the declared size, which itself
      is within the expected size. */
  lemma AcceptedReadsStayInside(
      h: Header, base: nat, i: nat, e: RawEntry, tagType: uint32 -> int, expected: int)
    requires HeaderAccepted(h, expected) && i < h.entryCount && EntryAccepted(h, base, i, e, tagType)
    ensures expected >= 0 ==> h.size <= expected
    ensures h.entriesStart + ENTRY_SIZE * i + ENTRY_SIZE <= h.size
    ensures e.kind < NUM_TYPES
    ensures ValueStart(h, i, e) + e.count * TypeSize(e.kind) <= h.size
    ensures
      var start, end := ValueStart(h, i, e), ValueStart(h, i, e) + e.count * TypeSize(e.kind);
      var union := h.entriesStart + ENTRY_SIZE * i + 8;
      (union <= start && end <= union + 4) || (h.dataStart <= start && end <= h.dataStart + h.dataCapacity)
  {
    NoWrap(h.entriesStart, ENTRY_SIZE * h.entryCapacity);
    NoWrap(h.dataStart, h.dataCapacity);
    hide Align8, OffsetOf, TypeSize;
  }

  lemma NoWrap(a: uint32, b: nat)
    requires b < WORD
    ensures a <= (a + b) % WORD ==> (a + b) % WORD == a + b
  {
  }

  // ---- what the operations produce is accepted

  /** place_camera_metadata's layout, when the total fits 32 bits (lines 280-292, 302-314). */
  function TotalSize(entryCapacity: nat, dataCapacity: nat): nat {
    Align8(Align8(HEADER_SIZE + ENTRY_SIZE * entryCapacity) + dataCapacity)
  }

  function HeaderOf(p: Packet): Header
    requires TotalSize(p.entryCapacity, p.dataCapacity) < WORD && |p.entries| < WORD && |p.data| < WORD
  {
    LayoutFits(p.entryCapacity, p.dataCapacity);
    Header(TotalSize(p.entryCapacity, p.dataCapacity), |p.entries|, p.entryCapacity, HEADER_SIZE,
           |p.data|, p.dataCapacity, Align8(HEADER_SIZE + ENTRY_SIZE * p.entryCapacity))
  }

  lemma LayoutFits(entryCapacity: nat, dataCapacity: nat)
    ensures Align8(HEADER_SIZE + ENTRY_SIZE * entryCapacity) == HEADER_SIZE + ENTRY_SIZE * entryCapacity
    ensures HEADER_SIZE + ENTRY_SIZE * entryCapacity + dataCapacity <= TotalSize(entryCapacity, dataCapacity)
  {
  }

  function RawOf(e: Entry): RawEntry {
    RawEntry(e.tag, e.count, e.value, e.kind)
  }

  /** Entries carry the type that is registered for their tag, except in vendor sections. */
  ghost predicate TypesRight(items: seq<Item>, tagType: uint32 -> int) {
    forall j: nat :: j < |items| ==> TypeRight(items[j], tagType)
  }

  ghost predicate TypeRight(item: Item, tagType: uint32 -> int) {
    tagType(item.tag) == item.kind || item.tag / 0x1_0000 >= VENDOR_SECTION
  }

  /** A well-formed buffer, at any address, is accepted exactly if its entries without values
      read as offset 0; the verdict is Shift where the address is not aligned. */
  lemma ProducedIsAcceptedIff(p: Packet, base: nat, tagType: uint32 -> int)
    requires WellFormed(p) && TypesRight(Items(p), tagType)
    requires TotalSize(p.entryCapacity, p.dataCapacity) < WORD
    ensures HeaderAccepted(HeaderOf(p), -1) && HeaderAccepted(HeaderOf(p), TotalSize(p.entryCapacity, p.dataCapacity))
    ensures ZerosRight(p) <==>
      forall i: nat :: i < |p.entries| ==> EntryAccepted(HeaderOf(p), base, i, RawOf(p.entries[i]), tagType)
  {
    hide EntryAccepted, Tiled, ZeroRight, OffsetOf, Items;
    ProducedHeader(p);
    TagsOfItems(p);
    ItemCount(p);
    forall i: nat | i < |p.entries|
      ensures ZeroRight(p.entries[i]) <==> EntryAccepted(HeaderOf(p), base, i, RawOf(p.entries[i]), tagType)
    {
      TiledPlaced(p.entries, |p.data|, NO_HOLE, i);
      assert TypeRight(Items(p)[i], tagType);
      ProducedEntry(p, base, i, tagType);
    }
  }

  lemma ProducedHeader(p: Packet)
    requires |p.entries| <= p.entryCapacity && |p.data| <= p.dataCapacity
    requires TotalSize(p.entryCapacity, p.dataCapacity) < WORD
    ensures HeaderAccepted(HeaderOf(p), -1) && HeaderAccepted(HeaderOf(p), TotalSize(p.entryCapacity, p.dataCapacity))
  {
    LayoutFits(p.entryCapacity, p.dataCapacity);
    hide Align8;
  }

  lemma ProducedEntry(p: Packet, base: nat, i: nat, tagType: uint32 -> int)
    requires |p.data| <= p.dataCapacity && i < |p.entries| < WORD && Placed(p.entries[i], |p.data|)
    requires tagType(p.entries[i].tag) == p.entries[i].kind || p.entries[i].tag / 0x1_0000 >= VENDOR_SECTION
    requires TotalSize(p.entryCapacity, p.dataCapacity) < WORD
    ensures ZeroRight(p.entries[i]) <==> EntryAccepted(HeaderOf(p), base, i, RawOf(p.entries[i]), tagType)
  {
    hide Align8, OffsetOf, Misalignment, DataSize, HeaderOf;
    var e, h := p.entries[i], HeaderOf(p);
    ProducedStarts(p, h);
    MisalignmentAligns(base);
    EmptyIsInline(e);
    TableAligned(base, h.entriesStart, ENTRY_SIZE * i, Misalignment(base));
    if e.Size() > 0 {
      HeapAligned(base, h.dataStart, e.Lo(), Misalignment(base));
    }
    EntryVerdict(h, base, i, e, tagType);
  }

  lemma ProducedStarts(p: Packet, h: Header)
    requires TotalSize(p.entryCapacity, p.dataCapacity) < WORD && |p.entries| < WORD && |p.data| < WORD
    requires h == HeaderOf(p)
    ensures h.entriesStart == HEADER_SIZE && h.dataStart % 8 == 0 && h.dataCapacity == p.dataCapacity
  {
  }

  lemma EntryVerdict(h: Header, base: nat, i: nat, e: Entry, tagType: uint32 -> int)
    requires (base + h.entriesStart + ENTRY_SIZE * i + Misalignment(base)) % 4 == 0
    requires tagType(e.tag) == e.kind || e.tag / 0x1_0000 >= VENDOR_SECTION
    requires e.Size() > 0 ==>
      (base + h.dataStart + e.Lo() + Misalignment(base)) % DATA_ALIGNMENT == 0 && e.Hi() <= h.dataCapacity
    requires e.count == 0 ==> e.Size() == 0
    ensures ZeroRight(e) <==> EntryAccepted(h, base, i, RawOf(e), tagType)
  {
    hide OffsetOf, Misalignment, DataSize;
  }

  lemma Quotient(x: nat, m: nat) returns (q: nat)
    requires m > 0 && x % m == 0
    ensures x == m * q
  {
    q := x / m;
  }

  lemma Multiple(m: nat, q: nat, x: nat)
    requires m > 0 && x == m * q
    ensures x % m == 0
  {
    RemainderIs(x, m, q, 0);
  }

  lemma TableAligned(base: nat, start: nat, at: nat, offset: nat)
    requires (base + offset) % 8 == 0 && start == HEADER_SIZE && at % 16 == 0
    ensures (base + start + at + offset) % 4 == 0
  {
    var b := Quotient(base + offset, 8);
    var a := Quotient(at, 16);
    Multiple(4, 2 * b + 12 + 4 * a, base + start + at + offset);
  }

  lemma HeapAligned(base: nat, start: nat, at: nat, offset: nat)
    requires (base + offset) % 8 == 0 && start % 8 == 0 && at % 8 == 0
    ensures (base + start + at + offset) % 8 == 0
  {
    var b := Quotient(base + offset, 8);
    var s := Quotient(start, 8);
    var a := Quotient(at, 8);
    Multiple(8, b + s + a, base + start + at + offset);
  }

  lemma EmptyIsInline(e: Entry)
    ensures e.count == 0 ==> e.Size() == 0
    ensures e.Size() == DataSize(e.kind, e.count)
  {
  }

  // ---- runs of operations

  /** The calls of the interface. pad is what the buffer held behind a payload, order is what
      qsort made of the table. */
  datatype Op =
    | Add(tag: uint32, kind: EntryType, count: uint32, payload: seq<uint8>, pad: seq<uint8>)
    | Append(src: Packet)
    | Delete(i: nat)
    | Update(i: nat, count: uint32, payload: seq<uint8>, pad: seq<uint8>)
    | Sort(order: seq<nat>)
    | Copy

  /** Whether the call succeeds; the others return an error and leave the buffer alone. */
  ghost predicate Succeeds(p: Packet, op: Op) {
    match op
    case Add(_, kind, count, payload, pad) => RoomToAdd(p, kind, count) && PadFits(kind, count, payload, pad)
    case Append(src) => RoomToAppend(p, src)
    case Delete(i) => i < |p.entries|
    case Update(i, count, payload, pad) =>
      i < |p.entries| && RoomToUpdate(p, i, count) && PadFits(p.entries[i].kind, count, payload, pad)
    case Sort(order) => p.sorted || (Permutes(order, |p.entries|) && TagsSorted(Reordered(p.entries, order)))
    case Copy => true
  }

  ghost function Do(p: Packet, op: Op): Packet
    requires WellFormed(p)
  {
    if !Succeeds(p, op) then p
    else match op
      case Add(tag, kind, count, payload, pad) => Added(p, tag, kind, count, payload, pad)
      case Append(src) => Appended(p, src)
      case Delete(i) => EntryPlaced(p, i); Deleted(p, i)
      case Update(i, count, payload, pad) => EntryPlaced(p, i); Updated(p, i, count, payload, pad)
      case Sort(order) => if p.sorted then p else Sorted(p, order)
      case Copy => Copied(p)
  }

  /** The same calls on the abstract view. */
  ghost function AbstractDo(items: seq<Item>, wasSorted: bool, op: Op): seq<Item>
    requires op.Append? ==> WellFormed(op.src)
  {
    match op
    case Add(tag, kind, _, payload, _) => items + [Item(tag, kind, payload)]
    case Append(src) => items + Items(src)
    case Delete(i) => if i < |items| then items[..i] + items[i + 1..] else items
    case Update(i, _, payload, _) => if i < |items| then items[i := items[i].(bytes := payload)] else items
    case Sort(order) =>
      if wasSorted || !(forall j: nat | j < |order| :: order[j] < |items|) then items else Reordered(items, order)
    case Copy => items
  }

  /** What a call leaves beside the items: the capacities, the vendor, and the flag. */
  lemma StepLeaves(p: Packet, op: Op)
    requires WellFormed(p) && Succeeds(p, op)
    ensures !op.Copy? ==> Do(p, op).entryCapacity == p.entryCapacity && Do(p, op).dataCapacity == p.dataCapacity
    ensures op.Copy? ==> Do(p, op).entryCapacity == |p.entries| && Do(p, op).dataCapacity == |p.data|
    ensures Do(p, op).vendor == if op.Append? && p.vendor == INVALID_VENDOR then op.src.vendor else p.vendor
    ensures op.Append? ==> p.vendor == op.src.vendor || p.vendor == INVALID_VENDOR || op.src.vendor == INVALID_VENDOR
    ensures op.Add? ==> !Do(p, op).sorted
    ensures op.Sort? ==> Do(p, op).sorted
    ensures op.Delete? || op.Update? || op.Copy? ==> Do(p, op).sorted == p.sorted
    ensures op.Append? ==>
      (Do(p, op).sorted <==> if p.entries == [] then p.sorted || op.src.sorted else p.sorted && op.src.entries == [])
  {
    hide WellFormed, Tiled;
  }

  // ---- a call fails only if its result would not fit

  lemma AddFitsIff(p: Packet, tag: uint32, kind: EntryType, count: uint32, payload: seq<uint8>, pad: seq<uint8>)
    requires WellFormed(p) && PadFits(kind, count, payload, pad)
    ensures RoomToAdd(p, kind, count) <==> WellFormed(Added(p, tag, kind, count, payload, pad))
  {
    hide Tiled, DataSize, NewEntry;
    if RoomToAdd(p, kind, count) {
      AddRefines(p, tag, kind, count, payload, pad);
    } else {
      GrownBy(p.data, kind, count, payload, pad);
    }
  }

  lemma GrownBy(data: seq<uint8>, kind: EntryType, count: nat, payload: seq<uint8>, pad: seq<uint8>)
    requires PadFits(kind, count, payload, pad)
    ensures |Grown(data, kind, count, payload, pad)| == |data| + DataSize(kind, count)
  {
    hide DataSize;
  }

  lemma AppendFitsIff(dst: Packet, src: Packet)
    requires WellFormed(dst) && WellFormed(src)
    requires dst.vendor == INVALID_VENDOR || src.vendor == INVALID_VENDOR || dst.vendor == src.vendor
    ensures RoomToAppend(dst, src) <==> WellFormed(Appended(dst, src))
  {
    hide Tiled;
    if RoomToAppend(dst, src) {
      AppendRefines(dst, src);
    }
  }

  lemma UpdateFitsIff(p: Packet, i: nat, count: uint32, payload: seq<uint8>, pad: seq<uint8>)
    requires WellFormed(p) && i < |p.entries| && PadFits(p.entries[i].kind, count, payload, pad)
    ensures p.entries[i].Size() > 0 ==> p.entries[i].Hi() <= |p.data|
    ensures RoomToUpdate(p, i, count) <==> WellFormed(Updated(p, i, count, payload, pad))
  {
    hide Tiled, DataSize, NewValue, Shifted, Entry.Lo, Entry.Size;
    EntryPlaced(p, i);
    if RoomToUpdate(p, i, count) {
      UpdateRefines(p, i, count, payload, pad);
    } else {
      FreedBy(p, i);
      GrownBy(Freed(p, i).data, p.entries[i].kind, count, payload, pad);
    }
  }

  lemma FreedBy(p: Packet, i: nat)
    requires i < |p.entries| && (p.entries[i].Size() > 0 ==> p.entries[i].Hi() <= |p.data|)
    ensures |Freed(p, i).data| == |p.data| - p.entries[i].Size() && |Freed(p, i).entries| == |p.entries|
    ensures Freed(p, i).dataCapacity == p.dataCapacity
  {
    hide Entry.Lo;
  }

  /** What every buffer made by the interface satisfies. */
  ghost predicate Right(p: Packet, tagType: uint32 -> int) {
    WellFormed(p) && FlagRight(p) && ZerosRight(p) && TypesRight(Items(p), tagType)
  }

  /** The two calls that need care: emptying an entry whose union is in use, and appending an
      unsorted buffer to an empty one that is flagged as sorted. Tags come with their type. */
  ghost predicate Careful(p: Packet, op: Op, tagType: uint32 -> int) {
    match op
    case Add(tag, kind, _, _, _) => tagType(tag) == kind
    case Append(src) => Right(src, tagType) && !(|p.entries| == 0 && p.sorted && !ItemsSorted(Items(src)))
    case Update(i, count, _, _) => count > 0 || (i < |p.entries| && p.entries[i].Lo() == 0)
    case _ => true
  }

  lemma SortedItems(p: Packet, order: seq<nat>)
    requires WellFormed(p) && Permutes(order, |p.entries|) && TagsSorted(Reordered(p.entries, order))
    ensures ItemsSorted(Reordered(Items(p), order))
  {
    hide WellFormed, Items;
    TagsOfItems(p);
    ItemCount(p);
    var tags := Reordered(p.entries, order);
    forall j: nat, k: nat | j < k < |order|
      ensures Items(p)[order[j]].tag <= Items(p)[order[k]].tag
    {
      assert tags[j].tag <= tags[k].tag;
    }
  }

  /** One call: the view changes as the abstract call says, and everything stays right. */
  lemma StepRefines(p: Packet, op: Op, tagType: uint32 -> int)
    requires Right(p, tagType) && Careful(p, op, tagType) && Succeeds(p, op)
    ensures Right(Do(p, op), tagType)
    ensures Items(Do(p, op)) == AbstractDo(Items(p), p.sorted, op)
  {
    hide WellFormed, Items, RebasedAll, Deleted, Updated, Added, ZerosRight, TypeRight, Entry.Size, Entry.Lo;
    hide TagsSorted, Permutes, Reordered, RoomToAdd, RoomToUpdate, PadFits;
    ItemCount(p);
    match op
    case Add(tag, kind, count, payload, pad) =>
      AddRefines(p, tag, kind, count, payload, pad);
      AddStep(p, tag, kind, count, payload, pad);
      ItemTyped(Item(tag, kind, payload), tagType);
    case Append(src) =>
      AppendRefines(p, src);
      AppendKeepsFlagIff(p, src);
      AppendKeepsZeros(p, src);
    case Delete(i) =>
      EntryPlaced(p, i);
      DeleteRefines(p, i);
      DeleteKeepsZeros(p, i);
      DeletedFlag(p, i);
    case Update(i, count, payload, pad) => UpdateStep(p, i, count, payload, pad, tagType);
    case Sort(order) =>
      if !p.sorted {
        SortStep(p, order, tagType);
      }
    case Copy =>
      CopyPreserves(p);
      CopyKeepsZeros(p);
  }

  lemma ItemTyped(item: Item, tagType: uint32 -> int)
    ensures tagType(item.tag) == item.kind ==> TypeRight(item, tagType)
  {
  }

  lemma CopyKeepsZeros(p: Packet)
    requires ZerosRight(p) && |p.entries| < WORD && |p.data| < WORD
    ensures ZerosRight(Copied(p))
  {
    hide ZeroRight;
  }

  lemma AddStep(p: Packet, tag: uint32, kind: EntryType, count: uint32, payload: seq<uint8>, pad: seq<uint8>)
    requires WellFormed(p) && ZerosRight(p) && PadFits(kind, count, payload, pad)
    ensures |payload| == count * TypeSize(kind) && |p.data| < WORD
    ensures !Added(p, tag, kind, count, payload, pad).sorted
    ensures ZerosRight(Added(p, tag, kind, count, payload, pad))
  {
    hide ZerosRight, Tiled;
    AddKeepsZeros(p, tag, kind, count, payload, pad);
  }

  lemma DeletedFlag(p: Packet, i: nat)
    requires i < |p.entries| && (p.entries[i].Size() > 0 ==> p.entries[i].Hi() <= |p.data|)
    ensures Deleted(p, i).sorted == p.sorted
  {
  }

  lemma UpdateStep(
      p: Packet, i: nat, count: uint32, payload: seq<uint8>, pad: seq<uint8>, tagType: uint32 -> int)
    requires Right(p, tagType) && i < |p.entries| && RoomToUpdate(p, i, count)
    requires PadFits(p.entries[i].kind, count, payload, pad)
    requires count > 0 || p.entries[i].Lo() == 0
    ensures p.entries[i].Size() > 0 ==> p.entries[i].Hi() <= |p.data|
    ensures |p.data| < WORD && |payload| == count * TypeSize(p.entries[i].kind)
    ensures Right(Updated(p, i, count, payload, pad), tagType)
    ensures Items(Updated(p, i, count, payload, pad)) == Items(p)[i := Items(p)[i].(bytes := payload)]
  {
    hide Items, Updated, ZerosRight, Entry.Size, Entry.Lo, Tiled;
    ItemCount(p);
    EntryPlaced(p, i);
    UpdateRefines(p, i, count, payload, pad);
    UpdateKeepsZerosIff(p, i, count, payload, pad);
    UpdatedFlag(p, i, count, payload, pad);
    assert TypeRight(Items(p)[i], tagType);
  }

  lemma UpdatedFlag(p: Packet, i: nat, count: uint32, payload: seq<uint8>, pad: seq<uint8>)
    requires i < |p.entries| && (p.entries[i].Size() > 0 ==> p.entries[i].Hi() <= |p.data|) && |p.data| < WORD
    requires |payload| == count * TypeSize(p.entries[i].kind)
    ensures Updated(p, i, count, payload, pad).sorted == p.sorted
  {
  }

  lemma SortStep(p: Packet, order: seq<nat>, tagType: uint32 -> int)
    requires Right(p, tagType) && Permutes(order, |p.entries|) && TagsSorted(Reordered(p.entries, order))
    ensures Right(Sorted(p, order), tagType)
    ensures |Items(p)| == |p.entries| && forall j: nat | j < |order| :: order[j] < |Items(p)|
    ensures Items(Sorted(p, order)) == Reordered(Items(p), order)
  {
    hide WellFormed, Items, ZerosRight, TagsSorted, TypeRight;
    ItemCount(p);
    SortRefines(p, order);
    SortedItems(p, order);
    SortKeepsZeros(p, order);
  }

  ghost predicate CarefulRun(p: Packet, ops: seq<Op>, tagType: uint32 -> int)
    requires Right(p, tagType)
    decreases |ops|
  {
    ops == [] || (
      Careful(p, ops[0], tagType) && (
        DoKeepsRight(p, ops[0], tagType);
        CarefulRun(Do(p, ops[0]), ops[1..], tagType)))
  }

  lemma DoKeepsRight(p: Packet, op: Op, tagType: uint32 -> int)
    requires Right(p, tagType) && Careful(p, op, tagType)
    ensures Right(Do(p, op), tagType)
  {
    if Succeeds(p, op) {
      hide *;
      StepRefines(p, op, tagType);
    }
  }

  ghost function Run(p: Packet, ops: seq<Op>, tagType: uint32 -> int): (q: Packet)
    requires Right(p, tagType) && CarefulRun(p, ops, tagType)
    ensures Right(q, tagType)
    decreases |ops|
  {
    if ops == [] then p
    else
      DoKeepsRight(p, ops[0], tagType);
      Run(Do(p, ops[0]), ops[1..], tagType)
  }

  /** From place_camera_metadata on, whatever careful calls follow: the heap stays exactly tiled,
      the flag right, and the validator accepts header and entries, at any address. */
  lemma EveryBufferIsAccepted(
      entryCapacity: uint32, dataCapacity: uint32, ops: seq<Op>, tagType: uint32 -> int, base: nat)
    ensures Right(PlacedPacket(entryCapacity, dataCapacity), tagType)
    ensures CarefulRun(PlacedPacket(entryCapacity, dataCapacity), ops, tagType) ==>
      Accepted(Run(PlacedPacket(entryCapacity, dataCapacity), ops, tagType), base, tagType)
  {
    hide Run, CarefulRun, HeaderAccepted, EntryAccepted;
    var p := PlacedPacket(entryCapacity, dataCapacity);
    PlaceIsWellFormed(entryCapacity, dataCapacity);
    if CarefulRun(p, ops, tagType) {
      RightIsAccepted(Run(p, ops, tagType), base, tagType);
    }
  }

  ghost predicate Accepted(p: Packet, base: nat, tagType: uint32 -> int) {
    WellFormed(p) && (
      TotalSize(p.entryCapacity, p.dataCapacity) < WORD ==>
        && HeaderAccepted(HeaderOf(p), TotalSize(p.entryCapacity, p.dataCapacity))
        && forall i: nat :: i < |p.entries| ==> EntryAccepted(HeaderOf(p), base, i, RawOf(p.entries[i]), tagType))
  }

  lemma RightIsAccepted(p: Packet, base: nat, tagType: uint32 -> int)
    requires Right(p, tagType)
    ensures Accepted(p, base, tagType)
  {
    hide HeaderAccepted, EntryAccepted, TotalSize, Items, TypesRight, FlagRight, HeaderOf, RawOf, ZerosRight;
    if TotalSize(p.entryCapacity, p.dataCapacity) < WORD {
      ProducedIsAcceptedIff(p, base, tagType);
    }
  }

  /** Of the updates of a right buffer, the validator accepts exactly those that keep the rule for zeros. */
  lemma UpdateIsAcceptedIff(
      p: Packet, i: nat, count: uint32, payload: seq<uint8>, pad: seq<uint8>, base: nat, tagType: uint32 -> int)
    requires Right(p, tagType) && Succeeds(p, Update(i, count, payload, pad))
    requires TotalSize(p.entryCapacity, p.dataCapacity) < WORD
    ensures WellFormed(Do(p, Update(i, count, payload, pad)))
    ensures Accepted(Do(p, Update(i, count, payload, pad)), base, tagType) <==> count > 0 || p.entries[i].Lo() == 0
  {
    hide Items, Updated, Entry.Size, Entry.Lo, Tiled, ZerosRight, TypesRight, RoomToUpdate, HeaderOf, RawOf, TotalSize,
      EntryAccepted, HeaderAccepted;
    ItemCount(p);
    UpdateRefines(p, i, count, payload, pad);
    UpdateKeepsZerosIff(p, i, count, payload, pad);
    var q := Updated(p, i, count, payload, pad);
    UpdatedCapacity(p, i, count, payload, pad);
    UpdatedTypes(Items(p), i, payload, tagType);
    ProducedIsAcceptedIff(q, base, tagType);
  }

  lemma UpdatedCapacity(p: Packet, i: nat, count: uint32, payload: seq<uint8>, pad: seq<uint8>)
    requires i < |p.entries| && (p.entries[i].Size() > 0 ==> p.entries[i].Hi() <= |p.data|) && |p.data| < WORD
    requires |payload| == count * TypeSize(p.entries[i].kind)
    ensures Updated(p, i, count, payload, pad).entryCapacity == p.entryCapacity
    ensures Updated(p, i, count, payload, pad).dataCapacity == p.dataCapacity
  {
  }

  lemma UpdatedTypes(items: seq<Item>, i: nat, payload: seq<uint8>, tagType: uint32 -> int)
    requires TypesRight(items, tagType) && i < |items|
    ensures TypesRight(items[i := items[i].(bytes := payload)], tagType)
  {
  }

  /** A buffer with one entry, whose tag has bytes, with the value v. */
  lemma OneByteAdded(tag: uint32, v: uint8, tagType: uint32 -> int) returns (p: Packet)
    requires v != 0 && tagType(tag) == 0
    ensures WellFormed(PlacedPacket(1, 0)) && p == Do(PlacedPacket(1, 0), Add(tag, 0, 1, [v], []))
    ensures Right(p, tagType) && |p.entries| == 1 && p.data == [] && p.entryCapacity == 1 && p.dataCapacity == 0
    ensures p.entries[0].kind == 0 && p.entries[0].Size() == 0 && p.entries[0].Lo() != 0
  {
    hide Right, WellFormed;
    var empty, add := PlacedPacket(1, 0), Add(tag, 0, 1, [v], []);
    PlaceIsWellFormed(1, 0);
    PlacedIsRight(1, 0, tagType);
    p := Do(empty, add);
    DoKeepsRight(empty, add, tagType);
    assert Inlined(ZERO_UNION, [v]) == [v, 0, 0, 0];
  }

  lemma PlacedIsRight(entryCapacity: uint32, dataCapacity: uint32, tagType: uint32 -> int)
    ensures Right(PlacedPacket(entryCapacity, dataCapacity), tagType)
  {
    PlaceIsWellFormed(entryCapacity, dataCapacity);
  }

  /** Emptying that entry makes a buffer that the validator rejects, at any address. */
  lemma EmptiedIsRejected(tag: uint32, v: uint8, base: nat, tagType: uint32 -> int) returns (q: Packet)
    requires v != 0 && tagType(tag) == 0
    ensures WellFormed(PlacedPacket(1, 0)) && WellFormed(Do(PlacedPacket(1, 0), Add(tag, 0, 1, [v], [])))
    ensures q == Do(Do(PlacedPacket(1, 0), Add(tag, 0, 1, [v], [])), Update(0, 0, [], []))
    ensures WellFormed(q) && !Accepted(q, base, tagType)
  {
    hide Right, WellFormed, Accepted, Updated, Entry.Lo;
    var p := OneByteAdded(tag, v, tagType);
    RightIsWellFormed(p, tagType);
    UpdateIsAcceptedIff(p, 0, 0, [], [], base, tagType);
    q := Do(p, Update(0, 0, [], []));
  }

  lemma RightIsWellFormed(p: Packet, tagType: uint32 -> int)
    requires Right(p, tagType)
    ensures WellFormed(p)
  {
    hide WellFormed;
  }
}
