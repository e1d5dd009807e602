/**
 Packed camera metadata (camera/src/camera_metadata.c): a table of entries and a heap of
 values in one buffer. Values of at most 4 bytes live in the entry itself; larger ones are
 extents of the heap, padded to 8 bytes. This module says what each operation does to the
 live part of a buffer, and what the live part means: a sequence of (tag, type, bytes).
 */
module Packet {

  const WORD: int := 0x1_0000_0000
  const NUM_TYPES: int := 6
  const DATA_ALIGNMENT: int := 8

  type uint8 = x: int | 0 <= x < 256
  type uint32 = x: int | 0 <= x < WORD
  type EntryType = t: int | 0 <= t < NUM_TYPES

  /** camera_metadata_type_size: byte, int32, float, int64, double, rational. */
  function TypeSize(t: EntryType): (r: nat)
    ensures r == [1, 4, 4, 8, 8, 8][t]
  {
    if t == 0 then 1 else if t <= 2 then 4 else 8
  }

  function Align8(n: nat): (r: nat)
    ensures n <= r < n + 8 && r % 8 == 0
  {
    (n + 7) / 8 * 8
  }

  /** calculate_camera_metadata_entry_data_size: heap bytes taken by count values. */
  function DataSize(t: EntryType, count: nat): (r: nat)
    ensures r % 8 == 0
    ensures r == 0 <==> count * TypeSize(t) <= 4
    ensures r > 0 ==> count * TypeSize(t) <= r < count * TypeSize(t) + 8
  {
    var bytes := count * TypeSize(t);
    if bytes <= 4 then 0 else Align8(bytes)
  }

  // ---- the union of an inline value and a heap offset

  type Union = v: seq<uint8> | |v| == 4 witness [0, 0, 0, 0]

  /** The union read as a 32-bit offset, least significant byte first. */
  function OffsetOf(v: Union): uint32 {
    var a: int, b: int, c: int, d: int := v[0], v[1], v[2], v[3];
    a + 0x100 * (b + 0x100 * (c + 0x100 * d))
  }

  function UnionOf(offset: uint32): Union {
    [offset % 0x100, offset / 0x100 % 0x100, offset / 0x100 / 0x100 % 0x100, offset / 0x100 / 0x100 / 0x100]
  }

  lemma UnionRoundTrip(offset: uint32, v: Union)
    ensures OffsetOf(UnionOf(offset)) == offset
    ensures UnionOf(OffsetOf(v)) == v
  {
    var a: int, b: int, c: int, d: int := v[0], v[1], v[2], v[3];
    Digit(OffsetOf(v), a, b + 0x100 * (c + 0x100 * d));
    Digit(b + 0x100 * (c + 0x100 * d), b, c + 0x100 * d);
    Digit(c + 0x100 * d, c, d);
  }

  lemma Digit(x: int, low: int, high: int)
    requires x == low + 0x100 * high && 0 <= low < 0x100
    ensures x % 0x100 == low && x / 0x100 == high
  {
  }

  datatype Entry = Entry(tag: uint32, count: uint32, value: Union, kind: EntryType) {
    function Payload(): nat {
      count * TypeSize(kind)
    }

    function Size(): nat {
      DataSize(kind, count)
    }

    function Lo(): uint32 {
      OffsetOf(value)
    }

    function Hi(): nat {
      Lo() + Size()
    }

    function At(offset: uint32): Entry {
      this.(value := UnionOf(offset))
    }
  }

  /** Moving an entry's extent changes only its offset. */
  lemma AtMoves(e: Entry, offset: uint32)
    ensures e.At(offset).Lo() == offset && e.At(offset).Size() == e.Size()
  {
    UnionRoundTrip(offset, e.value);
  }

  // ---- the live part of a buffer

  datatype Packet = Packet(
    entries: seq<Entry>, data: seq<uint8>, entryCapacity: uint32, dataCapacity: uint32, sorted: bool, vendor: nat)

  /** Entry j owns byte b of the heap. */
  ghost predicate Owns(entries: seq<Entry>, j: nat, b: int) {
    j < |entries| && entries[j].Lo() <= b < entries[j].Hi()
  }

  ghost predicate Covered(entries: seq<Entry>, hole: int, b: int) {
    exists j: nat :: j != hole && Owns(entries, j, b)
  }

  ghost predicate Apart(d: Entry, e: Entry) {
    d.Size() > 0 && e.Size() > 0 ==> d.Hi() <= e.Lo() || e.Hi() <= d.Lo()
  }

  ghost predicate Placed(e: Entry, n: nat) {
    e.Size() > 0 ==> e.Lo() % DATA_ALIGNMENT == 0 && e.Hi() <= n
  }

  /** The extents are aligned, disjoint, and cover the heap exactly; entry hole, if it exists,
      is left out of account. */
  ghost predicate Tiled(entries: seq<Entry>, n: nat, hole: int) {
    && n % DATA_ALIGNMENT == 0
    && (forall j: nat :: j < |entries| && j != hole ==> Placed(entries[j], n))
    && (forall j: nat, k: nat :: j < k < |entries| && j != hole && k != hole ==> Apart(entries[j], entries[k]))
    && (forall b: nat :: b < n ==> Covered(entries, hole, b))
  }

  const NO_HOLE: int := -1

  ghost predicate WellFormed(p: Packet) {
    && |p.entries| <= p.entryCapacity && |p.data| <= p.dataCapacity
    && Tiled(p.entries, |p.data|, NO_HOLE)
  }

  // ---- what it means

  datatype Item = Item(tag: uint32, kind: EntryType, bytes: seq<uint8>)

  function ItemOf(e: Entry, data: seq<uint8>): Item
    requires e.Size() > 0 ==> e.Hi() <= |data|
  {
    Item(e.tag, e.kind,
         if e.Size() == 0 then e.value[..e.Payload()] else data[e.Lo()..e.Lo() + e.Payload()])
  }

  /** The abstract view: the entries in table order, each with its tag, type and value bytes. */
  ghost function Items(p: Packet): (items: seq<Item>)
    requires WellFormed(p)
    ensures |items| == |p.entries|
  {
    seq(|p.entries|, i requires 0 <= i < |p.entries| => ItemAt(p, i))
  }

  ghost function ItemAt(p: Packet, i: nat): Item
    requires WellFormed(p) && i < |p.entries|
  {
    assert Placed(p.entries[i], |p.data|);
    ItemOf(p.entries[i], p.data)
  }

  // ---- removing one extent from the heap

  /** An entry after the extent of s bytes at offset lo was cut out (lines 852-856, 908-912). */
  function Shifted(e: Entry, lo: uint32, s: nat): Entry {
    if e.Size() > 0 && e.Lo() > lo then e.At((e.Lo() - s) % WORD) else e
  }

  function ShiftedAll(entries: seq<Entry>, lo: uint32, s: nat): (r: seq<Entry>)
    ensures |r| == |entries|
  {
    seq(|entries|, j requires 0 <= j < |entries| => Shifted(entries[j], lo, s))
  }

  lemma ShiftIs(e: Entry, lo: uint32, s: nat)
    requires e.Size() > 0 && e.Lo() > lo && e.Lo() >= s
    ensures Shifted(e, lo, s).Lo() == e.Lo() - s && Shifted(e, lo, s).Size() == e.Size()
  {
    hide OffsetOf, UnionOf, DataSize, Entry.Lo, Entry.Size, Entry.At;
    AtMoves(e, e.Lo() - s);
  }

  lemma ShiftKeeps(e: Entry, lo: uint32, s: nat)
    ensures
      var f := Shifted(e, lo, s);
      f.tag == e.tag && f.kind == e.kind && f.count == e.count && f.Size() == e.Size()
      && (e.Size() == 0 || e.Lo() <= lo ==> f == e)
  {
  }

  /** One entry's place after extent [lo, hi) was cut out of the heap. */
  lemma ShiftedPlace(d: Entry, cut: Entry, n: nat)
    requires Placed(d, n) && Placed(cut, n) && Apart(d, cut) && cut.Size() > 0 && n % 8 == 0
    ensures
      var f := Shifted(d, cut.Lo(), cut.Size());
      && f.Size() == d.Size() && Placed(f, n - cut.Size())
      && (d.Size() > 0 && d.Hi() <= cut.Lo() ==> f.Lo() == d.Lo())
      && (d.Size() > 0 && cut.Hi() <= d.Lo() ==> f.Lo() == d.Lo() - cut.Size())
  {
    hide Entry.Size, Entry.Lo, Shifted;
    ShiftKeeps(d, cut.Lo(), cut.Size());
    if d.Size() > 0 && cut.Hi() <= d.Lo() {
      ShiftIs(d, cut.Lo(), cut.Size());
      SizeAligned(cut);
    }
  }

  lemma SizeAligned(e: Entry)
    ensures e.Size() % 8 == 0
  {
  }

  lemma ApartSymmetric(d: Entry, e: Entry)
    ensures Apart(d, e) == Apart(e, d)
  {
  }

  lemma TiledApart(entries: seq<Entry>, n: nat, hole: int, j: nat, k: nat)
    requires Tiled(entries, n, hole) && j < |entries| && k < |entries| && j != k && j != hole && k != hole
    ensures Placed(entries[j], n) && Placed(entries[k], n) && Apart(entries[j], entries[k])
  {
    hide Apart, Placed;
    ApartSymmetric(entries[j], entries[k]);
  }

  /** Cutting out the extent of entry i closes the gap: the others still tile the heap. */
  lemma CutKeepsTiles(entries: seq<Entry>, n: nat, i: nat)
    requires Tiled(entries, n, NO_HOLE) && i < |entries| && entries[i].Size() > 0
    ensures entries[i].Size() <= n
    ensures Tiled(ShiftedAll(entries, entries[i].Lo(), entries[i].Size()), n - entries[i].Size(), i)
  {
    hide Entry.Size, Entry.Lo, Shifted, Apart, Placed, Owns;
    var cut := entries[i];
    var lo, s := cut.Lo(), cut.Size();
    var after := ShiftedAll(entries, lo, s);
    assert s <= n by { PlacedMeans(cut, n); }
    SizeAligned(cut);
    forall j: nat | j < |after| && j != i
      ensures Placed(after[j], n - s)
    {
      TiledApart(entries, n, NO_HOLE, j, i);
      ShiftedPlace(entries[j], cut, n);
    }
    forall j: nat, k: nat | j < k < |after| && j != i && k != i
      ensures Apart(after[j], after[k])
    {
      TiledApart(entries, n, NO_HOLE, j, i);
      TiledApart(entries, n, NO_HOLE, k, i);
      TiledApart(entries, n, NO_HOLE, j, k);
      ShiftedApart(entries[j], entries[k], cut, n);
    }
    forall b: nat | b < n - s
      ensures Covered(after, i, b)
    {
      CutCovers(entries, n, i, b);
    }
  }

  lemma PlacedMeans(e: Entry, n: nat)
    requires Placed(e, n) && e.Size() > 0
    ensures e.Hi() <= n && e.Lo() % 8 == 0
  {
  }

  lemma ShiftedApart(d: Entry, e: Entry, cut: Entry, n: nat)
    requires n % 8 == 0 && cut.Size() > 0 && Placed(d, n) && Placed(e, n) && Placed(cut, n)
    requires Apart(d, cut) && Apart(e, cut) && Apart(d, e)
    ensures Apart(Shifted(d, cut.Lo(), cut.Size()), Shifted(e, cut.Lo(), cut.Size()))
  {
    hide Entry.Size, Entry.Lo, Shifted;
    ShiftedPlace(d, cut, n);
    ShiftedPlace(e, cut, n);
  }

  lemma CutCovers(entries: seq<Entry>, n: nat, i: nat, b: nat)
    requires Tiled(entries, n, NO_HOLE) && i < |entries| && entries[i].Size() > 0
    requires b + entries[i].Size() < n
    ensures Covered(ShiftedAll(entries, entries[i].Lo(), entries[i].Size()), i, b)
  {
    hide Entry.Size, Entry.Lo, Shifted, Apart, Placed;
    var cut := entries[i];
    var was := if b < cut.Lo() then b else b + cut.Size();
    assert Covered(entries, NO_HOLE, was);
    var j: nat :| Owns(entries, j, was);
    if j != i {
      TiledApart(entries, n, NO_HOLE, j, i);
      OwnerShifts(entries[j], cut, n, was);
      assert Owns(ShiftedAll(entries, cut.Lo(), cut.Size()), j, b);
    } else {
      assert false;
    }
  }

  lemma OwnerShifts(d: Entry, cut: Entry, n: nat, was: nat)
    requires n % 8 == 0 && cut.Size() > 0 && Placed(d, n) && Placed(cut, n) && Apart(d, cut)
    requires d.Lo() <= was < d.Hi()
    requires was < cut.Lo() || cut.Hi() <= was
    ensures
      var f := Shifted(d, cut.Lo(), cut.Size());
      var b := if was < cut.Lo() then was else was - cut.Size();
      f.Lo() <= b < f.Hi()
  {
    hide Entry.Size, Entry.Lo, Shifted;
    ShiftedPlace(d, cut, n);
  }

  /** The heap with bytes [lo, hi) cut out (the memmove of lines 843-846, 898-901). */
  function Cut(data: seq<uint8>, lo: nat, hi: nat): seq<uint8>
    requires lo <= hi <= |data|
  {
    data[..lo] + data[hi..]
  }

  /** The other entries keep their values. */
  lemma CutKeepsItem(d: Entry, cut: Entry, data: seq<uint8>)
    requires |data| % 8 == 0 && cut.Size() > 0 && Placed(d, |data|) && Placed(cut, |data|) && Apart(d, cut)
    ensures
      var f := Shifted(d, cut.Lo(), cut.Size());
      && Placed(f, |data| - cut.Size())
      && ItemOf(f, Cut(data, cut.Lo(), cut.Hi())) == ItemOf(d, data)
  {
    hide Entry.Size, Entry.Lo, Entry.Payload, Shifted;
    ShiftedPlace(d, cut, |data|);
    ShiftKeeps(d, cut.Lo(), cut.Size());
    PayloadFits(d);
    PayloadOfShifted(d, cut.Lo(), cut.Size());
  }

  lemma PayloadFits(e: Entry)
    ensures e.Size() > 0 ==> e.Payload() <= e.Size()
    ensures e.Size() == 0 <==> e.Payload() <= 4
  {
  }

  lemma PayloadOfShifted(e: Entry, lo: uint32, s: nat)
    ensures Shifted(e, lo, s).Payload() == e.Payload()
    ensures e.Size() == 0 ==> Shifted(e, lo, s).value == e.value
  {
  }

  // ---- place, copy and clone

  function PlacedPacket(entryCapacity: uint32, dataCapacity: uint32): Packet {
    Packet([], [], entryCapacity, dataCapacity, false, INVALID_VENDOR)
  }

  const INVALID_VENDOR: nat := 0xFFFF_FFFF_FFFF_FFFF

  lemma PlaceIsWellFormed(entryCapacity: uint32, dataCapacity: uint32)
    ensures WellFormed(PlacedPacket(entryCapacity, dataCapacity))
    ensures Items(PlacedPacket(entryCapacity, dataCapacity)) == []
  {
  }

  /** copy_camera_metadata: the same live part in a buffer of exactly its size. */
  function Copied(src: Packet): Packet
    requires |src.entries| < WORD && |src.data| < WORD
  {
    Packet(src.entries, src.data, |src.entries|, |src.data|, src.sorted, src.vendor)
  }

  lemma CopyPreserves(src: Packet)
    requires WellFormed(src)
    ensures WellFormed(Copied(src)) && Items(Copied(src)) == Items(src)
    ensures Copied(src).sorted == src.sorted && Copied(src).vendor == src.vendor
  {
    hide Tiled, ItemOf;
  }

  // ---- filling the hole: the steps of add and update

  /** Entry i gets a new extent at the end of the heap, or an inline value. */
  lemma FillKeepsTiles(entries: seq<Entry>, n: nat, i: nat, e: Entry)
    requires i < |entries| && Tiled(entries, n, i)
    requires e.Size() > 0 ==> e.Lo() == n
    ensures Tiled(entries[i := e], n + e.Size(), NO_HOLE)
  {
    hide Entry.Size, Entry.Lo, Owns;
    var after := entries[i := e];
    SizeAligned(e);
    forall j: nat, k: nat | j < k < |after|
      ensures Apart(after[j], after[k])
    {
      if j == i {
        assert Placed(entries[k], n);
      } else if k == i {
        assert Placed(entries[j], n);
      } else {
        TiledApart(entries, n, i, j, k);
      }
    }
    forall b: nat | b < n + e.Size()
      ensures Covered(after, NO_HOLE, b)
    {
      if b >= n {
        assert Owns(after, i, b) by { OwnsMeans(after, i, b); }
      } else {
        assert Covered(entries, i, b);
        var j: nat :| j != i && Owns(entries, j, b);
        assert Owns(after, j, b) by { OwnsMeans(after, j, b); OwnsMeans(entries, j, b); }
      }
    }
  }

  lemma OwnsMeans(entries: seq<Entry>, j: nat, b: int)
    ensures Owns(entries, j, b) <==> j < |entries| && entries[j].Lo() <= b < entries[j].Lo() + entries[j].Size()
  {
  }

  /** An entry without an extent may as well be left out of account. */
  lemma InlineIsHole(entries: seq<Entry>, n: nat, i: nat)
    requires Tiled(entries, n, NO_HOLE) && i < |entries| && entries[i].Size() == 0
    ensures Tiled(entries, n, i)
  {
    hide Apart, Placed;
    forall b: nat | b < n
      ensures Covered(entries, i, b)
    {
      assert Covered(entries, NO_HOLE, b);
      var j: nat :| Owns(entries, j, b);
      assert j != i;
    }
  }

  /** The table without entry i (the memmove of lines 862-864). */
  function Without(entries: seq<Entry>, i: nat): seq<Entry>
    requires i < |entries|
  {
    entries[..i] + entries[i + 1..]
  }

  lemma DropHole(entries: seq<Entry>, n: nat, i: nat)
    requires i < |entries| && Tiled(entries, n, i)
    ensures Tiled(Without(entries, i), n, NO_HOLE)
  {
    hide Entry.Size, Entry.Lo, Apart, Placed, Owns;
    var after := Without(entries, i);
    forall j: nat, k: nat | j < k < |after|
      ensures Apart(after[j], after[k])
    {
      TiledApart(entries, n, i, if j < i then j else j + 1, if k < i then k else k + 1);
    }
    forall j: nat | j < |after|
      ensures Placed(after[j], n)
    {
      assert after[j] == entries[if j < i then j else j + 1];
    }
    forall b: nat | b < n
      ensures Covered(after, NO_HOLE, b)
    {
      assert Covered(entries, i, b);
      var j: nat :| j != i && Owns(entries, j, b);
      OwnsMeans(entries, j, b);
      var j' := if j < i then j else j - 1;
      OwnsMeans(after, j', b);
      assert after[j'] == entries[j];
    }
  }

  // ---- delete_camera_metadata_entry

  function Deleted(p: Packet, i: nat): Packet
    requires i < |p.entries| && (p.entries[i].Size() > 0 ==> p.entries[i].Hi() <= |p.data|)
  {
    var e := p.entries[i];
    if e.Size() == 0 then p.(entries := Without(p.entries, i))
    else p.(entries := Without(ShiftedAll(p.entries, e.Lo(), e.Size()), i), data := Cut(p.data, e.Lo(), e.Hi()))
  }

  lemma EntryPlaced(p: Packet, i: nat)
    requires WellFormed(p) && i < |p.entries|
    ensures Placed(p.entries[i], |p.data|)
    ensures p.entries[i].Size() > 0 ==> p.entries[i].Hi() <= |p.data|
    ensures Items(p)[i] == ItemOf(p.entries[i], p.data)
  {
    hide ItemOf, Entry.Size, Entry.Lo;
  }

  /** Deleting entry i keeps the heap exactly tiled and removes item i, no other. */
  lemma DeleteRefines(p: Packet, i: nat)
    requires WellFormed(p) && i < |p.entries|
    ensures p.entries[i].Size() > 0 ==> p.entries[i].Hi() <= |p.data|
    ensures WellFormed(Deleted(p, i))
    ensures Items(Deleted(p, i)) == Items(p)[..i] + Items(p)[i + 1..]
  {
    hide ItemOf, Entry.Size, Entry.Lo, Shifted, Tiled;
    EntryPlaced(p, i);
    var e := p.entries[i];
    if e.Size() == 0 {
      InlineIsHole(p.entries, |p.data|, i);
      DropHole(p.entries, |p.data|, i);
    } else {
      CutKeepsTiles(p.entries, |p.data|, i);
      DropHole(ShiftedAll(p.entries, e.Lo(), e.Size()), |p.data| - e.Size(), i);
    }
    var q := Deleted(p, i);
    forall j: nat | j < |q.entries|
      ensures Items(q)[j] == Items(p)[if j < i then j else j + 1]
    {
      var k := if j < i then j else j + 1;
      EntryPlaced(q, j);
      EntryPlaced(p, k);
      if e.Size() > 0 {
        CutKeepsItemAt(p, k, i);
      }
    }
  }

  lemma CutKeepsItemAt(p: Packet, k: nat, i: nat)
    requires WellFormed(p) && i < |p.entries| && k < |p.entries| && k != i && p.entries[i].Size() > 0
    ensures p.entries[i].Hi() <= |p.data|
    ensures
      var f := Shifted(p.entries[k], p.entries[i].Lo(), p.entries[i].Size());
      var data := Cut(p.data, p.entries[i].Lo(), p.entries[i].Hi());
      && (f.Size() > 0 ==> f.Hi() <= |data|)
      && ItemOf(f, data) == Items(p)[k]
  {
    hide ItemOf, Entry.Size, Entry.Lo, Shifted;
    EntryPlaced(p, i);
    EntryPlaced(p, k);
    TiledApart(p.entries, |p.data|, NO_HOLE, k, i);
    CutKeepsItem(p.entries[k], p.entries[i], p.data);
    PlacedHi(Shifted(p.entries[k], p.entries[i].Lo(), p.entries[i].Size()), |p.data| - p.entries[i].Size());
  }

  lemma PlacedHi(e: Entry, n: nat)
    requires Placed(e, n)
    ensures e.Size() > 0 ==> e.Hi() <= n
  {
  }

  // ---- add_camera_metadata_entry_raw

  /** memcpy of a payload into the first bytes of the union. */
  function Inlined(value: Union, payload: seq<uint8>): Union
    requires |payload| <= 4
  {
    payload + value[|payload|..]
  }

  const ZERO_UNION: Union := [0, 0, 0, 0]

  /** The entry that add writes at the end of the table, when heap bytes are in use. */
  function NewEntry(tag: uint32, kind: EntryType, payload: seq<uint8>, count: uint32, heap: uint32): Entry
    requires |payload| == count * TypeSize(kind)
  {
    Entry(tag, count, if DataSize(kind, count) == 0 then Inlined(ZERO_UNION, payload) else UnionOf(heap), kind)
  }

  /** The heap after a payload of that kind was appended; pad is what the buffer held beyond it. */
  function Grown(data: seq<uint8>, kind: EntryType, count: nat, payload: seq<uint8>, pad: seq<uint8>): seq<uint8> {
    if DataSize(kind, count) == 0 then data else data + payload + pad
  }

  ghost predicate PadFits(kind: EntryType, count: nat, payload: seq<uint8>, pad: seq<uint8>) {
    |payload| == count * TypeSize(kind) && (DataSize(kind, count) > 0 ==> |payload| + |pad| == DataSize(kind, count))
  }

  ghost predicate RoomToAdd(p: Packet, kind: EntryType, count: nat) {
    |p.entries| < p.entryCapacity && DataSize(kind, count) + |p.data| <= p.dataCapacity
  }

  function Added(p: Packet, tag: uint32, kind: EntryType, count: uint32, payload: seq<uint8>, pad: seq<uint8>): Packet
    requires |payload| == count * TypeSize(kind) && |p.data| < WORD
  {
    p.(entries := p.entries + [NewEntry(tag, kind, payload, count, |p.data|)],
       data := Grown(p.data, kind, count, payload, pad), sorted := false)
  }

  lemma NewEntryIs(tag: uint32, kind: EntryType, payload: seq<uint8>, count: uint32, heap: uint32)
    requires |payload| == count * TypeSize(kind)
    ensures
      var e := NewEntry(tag, kind, payload, count, heap);
      && e.Size() == DataSize(kind, count) && e.Payload() == |payload| && e.tag == tag && e.kind == kind
      && (e.Size() > 0 ==> e.Lo() == heap)
      && (e.Size() == 0 ==> |payload| <= 4 && e.value[..|payload|] == payload)
  {
    UnionRoundTrip(heap, ZERO_UNION);
  }

  /** An item does not change when the heap grows behind it. */
  lemma GrowKeepsItem(e: Entry, data: seq<uint8>, more: seq<uint8>)
    requires Placed(e, |data|)
    ensures Placed(e, |data + more|) && ItemOf(e, data + more) == ItemOf(e, data)
  {
    hide Entry.Size, Entry.Lo;
    PayloadFits(e);
    if e.Size() > 0 {
      assert (data + more)[e.Lo()..e.Lo() + e.Payload()] == data[e.Lo()..e.Lo() + e.Payload()];
    }
  }

  lemma TailItem(e: Entry, data: seq<uint8>, payload: seq<uint8>, pad: seq<uint8>)
    requires e.Size() > 0 && e.Lo() == |data| && e.Payload() == |payload| && |payload| + |pad| == e.Size()
    ensures ItemOf(e, data + payload + pad) == Item(e.tag, e.kind, payload)
  {
    hide Entry.Size, Entry.Lo;
    assert (data + payload + pad)[|data|..|data| + |payload|] == payload;
  }

  lemma AppendHole(entries: seq<Entry>, n: nat, e: Entry)
    requires Tiled(entries, n, NO_HOLE)
    ensures Tiled(entries + [e], n, |entries|)
  {
    hide Entry.Size, Entry.Lo, Apart, Placed, Owns;
    var after := entries + [e];
    forall j: nat, k: nat | j < k < |after| && k != |entries|
      ensures Apart(after[j], after[k])
    {
      TiledApart(entries, n, NO_HOLE, j, k);
    }
    forall b: nat | b < n
      ensures Covered(after, |entries|, b)
    {
      assert Covered(entries, NO_HOLE, b);
      var j: nat :| Owns(entries, j, b);
      OwnsMeans(entries, j, b);
      OwnsMeans(after, j, b);
    }
  }

  /** Adding appends one item with the payload given, and keeps the heap exactly tiled. */
  lemma AddRefines(p: Packet, tag: uint32, kind: EntryType, count: uint32, payload: seq<uint8>, pad: seq<uint8>)
    requires WellFormed(p) && RoomToAdd(p, kind, count) && PadFits(kind, count, payload, pad)
    ensures WellFormed(Added(p, tag, kind, count, payload, pad))
    ensures Items(Added(p, tag, kind, count, payload, pad)) == Items(p) + [Item(tag, kind, payload)]
  {
    hide ItemOf, Entry.Size, Entry.Lo, Entry.Payload, Tiled, DataSize, NewEntry;
    var n := |p.entries|;
    var e := NewEntry(tag, kind, payload, count, |p.data|);
    NewEntryIs(tag, kind, payload, count, |p.data|);
    var q := Added(p, tag, kind, count, payload, pad);
    AppendHole(p.entries, |p.data|, e);
    FillKeepsTiles(p.entries + [e], |p.data|, n, e);
    assert (p.entries + [e])[n := e] == p.entries + [e];
    forall j: nat | j < n
      ensures Items(q)[j] == Items(p)[j]
    {
      EntryPlaced(p, j);
      EntryPlaced(q, j);
      GrowKeepsItem(p.entries[j], p.data, payload + pad);
      assert p.data + payload + pad == p.data + (payload + pad);
    }
    EntryPlaced(q, n);
    if e.Size() > 0 {
      TailItem(e, p.data, payload, pad);
    } else {
      InlineItem(e, q.data);
    }
  }

  lemma InlineItem(e: Entry, data: seq<uint8>)
    requires e.Size() == 0
    ensures e.Payload() <= 4 && ItemOf(e, data) == Item(e.tag, e.kind, e.value[..e.Payload()])
  {
  }

  // ---- update_camera_metadata_entry

  /** What update puts into entry i: a fresh extent, the same extent, or an inline value that
      overwrites the first bytes of the union. */
  function NewValue(e: Entry, count: uint32, payload: seq<uint8>, heap: uint32): Entry
    requires |payload| == count * TypeSize(e.kind)
  {
    var size := DataSize(e.kind, count);
    var value := if size == 0 then Inlined(e.value, payload) else if size != e.Size() then UnionOf(heap) else e.value;
    Entry(e.tag, count, value, e.kind)
  }

  ghost predicate RoomToUpdate(p: Packet, i: nat, count: nat)
    requires i < |p.entries|
  {
    DataSize(p.entries[i].kind, count) + |p.data| - p.entries[i].Size() <= p.dataCapacity
      || DataSize(p.entries[i].kind, count) == p.entries[i].Size()
  }

  /** The table and heap once the old extent of entry i is gone. */
  function Freed(p: Packet, i: nat): Packet
    requires i < |p.entries| && (p.entries[i].Size() > 0 ==> p.entries[i].Hi() <= |p.data|)
  {
    var e := p.entries[i];
    if e.Size() == 0 then p
    else p.(entries := ShiftedAll(p.entries, e.Lo(), e.Size()), data := Cut(p.data, e.Lo(), e.Hi()))
  }

  function Overwritten(data: seq<uint8>, at: nat, payload: seq<uint8>): seq<uint8>
    requires at + |payload| <= |data|
  {
    data[..at] + payload + data[at + |payload|..]
  }

  function Updated(p: Packet, i: nat, count: uint32, payload: seq<uint8>, pad: seq<uint8>): Packet
    requires i < |p.entries| && (p.entries[i].Size() > 0 ==> p.entries[i].Hi() <= |p.data|) && |p.data| < WORD
    requires |payload| == count * TypeSize(p.entries[i].kind)
  {
    var e := p.entries[i];
    if DataSize(e.kind, count) == e.Size() then
      p.(entries := p.entries[i := NewValue(e, count, payload, 0)],
         data := if e.Size() == 0 then p.data else Overwritten(p.data, e.Lo(), payload))
    else
      var q := Freed(p, i);
      q.(entries := q.entries[i := NewValue(e, count, payload, |q.data|)],
         data := Grown(q.data, e.kind, count, payload, pad))
  }

  lemma NewValueIs(e: Entry, count: uint32, payload: seq<uint8>, heap: uint32)
    requires |payload| == count * TypeSize(e.kind)
    ensures
      var f := NewValue(e, count, payload, heap);
      && f.Size() == DataSize(e.kind, count) && f.Payload() == |payload| && f.tag == e.tag && f.kind == e.kind
      && (f.Size() > 0 && f.Size() != e.Size() ==> f.Lo() == heap)
      && (f.Size() > 0 && f.Size() == e.Size() ==> f.Lo() == e.Lo())
      && (f.Size() == 0 ==> |payload| <= 4 && f.value[..|payload|] == payload)
  {
    UnionRoundTrip(heap, e.value);
  }

  /** Freeing the old extent of entry i leaves a hole there and every other item as it was. */
  lemma FreeKeepsOthers(p: Packet, i: nat)
    requires WellFormed(p) && i < |p.entries|
    ensures p.entries[i].Size() > 0 ==> p.entries[i].Hi() <= |p.data|
    ensures
      var q := Freed(p, i);
      && |q.entries| == |p.entries| && Tiled(q.entries, |q.data|, i)
      && |q.data| == |p.data| - p.entries[i].Size()
      && forall k: nat | k < |p.entries| && k != i ::
           Placed(q.entries[k], |q.data|) && ItemOf(q.entries[k], q.data) == Items(p)[k]
  {
    hide ItemOf, Entry.Size, Entry.Lo, Shifted, Tiled;
    EntryPlaced(p, i);
    var e := p.entries[i];
    if e.Size() == 0 {
      InlineIsHole(p.entries, |p.data|, i);
    } else {
      CutKeepsTiles(p.entries, |p.data|, i);
    }
    var q := Freed(p, i);
    forall k: nat | k < |p.entries| && k != i
      ensures Placed(q.entries[k], |q.data|) && ItemOf(q.entries[k], q.data) == Items(p)[k]
    {
      TiledPlaced(q.entries, |q.data|, i, k);
      EntryPlaced(p, k);
      if e.Size() > 0 {
        CutKeepsItemAt(p, k, i);
      }
    }
  }

  lemma TiledPlaced(entries: seq<Entry>, n: nat, hole: int, j: nat)
    requires Tiled(entries, n, hole) && j < |entries| && j != hole
    ensures Placed(entries[j], n)
  {
  }

  /** Updating entry i replaces its bytes, touches no other item, and keeps the heap tiled. */
  lemma UpdateRefines(p: Packet, i: nat, count: uint32, payload: seq<uint8>, pad: seq<uint8>)
    requires WellFormed(p) && i < |p.entries| && RoomToUpdate(p, i, count)
    requires PadFits(p.entries[i].kind, count, payload, pad)
    ensures p.entries[i].Size() > 0 ==> p.entries[i].Hi() <= |p.data|
    ensures WellFormed(Updated(p, i, count, payload, pad))
    ensures Items(Updated(p, i, count, payload, pad)) == Items(p)[i := Items(p)[i].(bytes := payload)]
  {
    hide ItemOf, Entry.Size, Entry.Lo, Entry.Payload, Tiled, DataSize, NewValue, Freed, Placed, Owns;
    EntryPlaced(p, i);
    ItemTag(p.entries[i], p.data);
    if DataSize(p.entries[i].kind, count) == p.entries[i].Size() {
      UpdateInPlace(p, i, count, payload);
    } else {
      UpdateMoves(p, i, count, payload, pad);
    }
  }

  lemma ItemTag(e: Entry, data: seq<uint8>)
    requires e.Size() > 0 ==> e.Hi() <= |data|
    ensures ItemOf(e, data).tag == e.tag && ItemOf(e, data).kind == e.kind
  {
  }

  lemma UpdateMoves(p: Packet, i: nat, count: uint32, payload: seq<uint8>, pad: seq<uint8>)
    requires WellFormed(p) && i < |p.entries| && RoomToUpdate(p, i, count)
    requires PadFits(p.entries[i].kind, count, payload, pad)
    requires DataSize(p.entries[i].kind, count) != p.entries[i].Size()
    ensures p.entries[i].Size() > 0 ==> p.entries[i].Hi() <= |p.data|
    ensures WellFormed(Updated(p, i, count, payload, pad))
    ensures Items(Updated(p, i, count, payload, pad))
      == Items(p)[i := Item(p.entries[i].tag, p.entries[i].kind, payload)]
  {
    hide ItemOf, Entry.Size, Entry.Lo, Entry.Payload, Tiled, DataSize, NewValue, Freed, Placed, Owns;
    EntryPlaced(p, i);
    FreeKeepsOthers(p, i);
    var q := Freed(p, i);
    FreedCapacity(p, i);
    var f := NewValue(p.entries[i], count, payload, |q.data|);
    NewValueIs(p.entries[i], count, payload, |q.data|);
    FillKeepsTiles(q.entries, |q.data|, i, f);
    var u := Updated(p, i, count, payload, pad);
    forall k: nat | k < |p.entries| && k != i
      ensures Items(u)[k] == Items(p)[k]
    {
      EntryPlaced(u, k);
      GrowKeepsItem(q.entries[k], q.data, payload + pad);
      assert q.data + payload + pad == q.data + (payload + pad);
    }
    EntryPlaced(u, i);
    if f.Size() > 0 {
      TailItem(f, q.data, payload, pad);
    } else {
      InlineItem(f, u.data);
    }
  }

  lemma FreedCapacity(p: Packet, i: nat)
    requires i < |p.entries| && (p.entries[i].Size() > 0 ==> p.entries[i].Hi() <= |p.data|)
    ensures Freed(p, i).entryCapacity == p.entryCapacity && Freed(p, i).dataCapacity == p.dataCapacity
  {
  }

  lemma UpdateInPlace(p: Packet, i: nat, count: uint32, payload: seq<uint8>)
    requires WellFormed(p) && i < |p.entries|
    requires |payload| == count * TypeSize(p.entries[i].kind)
    requires DataSize(p.entries[i].kind, count) == p.entries[i].Size()
    ensures p.entries[i].Size() > 0 ==> p.entries[i].Hi() <= |p.data|
    ensures WellFormed(Updated(p, i, count, payload, []))
    ensures Items(Updated(p, i, count, payload, []))
      == Items(p)[i := Item(p.entries[i].tag, p.entries[i].kind, payload)]
  {
    hide ItemOf, Entry.Size, Entry.Lo, Entry.Payload, Tiled, DataSize, NewValue, Placed, Owns;
    EntryPlaced(p, i);
    var e := p.entries[i];
    var f := NewValue(e, count, payload, 0);
    NewValueIs(e, count, payload, 0);
    PayloadFits(f);
    SameExtentKeepsTiles(p.entries, |p.data|, i, f);
    var u := Updated(p, i, count, payload, []);
    forall k: nat | k < |p.entries| && k != i
      ensures Items(u)[k] == Items(p)[k]
    {
      EntryPlaced(p, k);
      EntryPlaced(u, k);
      if e.Size() > 0 {
        TiledApart(p.entries, |p.data|, NO_HOLE, k, i);
        OverwriteKeepsItem(p.entries[k], e, p.data, payload);
      }
    }
    EntryPlaced(u, i);
    if e.Size() > 0 {
      OverwrittenItem(f, p.data, payload);
    } else {
      InlineItem(f, u.data);
    }
  }

  lemma OverwriteKeepsItem(d: Entry, e: Entry, data: seq<uint8>, payload: seq<uint8>)
    requires Placed(d, |data|) && Placed(e, |data|) && Apart(d, e) && e.Size() > 0 && |payload| <= e.Size()
    ensures ItemOf(d, Overwritten(data, e.Lo(), payload)) == ItemOf(d, data)
  {
    hide Entry.Size, Entry.Lo, Entry.Payload;
    PayloadFits(d);
  }

  lemma OverwrittenItem(f: Entry, data: seq<uint8>, payload: seq<uint8>)
    requires f.Size() > 0 && f.Hi() <= |data| && f.Payload() == |payload| <= f.Size()
    ensures ItemOf(f, Overwritten(data, f.Lo(), payload)) == Item(f.tag, f.kind, payload)
  {
    hide Entry.Size, Entry.Lo, Entry.Payload;
  }

  lemma SameExtentKeepsTiles(entries: seq<Entry>, n: nat, i: nat, f: Entry)
    requires Tiled(entries, n, NO_HOLE) && i < |entries|
    requires f.Size() == entries[i].Size() && (f.Size() > 0 ==> f.Lo() == entries[i].Lo())
    ensures Tiled(entries[i := f], n, NO_HOLE)
  {
    hide Entry.Size, Entry.Lo, Owns;
    var after := entries[i := f];
    forall j: nat, k: nat | j < k < |after|
      ensures Apart(after[j], after[k])
    {
      TiledApart(entries, n, NO_HOLE, j, k);
    }
    forall b: nat | b < n
      ensures Covered(after, NO_HOLE, b)
    {
      assert Covered(entries, NO_HOLE, b);
      var j: nat :| Owns(entries, j, b);
      OwnsMeans(entries, j, b);
      OwnsMeans(after, j, b);
    }
  }

  // ---- append_camera_metadata

  /** A source entry after its extent moved behind the heap of the destination. */
  function Rebased(e: Entry, heap: uint32): Entry {
    if heap != 0 && e.Size() > 0 then e.At((e.Lo() + heap) % WORD) else e
  }

  function RebasedAll(entries: seq<Entry>, heap: uint32): (r: seq<Entry>)
    ensures |r| == |entries|
  {
    seq(|entries|, j requires 0 <= j < |entries| => Rebased(entries[j], heap))
  }

  ghost predicate RoomToAppend(dst: Packet, src: Packet) {
    && |src.entries| + |dst.entries| <= dst.entryCapacity && |src.data| + |dst.data| <= dst.dataCapacity
    && (dst.vendor == INVALID_VENDOR || src.vendor == INVALID_VENDOR || dst.vendor == src.vendor)
  }

  function Appended(dst: Packet, src: Packet): Packet
    requires |dst.data| < WORD
  {
    Packet(dst.entries + RebasedAll(src.entries, |dst.data|), dst.data + src.data,
           dst.entryCapacity, dst.dataCapacity,
           if |dst.entries| == 0 then dst.sorted || src.sorted else dst.sorted && |src.entries| == 0,
           if dst.vendor == INVALID_VENDOR then src.vendor else dst.vendor)
  }

  lemma RebasedIs(e: Entry, heap: uint32)
    requires e.Size() > 0 ==> e.Lo() + heap < WORD
    ensures
      var f := Rebased(e, heap);
      && f.tag == e.tag && f.kind == e.kind && f.count == e.count && f.Size() == e.Size() && f.Payload() == e.Payload()
      && (e.Size() > 0 ==> f.Lo() == e.Lo() + heap)
      && (e.Size() == 0 ==> f.value == e.value)
  {
    UnionRoundTrip((e.Lo() + heap) % WORD, e.value);
  }

  lemma RebasedItem(e: Entry, before: seq<uint8>, data: seq<uint8>)
    requires Placed(e, |data|) && |before| + |data| < WORD && |before| % 8 == 0
    ensures
      var f := Rebased(e, |before|);
      && Placed(f, |before + data|)
      && ItemOf(f, before + data) == ItemOf(e, data)
  {
    hide Entry.Size, Entry.Lo, Entry.Payload, Rebased;
    RebasedIs(e, |before|);
    PayloadFits(e);
    if e.Size() > 0 {
      SliceBehind(before, data, e.Lo(), e.Lo() + e.Payload());
    }
  }

  lemma SliceBehind<T>(before: seq<T>, data: seq<T>, lo: nat, hi: nat)
    requires lo <= hi <= |data|
    ensures (before + data)[|before| + lo..|before| + hi] == data[lo..hi]
  {
  }

  /** The entries of both tables, told apart by position. */
  lemma JoinedPlace(d: seq<Entry>, n: nat, e: seq<Entry>, m: nat, j: nat)
    requires Tiled(d, n, NO_HOLE) && Tiled(e, m, NO_HOLE) && n + m < WORD && j < |d| + |e|
    ensures
      var all := d + RebasedAll(e, n);
      && Placed(all[j], n + m)
      && (j < |d| ==> all[j] == d[j] && Placed(d[j], n))
      && (j >= |d| && all[j].Size() > 0 ==>
            all[j].Lo() == e[j - |d|].Lo() + n && all[j].Size() == e[j - |d|].Size())
      && (j >= |d| ==> all[j].Size() == e[j - |d|].Size())
  {
    hide Entry.Size, Entry.Lo, Rebased, Tiled;
    if j < |d| {
      TiledPlaced(d, n, NO_HOLE, j);
    } else {
      TiledPlaced(e, m, NO_HOLE, j - |d|);
      RebasedIs(e[j - |d|], n);
    }
    TiledAligned(d, n);
  }

  lemma TiledAligned(d: seq<Entry>, n: nat)
    requires Tiled(d, n, NO_HOLE)
    ensures n % 8 == 0
  {
  }

  lemma JoinKeepsTiles(d: seq<Entry>, n: nat, e: seq<Entry>, m: nat)
    requires Tiled(d, n, NO_HOLE) && Tiled(e, m, NO_HOLE) && n + m < WORD
    ensures Tiled(d + RebasedAll(e, n), n + m, NO_HOLE)
  {
    hide Entry.Size, Entry.Lo, Rebased, Owns, Apart, Placed, RebasedAll;
    var all := d + RebasedAll(e, n);
    forall j: nat | j < |all|
      ensures Placed(all[j], n + m)
    {
      JoinedPlace(d, n, e, m, j);
    }
    forall j: nat, k: nat | j < k < |all|
      ensures Apart(all[j], all[k])
    {
      JoinedApart(d, n, e, m, j, k);
    }
    forall b: nat | b < n + m
      ensures Covered(all, NO_HOLE, b)
    {
      JoinedCovers(d, n, e, m, b);
    }
  }

  lemma JoinedApart(d: seq<Entry>, n: nat, e: seq<Entry>, m: nat, j: nat, k: nat)
    requires Tiled(d, n, NO_HOLE) && Tiled(e, m, NO_HOLE) && n + m < WORD && j < k < |d| + |e|
    ensures Apart((d + RebasedAll(e, n))[j], (d + RebasedAll(e, n))[k])
  {
    hide Entry.Size, Entry.Lo, Tiled, RebasedAll;
    JoinedPlace(d, n, e, m, j);
    JoinedPlace(d, n, e, m, k);
    if k < |d| {
      TiledApart(d, n, NO_HOLE, j, k);
    } else if j >= |d| {
      TiledApart(e, m, NO_HOLE, j - |d|, k - |d|);
    }
  }

  lemma JoinedCovers(d: seq<Entry>, n: nat, e: seq<Entry>, m: nat, b: nat)
    requires Tiled(d, n, NO_HOLE) && Tiled(e, m, NO_HOLE) && n + m < WORD && b < n + m
    ensures Covered(d + RebasedAll(e, n), NO_HOLE, b)
  {
    hide Entry.Size, Entry.Lo, RebasedAll, Owns;
    var all := d + RebasedAll(e, n);
    if b < n {
      assert Covered(d, NO_HOLE, b);
      var j: nat :| Owns(d, j, b);
      OwnsMeans(d, j, b);
      OwnsMeans(all, j, b);
    } else {
      assert Covered(e, NO_HOLE, b - n);
      var j: nat :| Owns(e, j, b - n);
      OwnsMeans(e, j, b - n);
      JoinedPlace(d, n, e, m, |d| + j);
      OwnsMeans(all, |d| + j, b);
    }
  }

  /** Appending concatenates the items and keeps the heap exactly tiled. */
  lemma AppendRefines(dst: Packet, src: Packet)
    requires WellFormed(dst) && WellFormed(src) && RoomToAppend(dst, src)
    ensures WellFormed(Appended(dst, src))
    ensures Items(Appended(dst, src)) == Items(dst) + Items(src)
  {
    hide ItemOf, Entry.Size, Entry.Lo, Tiled, Rebased;
    JoinKeepsTiles(dst.entries, |dst.data|, src.entries, |src.data|);
    var all := Appended(dst, src);
    TiledAligned(dst.entries, |dst.data|);
    forall j: nat | j < |all.entries|
      ensures Items(all)[j] == (Items(dst) + Items(src))[j]
    {
      EntryPlaced(all, j);
      if j < |dst.entries| {
        EntryPlaced(dst, j);
        GrowKeepsItem(dst.entries[j], dst.data, src.data);
      } else {
        EntryPlaced(src, j - |dst.entries|);
        RebasedItem(src.entries[j - |dst.entries|], dst.data, src.data);
      }
    }
  }

  // ---- sort_camera_metadata

  /** order lists every index below n once. */
  ghost predicate Permutes(order: seq<nat>, n: nat) {
    && |order| == n
    && (forall j: nat | j < n :: order[j] < n)
    && (forall j: nat, k: nat | j < k < n :: order[j] != order[k])
    && (forall i: nat :: i < n ==> i in order)
  }

  function Reordered<T>(s: seq<T>, order: seq<nat>): seq<T>
    requires forall j: nat | j < |order| :: order[j] < |s|
  {
    seq(|order|, j requires 0 <= j < |order| => s[order[j]])
  }

  ghost predicate TagsSorted(entries: seq<Entry>) {
    forall j: nat, k: nat :: j < k < |entries| ==> entries[j].tag <= entries[k].tag
  }

  function Sorted(p: Packet, order: seq<nat>): Packet
    requires forall j: nat | j < |order| :: order[j] < |p.entries|
  {
    p.(entries := Reordered(p.entries, order), sorted := true)
  }

  lemma ReorderKeepsTiles(entries: seq<Entry>, n: nat, order: seq<nat>)
    requires Tiled(entries, n, NO_HOLE) && Permutes(order, |entries|)
    ensures Tiled(Reordered(entries, order), n, NO_HOLE)
  {
    hide Entry.Size, Entry.Lo, Apart, Placed, Owns;
    var after := Reordered(entries, order);
    forall j: nat, k: nat | j < k < |after|
      ensures Apart(after[j], after[k])
    {
      TiledApart(entries, n, NO_HOLE, order[j], order[k]);
    }
    forall b: nat | b < n
      ensures Covered(after, NO_HOLE, b)
    {
      assert Covered(entries, NO_HOLE, b);
      var i: nat :| Owns(entries, i, b);
      OwnsMeans(entries, i, b);
      assert i in order;
      var j: nat :| j < |order| && order[j] == i;
      OwnsMeans(after, j, b);
    }
  }

  /** Sorting permutes the items, the heap stays as it is. */
  lemma SortRefines(p: Packet, order: seq<nat>)
    requires WellFormed(p) && Permutes(order, |p.entries|)
    ensures WellFormed(Sorted(p, order))
    ensures Items(Sorted(p, order)) == Reordered(Items(p), order)
  {
    hide ItemOf, Entry.Size, Entry.Lo, Tiled;
    ReorderKeepsTiles(p.entries, |p.data|, order);
    var q := Sorted(p, order);
    forall j: nat | j < |q.entries|
      ensures Items(q)[j] == Items(p)[order[j]]
    {
      EntryPlaced(p, order[j]);
      EntryPlaced(q, j);
    }
  }

  /** There is always an order that qsort may return. */
  lemma {:induction false} SortingOrderExists(entries: seq<Entry>) returns (order: seq<nat>)
    ensures Permutes(order, |entries|)
    ensures TagsSorted(Reordered(entries, order))
  {
    if entries == [] {
      order := [];
    } else {
      var n := |entries| - 1;
      var before := SortingOrderExists(entries[..n]);
      var at := 0;
      while at < n && entries[before[at]].tag <= entries[n].tag
        invariant at <= n
        invariant forall j: nat | j < at :: entries[before[j]].tag <= entries[n].tag
      {
        at := at + 1;
      }
      order := before[..at] + [n] + before[at..];
      InsertedPermutes(before, n, at);
      InsertedSorted(entries, before, at);
    }
  }

  lemma InsertedPermutes(before: seq<nat>, n: nat, at: nat)
    requires Permutes(before, n) && at <= n
    ensures Permutes(before[..at] + [n] + before[at..], n + 1)
  {
    var order := before[..at] + [n] + before[at..];
    forall i: nat | i < n + 1
      ensures i in order
    {
      if i == n {
        assert order[at] == n;
      } else {
        assert i in before;
        var j: nat :| j < |before| && before[j] == i;
        assert order[if j < at then j else j + 1] == i;
      }
    }
  }

  lemma InsertedPair(entries: seq<Entry>, before: seq<nat>, at: nat, order: seq<nat>, j: nat, k: nat)
    requires entries != [] && Permutes(before, |entries| - 1) && at <= |before|
    requires TagsSorted(Reordered(entries[..|entries| - 1], before))
    requires forall i: nat | i < at :: entries[before[i]].tag <= entries[|entries| - 1].tag
    requires at < |before| ==> entries[|entries| - 1].tag < entries[before[at]].tag
    requires order == before[..at] + [|entries| - 1] + before[at..] && j < k < |order|
    ensures order[j] < |entries| && order[k] < |entries|
    ensures entries[order[j]].tag <= entries[order[k]].tag
  {
    var n := |entries| - 1;
    var ranked := Reordered(entries[..n], before);
    var j' := if j < at then j else j - 1;
    var k' := if k < at then k else k - 1;
    if j == at {
      assert order[j] == n && order[k] == before[k'];
      assert ranked[at].tag <= ranked[k'].tag by { assert at == k' || at < k'; }
    } else if k == at {
      assert order[k] == n && order[j] == before[j];
    } else {
      assert order[j] == before[j'] && order[k] == before[k'];
      assert ranked[j'].tag <= ranked[k'].tag;
    }
  }

  lemma InsertedSorted(entries: seq<Entry>, before: seq<nat>, at: nat)
    requires entries != [] && Permutes(before, |entries| - 1) && at <= |before|
    requires TagsSorted(Reordered(entries[..|entries| - 1], before))
    requires forall j: nat | j < at :: entries[before[j]].tag <= entries[|entries| - 1].tag
    requires at < |before| ==> entries[|entries| - 1].tag < entries[before[at]].tag
    ensures
      var order := before[..at] + [|entries| - 1] + before[at..];
      (forall j: nat | j < |order| :: order[j] < |entries|) && TagsSorted(Reordered(entries, order))
  {
    var n := |entries| - 1;
    var order := before[..at] + [n] + before[at..];
    InsertedInRange(before, at, n);
    hide Permutes;
    forall j: nat, k: nat | j < k < n + 1
      ensures entries[order[j]].tag <= entries[order[k]].tag
    {
      InsertedPair(entries, before, at, order, j, k);
    }
  }

  lemma InsertedInRange(before: seq<nat>, at: nat, n: nat)
    requires Permutes(before, n) && at <= |before|
    ensures |before| == n && forall j: nat | j < n + 1 :: (before[..at] + [n] + before[at..])[j] < n + 1
  {
  }
}
