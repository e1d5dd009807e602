/**
 The packed metadata buffer as an object changed in place (camera/src/camera_metadata.c).
 Every method is proved against the function of module Packet that says what it does to the
 live part of the buffer; bytes and entries beyond the live part are unconstrained.
 */
module Metadata {
  import opened Packet
  import opened PacketRules
  import opened Wrappers

  /** Item j is the only one with the tag. */
  ghost predicate OnlyAt(items: seq<Item>, j: nat, tag: uint32) {
    j < |items| && items[j].tag == tag && forall k: nat :: k < |items| && k != j ==> items[k].tag != tag
  }

  class CameraMetadata {
    const entries: array<Entry>
    const data: array<uint8>
    var entryCount: nat
    var dataCount: nat
    var sorted: bool
    var vendor: nat

    ghost predicate Valid()
      reads this, entries, data
    {
      && entries.Length < WORD && data.Length < WORD
      && entryCount <= entries.Length && dataCount <= data.Length
      && WellFormed(Live())
    }

    /** The live part: what a reader of the buffer can reach. */
    ghost function Live(): Packet
      requires entries.Length < WORD && data.Length < WORD
      requires entryCount <= entries.Length && dataCount <= data.Length
      reads this, entries, data
    {
      Packet(entries[..entryCount], data[..dataCount], entries.Length, data.Length, sorted, vendor)
    }

    /** place_camera_metadata; the storage may hold anything. */
    constructor Place(table: array<Entry>, heap: array<uint8>)
      requires table.Length < WORD && heap.Length < WORD
      ensures Valid() && entries == table && data == heap
      ensures Live() == PlacedPacket(table.Length, heap.Length)
    {
      entries, data := table, heap;
      entryCount, dataCount, sorted, vendor := 0, 0, false, INVALID_VENDOR;
      new;
      PlaceIsWellFormed(table.Length, heap.Length);
    }

    /** copy_camera_metadata, into storage of the compact size. */
    constructor CopyOf(src: CameraMetadata, table: array<Entry>, heap: array<uint8>)
      requires src.Valid() && table.Length == src.entryCount && heap.Length == src.dataCount
      requires table != src.entries && heap != src.data
      modifies table, heap
      ensures Valid() && entries == table && data == heap
      ensures Live() == Copied(old(src.Live()))
      ensures Items(Live()) == old(Items(src.Live())) && sorted == old(src.sorted) && vendor == old(src.vendor)
      ensures src.Live() == old(src.Live())
    {
      entries, data := table, heap;
      entryCount, dataCount, sorted, vendor := src.entryCount, src.dataCount, src.sorted, src.vendor;
      new;
      hide WellFormed;
      forall j | 0 <= j < entryCount {
        entries[j] := src.entries[j];
      }
      forall b | 0 <= b < dataCount {
        data[b] := src.data[b];
      }
      assert Live() == Copied(old(src.Live()));
      CopyPreserves(old(src.Live()));
    }

    /** add_camera_metadata_entry_raw. */
    method AddEntry(tag: uint32, kind: EntryType, payload: seq<uint8>, count: nat) returns (ok: bool)
      requires Valid() && |payload| == count * TypeSize(kind)
      modifies this, entries, data
      ensures Valid()
      ensures ok <==> RoomToAdd(old(Live()), kind, count)
      ensures !ok ==> Live() == old(Live())
      ensures ok ==> count < WORD && exists pad ::
        PadFits(kind, count, payload, pad) && Live() == Added(old(Live()), tag, kind, count, payload, pad)
    {
      hide WellFormed, DataSize, UnionOf, Inlined;
      var size := DataSize(kind, count);
      if entryCount == entries.Length || size + dataCount > data.Length {
        return false;
      }
      CountFits(kind, count);
      ghost var before := Live();
      ghost var pad := [];
      var value := ZERO_UNION;
      if size == 0 {
        value := Inlined(ZERO_UNION, payload);
      } else {
        value := UnionOf(dataCount);
        pad := data[dataCount + |payload|..dataCount + size];
        forall b | 0 <= b < |payload| {
          data[dataCount + b] := payload[b];
        }
        assert data[..dataCount + size] == before.data + payload + pad;
        dataCount := dataCount + size;
      }
      entries[entryCount] := Entry(tag, count, value, kind);
      entryCount := entryCount + 1;
      sorted := false;
      assert Live() == Added(before, tag, kind, count, payload, pad);
      AddRefines(before, tag, kind, count, payload, pad);
      return true;
    }

    /** The checks of append: 32-bit overflow, room, and the vendor. */
    method HasRoomFor(src: CameraMetadata) returns (ok: bool)
      requires Valid() && src.Valid()
      ensures ok <==> RoomToAppend(Live(), src.Live())
    {
      hide WellFormed;
      WrapMeansNoRoom(src.entryCount, entryCount);
      WrapMeansNoRoom(src.dataCount, dataCount);
      NoWrapSum(src.entryCount, entryCount);
      NoWrapSum(src.dataCount, dataCount);
      if (src.entryCount + entryCount) % WORD < src.entryCount || (src.dataCount + dataCount) % WORD < src.dataCount {
        return false;
      }
      if entries.Length < (src.entryCount + entryCount) % WORD || data.Length < (src.dataCount + dataCount) % WORD {
        return false;
      }
      return !(vendor != INVALID_VENDOR && src.vendor != INVALID_VENDOR && vendor != src.vendor);
    }

    /** append_camera_metadata; the source may be the buffer itself. */
    method Append(src: CameraMetadata) returns (ok: bool)
      requires Valid() && src.Valid()
      requires src == this || (src.entries != entries && src.data != data)
      modifies this, entries, data
      ensures Valid()
      ensures ok <==> RoomToAppend(old(Live()), old(src.Live()))
      ensures !ok ==> Live() == old(Live())
      ensures ok ==> Live() == Appended(old(Live()), old(src.Live()))
      ensures src != this ==> src.Live() == old(src.Live())
    {
      hide WellFormed, RebasedAll;
      ok := HasRoomFor(src);
      if !ok {
        return;
      }
      ghost var was, more := Live(), src.Live();
      var n, m, flag, id := src.entryCount, src.dataCount, src.sorted, src.vendor;
      CopyBehind(src);
      RebaseTable(n, was.entries, more.entries);
      AppendHeader(n, m, flag, id);
      assert Live() == Appended(was, more);
      AppendRefines(was, more);
    }

    /** The header fields after an append of n entries and m bytes. */
    method AppendHeader(n: nat, m: nat, flag: bool, id: nat)
      modifies this`sorted, this`vendor, this`entryCount, this`dataCount
      ensures sorted == if old(entryCount) == 0 then old(sorted) || flag else old(sorted) && n == 0
      ensures vendor == if old(vendor) == INVALID_VENDOR then id else old(vendor)
      ensures entryCount == old(entryCount) + n && dataCount == old(dataCount) + m
    {
      if entryCount == 0 {
        sorted := sorted || flag;
      } else if n != 0 {
        sorted := false;
      }
      vendor := if vendor == INVALID_VENDOR then id else vendor;
      entryCount := entryCount + n;
      dataCount := dataCount + m;
    }

    /** The two memcpy calls of append. */
    method CopyBehind(src: CameraMetadata)
      requires entryCount + src.entryCount <= entries.Length && dataCount + src.dataCount <= data.Length
      requires src.entryCount <= src.entries.Length && src.dataCount <= src.data.Length
      requires src == this || (src.entries != entries && src.data != data)
      modifies entries, data
      ensures entries[..entryCount + src.entryCount] == old(entries[..entryCount] + src.entries[..src.entryCount])
      ensures data[..dataCount + src.dataCount] == old(data[..dataCount] + src.data[..src.dataCount])
      ensures src != this ==>
        && src.entries[..src.entryCount] == old(src.entries[..src.entryCount])
        && src.data[..src.dataCount] == old(src.data[..src.dataCount])
    {
      forall j | 0 <= j < src.entryCount {
        entries[entryCount + j] := src.entries[j];
      }
      forall b | 0 <= b < src.dataCount {
        data[dataCount + b] := src.data[b];
      }
    }

    /** The loop of append: offsets of the n entries behind the live ones move by the heap. */
    method RebaseTable(n: nat, ghost was: seq<Entry>, ghost more: seq<Entry>)
      requires entryCount + n <= entries.Length && dataCount < WORD
      requires entries[..entryCount + n] == was + more && |was| == entryCount && |more| == n
      modifies entries
      ensures entries[..entryCount + n] == was + RebasedAll(more, dataCount)
    {
      hide Rebased;
      if dataCount != 0 {
        var i := 0;
        while i < n
          invariant 0 <= i <= n
          invariant forall j | 0 <= j < entryCount + n ::
            entries[j] == if entryCount <= j < entryCount + i then Rebased(more[j - entryCount], dataCount)
                          else (was + more)[j]
        {
          var e := entries[entryCount + i];
          RebasedCode(e, dataCount);
          if e.Size() > 0 {
            entries[entryCount + i] := e.At((e.Lo() + dataCount) % WORD);
          }
          i := i + 1;
        }
      } else {
        forall j: nat | j < n
          ensures Rebased(more[j], dataCount) == more[j]
        {
          RebasedCode(more[j], dataCount);
        }
      }
    }

    /** memmove of the heap behind an extent to its start. */
    method CutHeap(lo: nat, hi: nat)
      requires lo <= hi <= dataCount <= data.Length
      modifies data
      ensures data[..dataCount - (hi - lo)] == Cut(old(data[..dataCount]), lo, hi)
    {
      var length := dataCount - hi;
      forall b | 0 <= b < length {
        data[lo + b] := data[hi + b];
      }
    }

    /** The loop over all entries after an extent was cut out. */
    method ShiftTable(lo: uint32, s: nat)
      requires entryCount <= entries.Length
      modifies entries
      ensures entries[..entryCount] == ShiftedAll(old(entries[..entryCount]), lo, s)
    {
      hide Shifted;
      var i := 0;
      while i < entryCount
        invariant 0 <= i <= entryCount
        invariant forall j | 0 <= j < entryCount ::
          entries[j] == if j < i then Shifted(old(entries[j]), lo, s) else old(entries[j])
      {
        var e := entries[i];
        ShiftedCode(e, lo, s);
        if e.Size() > 0 && e.Lo() > lo {
          entries[i] := e.At((e.Lo() - s) % WORD);
        }
        i := i + 1;
      }
    }

    /** delete_camera_metadata_entry. */
    method Delete(index: nat) returns (ok: bool)
      requires Valid()
      modifies this, entries, data
      ensures Valid()
      ensures ok <==> index < old(entryCount)
      ensures !ok ==> Live() == old(Live())
      ensures ok ==> Live() == (EntryPlaced(old(Live()), index); Deleted(old(Live()), index))
    {
      hide WellFormed, Entry.Size, Entry.Lo, Shifted, Deleted, Freed, Without;
      if index >= entryCount {
        return false;
      }
      ghost var was := Live();
      EntryPlaced(was, index);
      DeleteRefines(was, index);
      var e := entries[index];
      FreeOld(index, e, e.Size());
      DropEntry(index);
      DeletedCode(was, index);
      return true;
    }

    /** memmove of the table behind an entry to its place. */
    method DropEntry(index: nat)
      requires entries.Length < WORD && data.Length < WORD
      requires index < entryCount <= entries.Length && dataCount <= data.Length
      modifies this`entryCount, entries
      ensures entryCount == old(entryCount) - 1
      ensures Live() == old(Live()).(entries := Without(old(Live()).entries, index))
    {
      forall j | index <= j < entryCount - 1 {
        entries[j] := entries[j + 1];
      }
      entryCount := entryCount - 1;
    }

    /** update_camera_metadata_entry; the payload has the entry's type. */
    method Update(index: nat, payload: seq<uint8>, count: nat) returns (ok: bool)
      requires Valid() && (index < entryCount ==> |payload| == count * TypeSize(entries[index].kind))
      modifies this, entries, data
      ensures Valid()
      ensures ok <==> index < old(entryCount) && RoomToUpdate(old(Live()), index, count)
      ensures !ok ==> Live() == old(Live())
      ensures ok ==> count < WORD && exists pad ::
        && PadFits(old(entries[index]).kind, count, payload, pad)
        && Live() == (EntryPlaced(old(Live()), index); Updated(old(Live()), index, count, payload, pad))
    {
      hide WellFormed, Entry.Size, Entry.Lo, Entry.At, DataSize, Shifted, UnionOf, Inlined, Updated, Freed;
      if index >= entryCount {
        return false;
      }
      ghost var was := Live();
      EntryPlaced(was, index);
      var e := entries[index];
      var size, oldSize := DataSize(e.kind, count), e.Size();
      CountFits(e.kind, count);
      if size != oldSize && data.Length < dataCount + size - oldSize {
        return false;
      }
      if size != oldSize {
        FreeOld(index, e, oldSize);
      }
      ghost var pad := Refill(index, e, payload, count, size != oldSize);
      UpdateRefines(was, index, count, payload, pad);
      UpdatedCode(was, index, count, payload, pad);
      assert Live() == Updated(was, index, count, payload, pad);
      return true;
    }

    /** The bytes of a value: at the end of the heap, or where the old value was. */
    method RefillData(lo: nat, payload: seq<uint8>, size: nat, moved: bool) returns (ghost pad: seq<uint8>)
      requires |payload| <= size && dataCount <= data.Length
      requires if moved then dataCount + size <= data.Length else lo + size <= dataCount
      modifies this`dataCount, data
      ensures |payload| + |pad| == size
      ensures dataCount == old(dataCount) + (if moved then size else 0) <= data.Length
      ensures data[..dataCount] == if moved then old(data[..dataCount]) + payload + pad
                                   else Overwritten(old(data[..dataCount]), lo, payload)
    {
      if moved {
        pad := data[dataCount + |payload|..dataCount + size];
        Store(dataCount, payload);
        dataCount := dataCount + size;
      } else {
        pad := data[lo + |payload|..lo + size];
        Store(lo, payload);
      }
    }

    /** The second half of update: the new value goes to the end of the heap if the size changed,
        to the same place if not, or into the entry itself. */
    method Refill(index: nat, e: Entry, payload: seq<uint8>, count: uint32, moved: bool) returns (ghost pad: seq<uint8>)
      requires entries.Length < WORD && data.Length < WORD
      requires index < entryCount <= entries.Length && dataCount <= data.Length && e == entries[index]
      requires |payload| == count * TypeSize(e.kind)
      requires var size := DataSize(e.kind, count);
        size > 0 ==> if moved then dataCount + size <= data.Length else size == e.Size() && e.Hi() <= dataCount
      modifies this`dataCount, entries, data
      ensures entryCount == old(entryCount) && dataCount <= data.Length
      ensures PadFits(e.kind, count, payload, pad)
      ensures Live() == Refilled(old(Live()), index, e, count, payload, pad, moved)
    {
      hide Entry.Size, Entry.Lo, Entry.At, DataSize, UnionOf, Inlined, TypeSize, Overwritten;
      var size := DataSize(e.kind, count);
      CountFits(e.kind, count);
      pad := [];
      var value := e.value;
      if size == 0 {
        value := Inlined(e.value, payload);
      } else {
        if moved {
          value := UnionOf(dataCount);
        }
        pad := RefillData(if moved then 0 else e.Lo(), payload, size, moved);
      }
      entries[index] := Entry(e.tag, count, value, e.kind);
    }

    /** memcpy of a payload into the heap. */
    method Store(at: nat, payload: seq<uint8>)
      requires at + |payload| <= data.Length
      modifies data
      ensures data[..] == old(data[..at]) + payload + old(data[at + |payload|..])
    {
      forall b | 0 <= b < |payload| {
        data[at + b] := payload[b];
      }
    }

    /** The first half of update: the old extent of an entry is cut out. */
    method FreeOld(index: nat, e: Entry, oldSize: nat)
      requires entries.Length < WORD && data.Length < WORD
      requires index < entryCount <= entries.Length && dataCount <= data.Length
      requires e == entries[index] && oldSize == e.Size() && (oldSize > 0 ==> e.Hi() <= dataCount)
      modifies this`dataCount, entries, data
      ensures dataCount == old(dataCount) - oldSize && entries[index] == e
      ensures Live() == Freed(old(Live()), index)
    {
      hide Entry.Size, Entry.Lo, Entry.At, Shifted;
      if oldSize != 0 {
        CutHeap(e.Lo(), e.Lo() + oldSize);
        dataCount := dataCount - oldSize;
        ShiftTable(e.Lo(), oldSize);
        ShiftKeeps(e, e.Lo(), oldSize);
      }
    }

    /** sort_camera_metadata; order is what qsort, given the comparison of tags, makes of the table. */
    method Sort(order: seq<nat>)
      requires Valid() && Permutes(order, entryCount)
      requires TagsSorted(Reordered(entries[..entryCount], order))
      modifies this`sorted, entries
      ensures Valid() && sorted
      ensures Live() == if old(sorted) then old(Live()) else Sorted(old(Live()), order)
    {
      hide WellFormed, TagsSorted, Permutes;
      if sorted {
        return;
      }
      ghost var was := Live();
      SortRefines(was, order);
      PermutesInRange(order, entryCount);
      var table := Reordered(entries[..entryCount], order);
      forall j | 0 <= j < entryCount {
        entries[j] := table[j];
      }
      assert entries[..entryCount] == table;
      sorted := true;
      assert Live() == Sorted(was, order);
    }

    /** get_camera_metadata_entry: the item at an index, or an error. */
    method GetEntry(index: nat) returns (item: Option<Item>)
      requires Valid()
      ensures item == if index < |Items(Live())| then Some(Items(Live())[index]) else None
    {
      hide WellFormed;
      ItemCount(Live());
      if index >= entryCount {
        return None;
      }
      EntryPlaced(Live(), index);
      var e := entries[index];
      EntryBytes(e, dataCount);
      if e.count * TypeSize(e.kind) > 4 {
        assert data[..dataCount][e.Lo()..e.Lo() + e.Payload()] == data[e.Lo()..e.Lo() + e.Payload()];
        return Some(Item(e.tag, e.kind, data[e.Lo()..e.Lo() + e.count * TypeSize(e.kind)]));
      } else {
        return Some(Item(e.tag, e.kind, e.value[..e.count * TypeSize(e.kind)]));
      }
    }

    /** The linear search of find_camera_metadata_entry: the first entry with the tag. */
    method LinearFind(tag: uint32) returns (index: Option<nat>)
      requires Valid()
      ensures index.Some? ==> index.value < entryCount && entries[index.value].tag == tag
      ensures index.Some? ==> forall j: nat :: j < index.value ==> entries[j].tag != tag
      ensures index.None? ==> forall j: nat :: j < entryCount ==> entries[j].tag != tag
    {
      hide Tiled;
      var i := 0;
      while i < entryCount
        invariant 0 <= i <= entryCount
        invariant forall j: nat :: j < i ==> entries[j].tag != tag
      {
        if entries[i].tag == tag {
          return Some(i);
        }
        i := i + 1;
      }
      return None;
    }

    /** bsearch over the table, which it needs to be sorted. */
    method BinaryFind(tag: uint32) returns (index: Option<nat>)
      requires Valid() && TagsSorted(entries[..entryCount])
      ensures index.Some? ==> index.value < entryCount && entries[index.value].tag == tag
      ensures index.None? ==> forall j: nat :: j < entryCount ==> entries[j].tag != tag
    {
      hide Tiled;
      ghost var table := entries[..entryCount];
      var lo, hi := 0, entryCount;
      while lo < hi
        invariant 0 <= lo <= hi <= entryCount
        invariant forall j: nat :: j < lo ==> table[j].tag < tag
        invariant forall j: nat :: hi <= j < entryCount ==> table[j].tag > tag
      {
        var mid := (lo + hi) / 2;
        assert table[mid] == entries[mid];
        if entries[mid].tag == tag {
          return Some(mid);
        } else if entries[mid].tag < tag {
          lo := mid + 1;
        } else {
          hi := mid;
        }
      }
      return None;
    }

    /** find_camera_metadata_entry: binary search when flagged as sorted, else linear. While the
        flag is right, either search finds an item with the tag exactly if there is one, and
        the only one if it is unique. */
    method Find(tag: uint32) returns (item: Option<Item>)
      requires Valid() && FlagRight(Live())
      ensures item.Some? ==> item.value in Items(Live()) && item.value.tag == tag
      ensures item.None? <==> forall j: nat :: j < |Items(Live())| ==> Items(Live())[j].tag != tag
      ensures forall j: nat :: j < |Items(Live())| && OnlyAt(Items(Live()), j, tag) ==> item == Some(Items(Live())[j])
    {
      hide WellFormed, Items;
      ItemCount(Live());
      TagsOfItems(Live());
      var index;
      if sorted {
        assert TagsSorted(entries[..entryCount]);
        index := BinaryFind(tag);
      } else {
        index := LinearFind(tag);
      }
      if index.None? {
        return None;
      }
      item := GetEntry(index.value);
    }

    /** clone_camera_metadata: a new buffer of the compact size, and an append onto it. */
    method Clone() returns (clone: CameraMetadata)
      requires Valid()
      ensures clone.Valid() && fresh(clone) && fresh(clone.entries) && fresh(clone.data)
      ensures clone.Live() == Appended(PlacedPacket(entryCount, dataCount), Live())
      ensures Items(clone.Live()) == Items(Live()) && clone.sorted == sorted && clone.vendor == vendor
    {
      hide WellFormed, RebasedAll;
      var blank := Entry(0, 0, ZERO_UNION, 0);
      var table := new Entry[entryCount](_ => blank);
      var heap := new uint8[dataCount](_ => 0);
      clone := new CameraMetadata.Place(table, heap);
      var ok := clone.Append(this);
      AppendRefines(PlacedPacket(entryCount, dataCount), Live());
      PlaceIsWellFormed(entryCount, dataCount);
    }
  }

  /** A count whose values fit the heap fits 32 bits. */
  lemma CountFits(kind: EntryType, count: nat)
    ensures DataSize(kind, count) < WORD ==> count < WORD
    ensures DataSize(kind, count) == 0 <==> count * TypeSize(kind) <= 4
    ensures DataSize(kind, count) > 0 ==> count * TypeSize(kind) <= DataSize(kind, count)
  {
  }

  lemma RebasedCode(e: Entry, heap: uint32)
    ensures Rebased(e, heap) == if heap != 0 && e.Size() > 0 then e.At((e.Lo() + heap) % WORD) else e
  {
  }

  lemma ShiftedCode(e: Entry, lo: uint32, s: nat)
    ensures Shifted(e, lo, s) == if e.Size() > 0 && e.Lo() > lo then e.At((e.Lo() - s) % WORD) else e
  {
  }

  lemma WrapMeansNoRoom(a: uint32, b: uint32)
    ensures (a + b) % WORD < a ==> a + b >= WORD
  {
  }

  lemma NoWrapSum(a: uint32, b: uint32)
    ensures (a + b) % WORD >= a ==> (a + b) % WORD == a + b
  {
  }

  function Refilled(
      q: Packet, i: nat, e: Entry, count: uint32, payload: seq<uint8>, pad: seq<uint8>, moved: bool): Packet
    requires i < |q.entries| && |q.data| < WORD && |payload| == count * TypeSize(e.kind)
    requires DataSize(e.kind, count) > 0 && !moved ==> e.Lo() + |payload| <= |q.data|
  {
    var size := DataSize(e.kind, count);
    var value := if size == 0 then Inlined(e.value, payload) else if moved then UnionOf(|q.data|) else e.value;
    var data := if size == 0 then q.data else if moved then q.data + payload + pad
      else Overwritten(q.data, e.Lo(), payload);
    q.(entries := q.entries[i := Entry(e.tag, count, value, e.kind)], data := data)
  }

  /** Freeing and dropping is deleting. */
  lemma DeletedCode(p: Packet, i: nat)
    requires i < |p.entries| && (p.entries[i].Size() > 0 ==> p.entries[i].Hi() <= |p.data|)
    ensures |Freed(p, i).entries| == |p.entries|
    ensures Deleted(p, i) == Freed(p, i).(entries := Without(Freed(p, i).entries, i))
  {
    hide Entry.Size, Entry.Lo, Shifted;
  }

  /** Freeing and refilling is updating. */
  lemma UpdatedCode(p: Packet, i: nat, count: uint32, payload: seq<uint8>, pad: seq<uint8>)
    requires i < |p.entries| && (p.entries[i].Size() > 0 ==> p.entries[i].Hi() <= |p.data|) && |p.data| < WORD
    requires |payload| == count * TypeSize(p.entries[i].kind)
    ensures
      var e := p.entries[i];
      var moved := DataSize(e.kind, count) != e.Size();
      var q := if moved then Freed(p, i) else p;
      && |q.entries| == |p.entries| && |q.data| <= |p.data|
      && Updated(p, i, count, payload, pad) == Refilled(q, i, e, count, payload, pad, moved)
  {
    hide Entry.Size, Entry.Lo, Entry.At, DataSize, Shifted, UnionOf, Inlined;
    CountFits(p.entries[i].kind, count);
  }

  lemma PermutesInRange(order: seq<nat>, n: nat)
    requires Permutes(order, n)
    ensures |order| == n && forall j: nat | j < |order| :: order[j] < n
  {
  }

  lemma EntryBytes(e: Entry, n: nat)
    ensures e.Size() == 0 <==> e.count * TypeSize(e.kind) <= 4
    ensures Placed(e, n) && e.Size() > 0 ==> e.Lo() + e.count * TypeSize(e.kind) <= n
    ensures e.Payload() == e.count * TypeSize(e.kind)
  {
  }
}
