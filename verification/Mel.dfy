/**
 Interval merging in the MEL aggregator (audio_utils/MelAggregator.cpp). Each record holds one
 value per second from its timestamp on. Adding a record merges it with all the stored records
 that it meets; the way two values of one second are combined is a parameter.
 */
module Mel {

  import opened Wrappers

  datatype Record<V> = Record(timestamp: int, mels: seq<V>) {
    function End(): int {
      timestamp + |mels|
    }

    /** The value recorded for second t. */
    function At(t: int): Option<V> {
      if timestamp <= t < End() then Some(mels[t - timestamp]) else None
    }

    predicate OverlapsEnd(other: Record<V>) {
      End() > other.timestamp
    }
  }

  function Max(a: int, b: int): int {
    if a < b then b else a
  }

  function Min(a: int, b: int): int {
    if a < b then a else b
  }

  /** The seconds two records share: none if the first of them is not below the second. */
  function IntersectRegion<V>(v1: Record<V>, v2: Record<V>): (int, int) {
    (Max(v1.timestamp, v2.timestamp), Min(v1.End(), v2.End()))
  }

  predicate Meets<V>(v1: Record<V>, v2: Record<V>) {
    IntersectRegion(v1, v2).0 < IntersectRegion(v1, v2).1
  }

  /** The meaning of the stored records: a value for some of the seconds. */
  function ValueAt<V>(records: seq<Record<V>>, t: int): Option<V> {
    if records == [] then None
    else if records[0].At(t).Some? then records[0].At(t)
    else ValueAt(records[1..], t)
  }

  /** What must be stored for a second: the old value, the new one, or the two combined. */
  function Both<V>(combine: (V, V) -> V, stored: Option<V>, added: Option<V>): Option<V> {
    match (stored, added)
    case (Some(a), Some(b)) => Some(combine(a, b))
    case (Some(_), None) => stored
    case (None, _) => added
  }

  /** Sorted, without overlaps and without empty records. */
  ghost predicate Chain<V>(records: seq<Record<V>>) {
    && (forall i: nat :: i < |records| ==> records[i].mels != [])
    && (forall i: nat, j: nat :: i < j < |records| ==> records[i].End() <= records[j].timestamp)
  }

  /** std::map::lower_bound, for records sorted by timestamp. */
  function LowerBound<V>(records: seq<Record<V>>, key: int): (k: nat)
    ensures k <= |records|
    ensures forall i: nat :: i < k ==> records[i].timestamp < key
    ensures k < |records| ==> key <= records[k].timestamp
  {
    if records == [] || key <= records[0].timestamp then 0 else 1 + LowerBound(records[1..], key)
  }

  /** std::map::emplace_hint: nothing happens if the key is there already. */
  function Emplaced<V>(records: seq<Record<V>>, r: Record<V>): seq<Record<V>> {
    var k := LowerBound(records, r.timestamp);
    if k < |records| && records[k].timestamp == r.timestamp then records
    else records[..k] + [r] + records[k..]
  }

  // ---- one stored record merged into the new one

  /** (ts, mels) is the new record merged with the stored ones that it meets. */
  ghost predicate Merged<V>(combine: (V, V) -> V, stored: seq<Record<V>>, mel: Record<V>, ts: int, mels: seq<V>) {
    && Chain(stored) && (forall i: nat :: i < |stored| ==> Meets(stored[i], mel))
    && ts == Min(mel.timestamp, if stored == [] then mel.timestamp else stored[0].timestamp)
    && ts + |mels| == Max(mel.End(), if stored == [] then mel.End() else stored[|stored| - 1].End())
    && forall t :: ts <= t < ts + |mels| ==> Some(mels[t - ts]) == Both(combine, ValueAt(stored, t), mel.At(t))
  }

  /** The seconds before the new record are taken over from the stored one. */
  function Prepended<V>(r: Record<V>, mel: Record<V>, mels: seq<V>): seq<V> {
    if r.timestamp < mel.timestamp < r.End() then r.mels[..mel.timestamp - r.timestamp] + mels else mels
  }

  /** The value of second t, which was x before, when both records have one. */
  function CombinedAt<V>(combine: (V, V) -> V, r: Record<V>, mel: Record<V>, t: int, x: V): V {
    if r.At(t).Some? && mel.At(t).Some? then combine(r.At(t).value, mel.At(t).value) else x
  }

  /** The seconds from..to replaced by combined values; second ts + i stands at i. */
  ghost predicate Combined<V>(combine: (V, V) -> V, r: Record<V>, mel: Record<V>, ts: int, from: int, to: int,
                              before: seq<V>, after: seq<V>) {
    && |before| == |after|
    && forall i: nat :: i < |after| ==>
         after[i] == if from <= ts + i < to then CombinedAt(combine, r, mel, ts + i, before[i]) else before[i]
  }

  lemma CombinedNext<V>(combine: (V, V) -> V, r: Record<V>, mel: Record<V>, ts: int, from: int, t: int, before: seq<V>, after: seq<V>)
    requires Combined(combine, r, mel, ts, from, t, before, after) && ts <= t < ts + |after| && from <= t
    requires r.At(t).Some? && mel.At(t).Some?
    ensures Combined(combine, r, mel, ts, from, t + 1, before, after[t - ts := combine(r.At(t).value, mel.At(t).value)])
  {
    var next := after[t - ts := combine(r.At(t).value, mel.At(t).value)];
    forall i: nat | i < |next|
      ensures next[i] == if from <= ts + i < t + 1 then CombinedAt(combine, r, mel, ts + i, before[i]) else before[i]
    {
      assert i != t - ts ==> next[i] == after[i];
    }
  }

  /** The seconds behind the new record are taken over from the stored one. */
  function Appended<V>(r: Record<V>, mel: Record<V>, mels: seq<V>): seq<V> {
    if r.timestamp <= mel.End() < r.End() then mels + r.mels[mel.End() - r.timestamp..] else mels
  }

  lemma {:induction false} ValueOfConcat<V>(a: seq<Record<V>>, b: seq<Record<V>>, t: int)
    ensures ValueAt(a + b, t) == if ValueAt(a, t).Some? then ValueAt(a, t) else ValueAt(b, t)
  {
    if a == [] {
      assert a + b == b;
    } else {
      ValueOfConcat(a[1..], b, t);
      assert (a + b)[1..] == a[1..] + b;
    }
  }

  lemma {:induction false} NoValueOutside<V>(records: seq<Record<V>>, t: int)
    requires forall i: nat :: i < |records| ==> records[i].At(t).None?
    ensures ValueAt(records, t) == None
  {
    if records != [] {
      forall i: nat | i < |records| - 1
        ensures records[1..][i].At(t).None?
      {
        assert records[1..][i] == records[i + 1];
      }
      NoValueOutside(records[1..], t);
    }
  }

  /** The stored records met so far lie before r, and only the first can begin before mel. */
  lemma MetBefore<V>(stored: seq<Record<V>>, r: Record<V>, mel: Record<V>)
    requires Chain(stored + [r]) && stored != []
    requires forall i: nat :: i < |stored| ==> Meets(stored[i], mel)
    ensures mel.timestamp < stored[|stored| - 1].End() <= r.timestamp
  {
    var n := |stored|;
    assert (stored + [r])[n - 1] == stored[n - 1] && (stored + [r])[n] == r;
    assert Meets(stored[n - 1], mel);
  }

  lemma ValueInRecord<V>(stored: seq<Record<V>>, r: Record<V>, t: int)
    requires Chain(stored + [r])
    ensures ValueAt(stored + [r], t) == if r.At(t).Some? then r.At(t) else ValueAt(stored, t)
  {
    ValueOfConcat(stored, [r], t);
    assert ValueAt([r], t) == r.At(t) by { assert [r][1..] == []; }
    if r.At(t).Some? {
      forall i: nat | i < |stored|
        ensures stored[i].At(t).None?
      {
        assert (stored + [r])[i] == stored[i] && (stored + [r])[|stored|] == r;
      }
      NoValueOutside(stored, t);
    }
  }

  /** What one stored record does to the merged values. */
  ghost predicate Step<V>(combine: (V, V) -> V, r: Record<V>, mel: Record<V>, ts: int, mels: seq<V>,
                          ts': int, p: seq<V>, a: seq<V>, mels': seq<V>) {
    && ts' == Min(ts, r.timestamp)
    && p == Prepended(r, mel, mels)
    && Combined(combine, r, mel, ts', Max(r.timestamp, mel.timestamp), Min(r.End(), mel.End()), p, a)
    && mels' == Appended(r, mel, a)
  }

  lemma StepShape<V>(combine: (V, V) -> V, stored: seq<Record<V>>, r: Record<V>, mel: Record<V>, ts: int, mels: seq<V>,
                     ts': int, p: seq<V>, a: seq<V>, mels': seq<V>)
    requires Merged(combine, stored, mel, ts, mels) && Chain(stored + [r]) && Meets(r, mel)
    requires Step(combine, r, mel, ts, mels, ts', p, a, mels')
    ensures ts' == (if stored == [] then Min(r.timestamp, mel.timestamp) else ts) <= ts
    ensures ts' + |p| == ts + |mels| && ts' + |mels'| == Max(mel.End(), r.End())
    ensures ts' < ts ==> ts == mel.timestamp
    ensures stored != [] ==> mel.timestamp < r.timestamp && ts + |mels| == mel.End()
  {
    hide Chain, ValueAt, Both;
    if stored != [] {
      MetBefore(stored, r, mel);
    }
  }

  lemma StepValue<V>(combine: (V, V) -> V, stored: seq<Record<V>>, r: Record<V>, mel: Record<V>, ts: int, mels: seq<V>,
                     ts': int, p: seq<V>, a: seq<V>, mels': seq<V>, t: int)
    requires Merged(combine, stored, mel, ts, mels) && Chain(stored + [r]) && Meets(r, mel)
    requires Step(combine, r, mel, ts, mels, ts', p, a, mels') && ts' <= t < ts' + |mels'|
    ensures Some(mels'[t - ts']) == Both(combine, ValueAt(stored + [r], t), mel.At(t))
  {
    hide Chain, ValueAt, Merged;
    StepShape(combine, stored, r, mel, ts, mels, ts', p, a, mels');
    ValueInRecord(stored, r, t);
    if ts <= t < ts + |mels| {
      MergedAt(combine, stored, mel, ts, mels, t);
    }
  }

  lemma MergedAt<V>(combine: (V, V) -> V, stored: seq<Record<V>>, mel: Record<V>, ts: int, mels: seq<V>, t: int)
    requires Merged(combine, stored, mel, ts, mels) && ts <= t < ts + |mels|
    ensures Some(mels[t - ts]) == Both(combine, ValueAt(stored, t), mel.At(t))
  {
    hide ValueAt, Both, Chain;
  }

  lemma StepMerges<V>(combine: (V, V) -> V, stored: seq<Record<V>>, r: Record<V>, mel: Record<V>, ts: int, mels: seq<V>,
                      ts': int, p: seq<V>, a: seq<V>, mels': seq<V>)
    requires Merged(combine, stored, mel, ts, mels) && Chain(stored + [r]) && Meets(r, mel)
    requires Step(combine, r, mel, ts, mels, ts', p, a, mels')
    ensures Merged(combine, stored + [r], mel, ts', mels')
  {
    hide Chain, ValueAt, Step, Both, Meets, Combined;
    StepShape(combine, stored, r, mel, ts, mels, ts', p, a, mels');
    assert stored == [] ==> (stored + [r])[0] == r;
    forall t | ts' <= t < ts' + |mels'|
      ensures Some(mels'[t - ts']) == Both(combine, ValueAt(stored + [r], t), mel.At(t))
    {
      StepValue(combine, stored, r, mel, ts, mels, ts', p, a, mels', t);
    }
  }

  // ---- the whole addition

  /** The keys of the map. */
  ghost predicate Keyed<V>(records: seq<Record<V>>) {
    forall i: nat, j: nat :: i < j < |records| ==> records[i].timestamp < records[j].timestamp
  }

  lemma ChainIsKeyed<V>(records: seq<Record<V>>)
    requires Chain(records)
    ensures Keyed(records)
  {
    forall i: nat, j: nat | i < j < |records|
      ensures records[i].timestamp < records[j].timestamp
    {
      assert records[i].mels != [] && records[i].End() <= records[j].timestamp;
    }
  }

  /** The first stored record that the new one may meet. */
  function MergeStart<V>(records: seq<Record<V>>, mel: Record<V>): (k: nat)
    ensures k <= |records|
  {
    var k := LowerBound(records, mel.timestamp);
    if k > 0 && records[k - 1].OverlapsEnd(mel) then k - 1 else k
  }

  lemma {:induction false} LowerBoundIs<V>(records: seq<Record<V>>, key: int, k: nat)
    requires k <= |records|
    requires forall i: nat :: i < k ==> records[i].timestamp < key
    requires k < |records| ==> key <= records[k].timestamp
    ensures LowerBound(records, key) == k
  {
    if k > 0 {
      assert records[0].timestamp < key;
      forall i: nat | i < k - 1
        ensures records[1..][i].timestamp < key
      {
        assert records[1..][i] == records[i + 1];
      }
      LowerBoundIs(records[1..], key, k - 1);
    }
  }

  /** The records from..to are the ones the new record meets; (ts, mels) replaces them. */
  ghost predicate Replaces<V>(combine: (V, V) -> V, records: seq<Record<V>>, mel: Record<V>, from: nat, to: nat, ts: int, mels: seq<V>) {
    && Chain(records) && mel.mels != [] && from == MergeStart(records, mel) <= to <= |records|
    && Merged(combine, records[from..to], mel, ts, mels)
    && (to < |records| ==> !Meets(records[to], mel))
  }

  lemma BoundsOfHole<V>(combine: (V, V) -> V, records: seq<Record<V>>, mel: Record<V>, from: nat, to: nat, ts: int, mels: seq<V>)
    requires Replaces(combine, records, mel, from, to, ts, mels)
    ensures ts <= mel.timestamp && mel.End() <= ts + |mels| && mels != []
    ensures forall i: nat :: i < from ==> records[i].End() <= ts
    ensures forall i: nat :: to <= i < |records| ==> ts + |mels| <= records[i].timestamp
  {
    hide ValueAt, Both, Chain, MergeStart, Meets;
    forall i: nat | i < from
      ensures records[i].End() <= ts
    {
      EndsBefore(records, mel, from, to, i);
    }
    forall i: nat | to <= i < |records|
      ensures ts + |mels| <= records[i].timestamp
    {
      StartsBehind(records, mel, from, to, i);
      if from < to {
        assert records[from..to][to - from - 1] == records[to - 1];
      }
    }
  }

  lemma EndsBefore<V>(records: seq<Record<V>>, mel: Record<V>, from: nat, to: nat, i: nat)
    requires Chain(records) && from == MergeStart(records, mel) <= to <= |records| && i < from
    ensures records[i].End() <= mel.timestamp && (from < to ==> records[i].End() <= records[from].timestamp)
  {
    hide LowerBound;
    assert i < from - 1 ==> records[i].End() <= records[from - 1].timestamp;
  }

  /** The first record that is not met lies behind the new one. */
  lemma StartsBehind<V>(records: seq<Record<V>>, mel: Record<V>, from: nat, to: nat, i: nat)
    requires Chain(records) && mel.mels != [] && from == MergeStart(records, mel) <= to <= i < |records| && !Meets(records[to], mel)
    ensures mel.End() <= records[i].timestamp && (from < to ==> records[to - 1].End() <= records[i].timestamp)
  {
    hide LowerBound;
    var k := LowerBound(records, mel.timestamp);
    assert records[to].mels != [];
    assert to > k ==> records[k].End() <= records[to].timestamp;
    assert i > to ==> records[to].End() <= records[i].timestamp;
  }

  lemma EmplacedInHole<V>(before: seq<Record<V>>, after: seq<Record<V>>, r: Record<V>)
    requires forall i: nat :: i < |before| ==> before[i].timestamp < r.timestamp
    requires forall i: nat :: i < |after| ==> r.timestamp < after[i].timestamp
    ensures Emplaced(before + after, r) == before + [r] + after
  {
    hide LowerBound;
    var rest := before + after;
    if |before| < |rest| {
      assert rest[|before|] == after[0];
    }
    LowerBoundIs(rest, r.timestamp, |before|);
    assert rest[..|before|] == before && rest[|before|..] == after;
  }

  lemma HoleFilled<V>(combine: (V, V) -> V, records: seq<Record<V>>, mel: Record<V>, from: nat, to: nat, ts: int, mels: seq<V>)
    requires Replaces(combine, records, mel, from, to, ts, mels)
    ensures Emplaced(records[..from] + records[to..], Record(ts, mels)) == records[..from] + [Record(ts, mels)] + records[to..]
    ensures Chain(records[..from] + [Record(ts, mels)] + records[to..])
  {
    BoundsOfHole(combine, records, mel, from, to, ts, mels);
    hide Emplaced, Merged, Meets, Replaces, MergeStart;
    assert Chain(records) by { ReplacesChain(combine, records, mel, from, to, ts, mels); }
    forall i: nat | i < from
      ensures records[i].timestamp < ts
    {
      assert records[i].mels != [];
    }
    EmplacedInHole(records[..from], records[to..], Record(ts, mels));
    ChainWithHole(records, from, to, Record(ts, mels));
  }

  lemma ReplacesChain<V>(combine: (V, V) -> V, records: seq<Record<V>>, mel: Record<V>, from: nat, to: nat, ts: int, mels: seq<V>)
    requires Replaces(combine, records, mel, from, to, ts, mels)
    ensures Chain(records) && from <= to <= |records| && Merged(combine, records[from..to], mel, ts, mels)
  {
    hide Chain, Merged, MergeStart;
  }

  lemma ChainWithHole<V>(records: seq<Record<V>>, from: nat, to: nat, r: Record<V>)
    requires Chain(records) && from <= to <= |records| && r.mels != []
    requires forall i: nat :: i < from ==> records[i].End() <= r.timestamp
    requires forall i: nat :: to <= i < |records| ==> r.End() <= records[i].timestamp
    ensures Chain(records[..from] + [r] + records[to..])
  {
    var after := records[..from] + [r] + records[to..];
    forall i: nat | i < |after|
      ensures after[i].mels != []
    {
      assert i < from ==> after[i] == records[i];
      assert i > from ==> after[i] == records[i - from - 1 + to];
    }
    forall i: nat, j: nat | i < j < |after|
      ensures after[i].End() <= after[j].timestamp
    {
      assert i < from ==> after[i] == records[i];
      assert i > from ==> after[i] == records[i - from - 1 + to];
      assert j < from ==> after[j] == records[j];
      assert j > from ==> after[j] == records[j - from - 1 + to];
    }
  }

  /** Inside the merged record nothing else is stored; outside, nothing was merged. */
  lemma HoleCases<V>(combine: (V, V) -> V, records: seq<Record<V>>, mel: Record<V>, from: nat, to: nat, ts: int, mels: seq<V>, t: int)
    requires Replaces(combine, records, mel, from, to, ts, mels)
    ensures ts <= t < ts + |mels| ==>
              ValueAt(records[..from], t) == None && ValueAt(records[to..], t) == None
              && Some(mels[t - ts]) == Both(combine, ValueAt(records[from..to], t), mel.At(t))
    ensures !(ts <= t < ts + |mels|) ==> ValueAt(records[from..to], t) == None && mel.At(t) == None
  {
    BoundsOfHole(combine, records, mel, from, to, ts, mels);
    ReplacesChain(combine, records, mel, from, to, ts, mels);
    hide *;
    if ts <= t < ts + |mels| {
      NoneBefore(records[..from], ts, t);
      NoneBehind(records[to..], ts + |mels|, t);
      MergedAt(combine, records[from..to], mel, ts, mels, t);
    } else {
      MetInside(combine, records[from..to], mel, ts, mels, t);
    }
  }

  lemma ValueWithHole<V>(combine: (V, V) -> V, records: seq<Record<V>>, mel: Record<V>, from: nat, to: nat, ts: int, mels: seq<V>, t: int)
    requires Replaces(combine, records, mel, from, to, ts, mels)
    ensures ValueAt(records[..from] + [Record(ts, mels)] + records[to..], t) == Both(combine, ValueAt(records, t), mel.At(t))
  {
    ReplacesChain(combine, records, mel, from, to, ts, mels);
    hide *;
    HoleCases(combine, records, mel, from, to, ts, mels, t);
    Thirds(records, from, to);
    AtInside(Record(ts, mels), t);
    FillHole(combine, records[..from], records[from..to], records[to..], Record(ts, mels), mel.At(t), t);
  }

  lemma Thirds<T>(s: seq<T>, from: nat, to: nat)
    requires from <= to <= |s|
    ensures s[..from] + s[from..to] + s[to..] == s
  {
  }

  lemma FillHole<V>(combine: (V, V) -> V, a: seq<Record<V>>, b: seq<Record<V>>, c: seq<Record<V>>, r: Record<V>, added: Option<V>, t: int)
    requires r.At(t).Some? ==> ValueAt(a, t) == None && ValueAt(c, t) == None && r.At(t) == Both(combine, ValueAt(b, t), added)
    requires r.At(t).None? ==> ValueAt(b, t) == None && added == None
    ensures ValueAt(a + [r] + c, t) == Both(combine, ValueAt(a + b + c, t), added)
  {
    hide ValueAt, Record.At;
    ValueOfThree(a, b, c, t);
    ValueOfThree(a, [r], c, t);
    SingleValue(r, t);
  }

  lemma AtInside<V>(r: Record<V>, t: int)
    ensures r.At(t) == if r.timestamp <= t < r.timestamp + |r.mels| then Some(r.mels[t - r.timestamp]) else None
  {
  }

  function First<V>(a: Option<V>, b: Option<V>): Option<V> {
    if a.Some? then a else b
  }

  lemma ValueOfThree<V>(a: seq<Record<V>>, b: seq<Record<V>>, c: seq<Record<V>>, t: int)
    ensures ValueAt(a + b + c, t) == First(ValueAt(a, t), First(ValueAt(b, t), ValueAt(c, t)))
  {
    hide ValueAt;
    ValueOfConcat(a + b, c, t);
    ValueOfConcat(a, b, t);
  }

  lemma NoneBefore<V>(records: seq<Record<V>>, end: int, t: int)
    requires end <= t && forall i: nat :: i < |records| ==> records[i].End() <= end
    ensures ValueAt(records, t) == None
  {
    hide ValueAt;
    NoValueOutside(records, t);
  }

  lemma NoneBehind<V>(records: seq<Record<V>>, start: int, t: int)
    requires t < start && forall i: nat :: i < |records| ==> start <= records[i].timestamp
    ensures ValueAt(records, t) == None
  {
    hide ValueAt;
    NoValueOutside(records, t);
  }

  lemma SingleValue<V>(r: Record<V>, t: int)
    ensures ValueAt([r], t) == r.At(t)
  {
    assert [r][1..] == [];
  }

  lemma MetInside<V>(combine: (V, V) -> V, stored: seq<Record<V>>, mel: Record<V>, ts: int, mels: seq<V>, t: int)
    requires Merged(combine, stored, mel, ts, mels) && !(ts <= t < ts + |mels|)
    ensures ValueAt(stored, t) == None && mel.At(t) == None
  {
    hide ValueAt, Both;
    forall i: nat | i < |stored|
      ensures stored[i].At(t).None?
    {
      var n := |stored| - 1;
      assert stored[0].timestamp <= stored[i].timestamp by {
        assert i > 0 ==> stored[0].End() <= stored[i].timestamp;
      }
      assert stored[i].End() <= stored[n].End() by {
        assert i < n ==> stored[i].End() <= stored[n].timestamp;
      }
    }
    NoValueOutside(stored, t);
  }

  /** records' is what adding mel must make of the stored records, second by second. */
  ghost predicate Refines<V>(combine: (V, V) -> V, records: seq<Record<V>>, mel: Record<V>, records': seq<Record<V>>) {
    Chain(records') && forall t :: ValueAt(records', t) == Both(combine, ValueAt(records, t), mel.At(t))
  }

  lemma ReplacedRefines<V>(combine: (V, V) -> V, records: seq<Record<V>>, mel: Record<V>, from: nat, to: nat, ts: int, mels: seq<V>)
    requires Replaces(combine, records, mel, from, to, ts, mels)
    ensures Refines(combine, records, mel, Emplaced(records[..from] + records[to..], Record(ts, mels)))
  {
    HoleFilled(combine, records, mel, from, to, ts, mels);
    hide ValueAt, Both, Emplaced, Replaces, Chain;
    forall t
      ensures ValueAt(records[..from] + [Record(ts, mels)] + records[to..], t) == Both(combine, ValueAt(records, t), mel.At(t))
    {
      ValueWithHole(combine, records, mel, from, to, ts, mels, t);
    }
  }

  lemma NothingMerged<V>(combine: (V, V) -> V, mel: Record<V>)
    ensures Merged(combine, [], mel, mel.timestamp, mel.mels)
  {
  }

  lemma ChainSlice<V>(records: seq<Record<V>>, from: nat, to: nat)
    requires Chain(records) && from <= to <= |records|
    ensures Chain(records[from..to])
  {
  }

  /** Only the first record looked at can begin before the new one. */
  lemma LaterStarts<V>(records: seq<Record<V>>, mel: Record<V>, from: nat, i: nat)
    requires Keyed(records) && from == MergeStart(records, mel) < i < |records|
    ensures mel.timestamp <= records[i].timestamp
  {
    hide LowerBound;
    var k := LowerBound(records, mel.timestamp);
    assert i > k ==> records[k].timestamp < records[i].timestamp;
  }

  /** The values after one turn of the merging loop. */
  function StepMels<V>(combine: (V, V) -> V, r: Record<V>, mel: Record<V>, ts: int, mels: seq<V>): seq<V> {
    Appended(r, mel, CombinedSeq(combine, r, mel, Min(ts, r.timestamp), Prepended(r, mel, mels)))
  }

  function CombinedSeq<V>(combine: (V, V) -> V, r: Record<V>, mel: Record<V>, ts: int, before: seq<V>): (after: seq<V>)
    ensures |after| == |before|
  {
    seq(|before|, i requires 0 <= i < |before| => CombinedAt(combine, r, mel, ts + i, before[i]))
  }

  lemma CombinedSeqIs<V>(combine: (V, V) -> V, r: Record<V>, mel: Record<V>, ts: int, before: seq<V>, after: seq<V>)
    ensures Combined(combine, r, mel, ts, Max(r.timestamp, mel.timestamp), Min(r.End(), mel.End()), before, after)
      <==> after == CombinedSeq(combine, r, mel, ts, before)
  {
    var s := CombinedSeq(combine, r, mel, ts, before);
    var from, to := Max(r.timestamp, mel.timestamp), Min(r.End(), mel.End());
    forall i: nat | i < |before|
      ensures s[i] == if from <= ts + i < to then CombinedAt(combine, r, mel, ts + i, before[i]) else before[i]
    {
    }
    if Combined(combine, r, mel, ts, from, to, before, after) {
      forall i: nat | i < |before|
        ensures after[i] == s[i]
      {
      }
    }
  }

  lemma StepIs<V>(combine: (V, V) -> V, r: Record<V>, mel: Record<V>, ts: int, mels: seq<V>,
                  ts': int, p: seq<V>, a: seq<V>, mels': seq<V>)
    requires Step(combine, r, mel, ts, mels, ts', p, a, mels')
    ensures ts' == Min(ts, r.timestamp) && mels' == StepMels(combine, r, mel, ts, mels)
  {
    hide Appended, Combined, Prepended, CombinedSeq;
    CombinedSeqIs(combine, r, mel, ts', p, a);
  }

  lemma StepTaken<V>(combine: (V, V) -> V, r: Record<V>, mel: Record<V>, ts: int, mels: seq<V>,
                     ts': int, p: seq<V>, a: seq<V>, mels': seq<V>)
    requires ts' == Min(ts, r.timestamp) && p == Prepended(r, mel, mels) && mels' == Appended(r, mel, a)
    requires Combined(combine, r, mel, ts', IntersectRegion(r, mel).0, IntersectRegion(r, mel).1, p, a)
    ensures Step(combine, r, mel, ts, mels, ts', p, a, mels') && mels' == StepMels(combine, r, mel, ts, mels)
  {
    hide Combined, Prepended, Appended, StepMels;
    StepIs(combine, r, mel, ts, mels, ts', p, a, mels');
  }

  lemma StepOf<V>(combine: (V, V) -> V, r: Record<V>, mel: Record<V>, ts: int, mels: seq<V>)
    ensures
      var p := Prepended(r, mel, mels);
      Step(combine, r, mel, ts, mels, Min(ts, r.timestamp), p, CombinedSeq(combine, r, mel, Min(ts, r.timestamp), p),
           StepMels(combine, r, mel, ts, mels))
  {
    hide Appended, Combined, Prepended, CombinedSeq;
    var p := Prepended(r, mel, mels);
    CombinedSeqIs(combine, r, mel, Min(ts, r.timestamp), p, CombinedSeq(combine, r, mel, Min(ts, r.timestamp), p));
  }

  /** Where the merging loop stops, and what it made of the new record. */
  datatype Merging<V> = Merging(to: nat, ts: int, mels: seq<V>)

  function Merge<V>(combine: (V, V) -> V, stored: seq<Record<V>>, mel: Record<V>, to: nat, ts: int, mels: seq<V>): (m: Merging<V>)
    requires to <= |stored|
    ensures to <= m.to <= |stored|
    decreases |stored| - to
  {
    if to < |stored| && Meets(stored[to], mel)
    then Merge(combine, stored, mel, to + 1, Min(ts, stored[to].timestamp), StepMels(combine, stored[to], mel, ts, mels))
    else Merging(to, ts, mels)
  }

  /** The stored records after the addition of mel. */
  function Added<V>(combine: (V, V) -> V, stored: seq<Record<V>>, mel: Record<V>): seq<Record<V>> {
    var from := MergeStart(stored, mel);
    var m := Merge(combine, stored, mel, from, mel.timestamp, mel.mels);
    Emplaced(stored[..from] + stored[m.to..], Record(m.ts, m.mels))
  }

  lemma {:induction false} MergeReplaces<V>(
      combine: (V, V) -> V, stored: seq<Record<V>>, mel: Record<V>, from: nat, to: nat, ts: int, mels: seq<V>)
    requires Chain(stored) && from <= to <= |stored| && Merged(combine, stored[from..to], mel, ts, mels)
    ensures
      var m := Merge(combine, stored, mel, to, ts, mels);
      && Merged(combine, stored[from..m.to], mel, m.ts, m.mels)
      && (m.to < |stored| ==> !Meets(stored[m.to], mel))
    decreases |stored| - to
  {
    hide Chain, Merged, Meets, Step, StepMels, CombinedSeq, Prepended;
    if to < |stored| && Meets(stored[to], mel) {
      var r := stored[to];
      StepOf(combine, r, mel, ts, mels);
      assert stored[from..to + 1] == stored[from..to] + [r];
      ChainSlice(stored, from, to + 1);
      var p := Prepended(r, mel, mels);
      StepMerges(combine, stored[from..to], r, mel, ts, mels, Min(ts, r.timestamp), p,
                 CombinedSeq(combine, r, mel, Min(ts, r.timestamp), p), StepMels(combine, r, mel, ts, mels));
      MergeReplaces(combine, stored, mel, from, to + 1, Min(ts, r.timestamp), StepMels(combine, r, mel, ts, mels));
    }
  }

  /** Adding a non-empty record to sorted, disjoint ones is right for every second. */
  lemma AddedRefines<V>(combine: (V, V) -> V, stored: seq<Record<V>>, mel: Record<V>)
    requires Chain(stored) && mel.mels != []
    ensures Refines(combine, stored, mel, Added(combine, stored, mel))
  {
    hide Chain, Merged, Meets, MergeStart, Merge, Emplaced, Refines;
    var from := MergeStart(stored, mel);
    NothingMerged(combine, mel);
    assert stored[from..from] == [];
    MergeReplaces(combine, stored, mel, from, from, mel.timestamp, mel.mels);
    var m := Merge(combine, stored, mel, from, mel.timestamp, mel.mels);
    ReplacedRefines(combine, stored, mel, from, m.to, m.ts, m.mels);
  }

  lemma EmplacedKeyed<V>(records: seq<Record<V>>, r: Record<V>)
    requires Keyed(records)
    ensures Keyed(Emplaced(records, r))
  {
    hide LowerBound;
    var k := LowerBound(records, r.timestamp);
    forall i: nat | k <= i < |records|
      ensures r.timestamp <= records[i].timestamp
      ensures !(k < |records| && records[k].timestamp == r.timestamp) ==> r.timestamp < records[i].timestamp
    {
      assert i == k || records[k].timestamp < records[i].timestamp;
    }
  }

  lemma AddedKeyed<V>(combine: (V, V) -> V, stored: seq<Record<V>>, mel: Record<V>)
    requires Keyed(stored)
    ensures Keyed(Added(combine, stored, mel))
  {
    hide Emplaced, MergeStart, Merge;
    var from := MergeStart(stored, mel);
    var m := Merge(combine, stored, mel, from, mel.timestamp, mel.mels);
    EmplacedKeyed(stored[..from] + stored[m.to..], Record(m.ts, m.mels));
  }

  class MelAggregator<V> {
    const combine: (V, V) -> V
    /** The map, as the list of its elements in the order of their timestamps. */
    var records: seq<Record<V>>

    constructor (combine: (V, V) -> V)
      ensures this.combine == combine && records == []
    {
      this.combine := combine;
      records := [];
    }

    /** One turn of the merging loop. */
    method MergeOne(r: Record<V>, mel: Record<V>, ts: int, mels: seq<V>, overlapStart: nat)
      returns (ts': int, mels': seq<V>, overlapStart': nat, ghost p: seq<V>, ghost a: seq<V>)
      requires Meets(r, mel) && ts + overlapStart == mel.timestamp && overlapStart + |mel.mels| <= |mels|
      requires r.timestamp < mel.timestamp ==> overlapStart == 0
      ensures ts' + overlapStart' == mel.timestamp && overlapStart' + |mel.mels| <= |mels'|
      ensures Step(combine, r, mel, ts, mels, ts', p, a, mels')
      ensures ts' == Min(ts, r.timestamp) && mels' == StepMels(combine, r, mel, ts, mels)
    {
      hide StepMels, Step;
      var (regionStart, regionEnd) := IntersectRegion(r, mel);
      ts', mels', overlapStart' := ts, mels, overlapStart;
      if r.timestamp < regionStart {
        ts' := r.timestamp;
        overlapStart' := regionStart - r.timestamp;
        mels' := r.mels[..overlapStart'] + mels';
      }
      p := mels';
      mels' := CombineRegion(r, mel, ts', mels', overlapStart', regionStart, regionEnd);
      a := mels';
      var mergeEnd := r.timestamp + |r.mels|;
      if mergeEnd > regionEnd {
        mels' := mels' + r.mels[|r.mels| - mergeEnd + regionEnd..];
      }
      StepTaken(combine, r, mel, ts, mels, ts', p, a, mels');
    }

    method CombineRegion(r: Record<V>, mel: Record<V>, ts: int, before: seq<V>, overlapStart: nat, regionStart: int, regionEnd: int)
      returns (mels: seq<V>)
      requires (regionStart, regionEnd) == IntersectRegion(r, mel) && regionStart < regionEnd
      requires ts + overlapStart == mel.timestamp && overlapStart + |mel.mels| <= |before|
      ensures Combined(combine, r, mel, ts, regionStart, regionEnd, before, mels)
    {
      mels := before;
      var t := regionStart;
      while t < regionEnd
        invariant regionStart <= t <= regionEnd
        invariant Combined(combine, r, mel, ts, regionStart, t, before, mels)
      {
        var offsetStored, offsetNew := t - r.timestamp, t - mel.timestamp;
        CombinedNext(combine, r, mel, ts, regionStart, t, before, mels);
        mels := mels[overlapStart + offsetNew := combine(r.mels[offsetStored], mel.mels[offsetNew])];
        t := t + 1;
      }
    }

    method AggregateAndAdd(mel: Record<V>)
      requires Keyed(records)
      modifies this
      ensures Keyed(records) && records == Added(combine, old(records), mel)
      ensures mel.mels != [] && Chain(old(records)) ==> Refines(combine, old(records), mel, records)
    {
      hide LowerBound, Chain, Step, StepMels, Emplaced, Meets, Refines, Keyed;
      var stored := records;
      var from := MergeStart(stored, mel);
      var ts, mels, overlapStart, to := mel.timestamp, mel.mels, 0, from;
      while to < |stored| && Meets(stored[to], mel)
        invariant from <= to <= |stored| && ts + overlapStart == mel.timestamp && overlapStart >= 0
        invariant overlapStart + |mel.mels| <= |mels|
        invariant to == from ==> overlapStart == 0
        invariant Merge(combine, stored, mel, to, ts, mels) == Merge(combine, stored, mel, from, mel.timestamp, mel.mels)
      {
        if from < to {
          LaterStarts(stored, mel, from, to);
        }
        ghost var p, a;
        ts, mels, overlapStart, p, a := MergeOne(stored[to], mel, ts, mels, overlapStart);
        to := to + 1;
      }
      records := Emplaced(stored[..from] + stored[to..], Record(ts, mels));
      AddedKeyed(combine, stored, mel);
      if mel.mels != [] && Chain(stored) {
        AddedRefines(combine, stored, mel);
      }
    }
  }

  // ---- runs of additions

  /** The value of second t after all the additions: each value is taken once, in order. */
  function Accumulated<V>(combine: (V, V) -> V, start: Option<V>, added: seq<Record<V>>, t: int): Option<V> {
    if added == [] then start
    else Both(combine, Accumulated(combine, start, added[..|added| - 1], t), added[|added| - 1].At(t))
  }

  function Run<V>(combine: (V, V) -> V, records: seq<Record<V>>, added: seq<Record<V>>): seq<Record<V>> {
    if added == [] then records
    else Added(combine, Run(combine, records, added[..|added| - 1]), added[|added| - 1])
  }

  ghost predicate NoneEmpty<V>(added: seq<Record<V>>) {
    forall i: nat :: i < |added| ==> added[i].mels != []
  }

  /** Whatever non-empty records are added, each second accumulates all its values. */
  lemma {:induction false} RunAccumulates<V>(combine: (V, V) -> V, records: seq<Record<V>>, added: seq<Record<V>>, t: int)
    requires Chain(records) && NoneEmpty(added)
    ensures Chain(Run(combine, records, added))
    ensures ValueAt(Run(combine, records, added), t) == Accumulated(combine, ValueAt(records, t), added, t)
    decreases |added|
  {
    hide Both, ValueAt, Chain, Added;
    if added != [] {
      var n := |added| - 1;
      RunAccumulates(combine, records, added[..n], t);
      AddedRefines(combine, Run(combine, records, added[..n]), added[n]);
      RefinesAt(combine, Run(combine, records, added[..n]), added[n], Run(combine, records, added), t);
    }
  }

  lemma RefinesAt<V>(combine: (V, V) -> V, records: seq<Record<V>>, mel: Record<V>, records': seq<Record<V>>, t: int)
    requires Refines(combine, records, mel, records')
    ensures Chain(records') && ValueAt(records', t) == Both(combine, ValueAt(records, t), mel.At(t))
  {
    hide Both, ValueAt, Chain;
  }

  // ---- empty records

  /** Adding to stored still gives every second all the values of records and of what is added. */
  ghost predicate StillAccumulates<V(!new)>(combine: (V, V) -> V, records: seq<Record<V>>, stored: seq<Record<V>>) {
    forall added: seq<Record<V>>, t: int :: NoneEmpty(added) ==>
      ValueAt(Run(combine, stored, added), t) == Accumulated(combine, ValueAt(records, t), added, t)
  }

  /** Adding something shows: no value absorbs all others, as no level absorbs all energy. */
  ghost predicate Responsive<V(!new)>(combine: (V, V) -> V) {
    forall x :: CanChange(combine, x)
  }

  ghost predicate CanChange<V(!new)>(combine: (V, V) -> V, x: V) {
    exists y :: combine(x, y) != x
  }

  ghost predicate IsKey<V>(records: seq<Record<V>>, b: int) {
    exists i: nat :: i < |records| && records[i].timestamp == b
  }

  /** The stored records with an empty one at b, whose timestamp is not taken. */
  function WithEmpty<V>(records: seq<Record<V>>, k: nat, b: int): seq<Record<V>>
    requires k <= |records|
  {
    records[..k] + [Record(b, [])] + records[k..]
  }

  /** The place of an empty record: all timestamps before it are smaller, all behind it greater. */
  ghost predicate FitsAt<V>(records: seq<Record<V>>, k: nat, b: int) {
    && k <= |records| && (forall i: nat :: i < k ==> records[i].timestamp < b)
    && (forall i: nat :: k <= i < |records| ==> b < records[i].timestamp)
  }

  lemma EmptyFits<V>(records: seq<Record<V>>, b: int) returns (k: nat)
    requires Keyed(records) && !IsKey(records, b)
    ensures k <= |records| && FitsAt(records, k, b)
  {
    hide LowerBound;
    k := LowerBound(records, b);
    forall i: nat | k <= i < |records|
      ensures b < records[i].timestamp
    {
      assert i == k || records[k].timestamp < records[i].timestamp;
      assert records[i].timestamp != b;
    }
  }

  lemma MergesNothing<V>(combine: (V, V) -> V, stored: seq<Record<V>>, mel: Record<V>)
    requires MergeStart(stored, mel) == |stored| || !Meets(stored[MergeStart(stored, mel)], mel)
    ensures Added(combine, stored, mel) == Emplaced(stored, mel)
  {
    hide Emplaced, MergeStart;
    var from := MergeStart(stored, mel);
    assert stored[..from] + stored[from..] == stored;
  }

  /** An empty record is stored apart from all others, or dropped if its timestamp is taken. */
  lemma EmptyAdded<V>(combine: (V, V) -> V, records: seq<Record<V>>, b: int)
    requires Keyed(records)
    ensures IsKey(records, b) ==> Added(combine, records, Record(b, [])) == records
    ensures forall k: nat :: k <= |records| && FitsAt(records, k, b) ==> Added(combine, records, Record(b, [])) == WithEmpty(records, k, b)
  {
    hide LowerBound, MergeStart, Emplaced, FitsAt, Keyed, Added;
    MergesNothing(combine, records, Record(b, []));
    if i: nat :| i < |records| && records[i].timestamp == b {
      KeyTaken(records, i, []);
    }
    forall k: nat | k <= |records| && FitsAt(records, k, b)
      ensures Emplaced(records, Record(b, [])) == WithEmpty(records, k, b)
    {
      EmptyEmplaced(records, k, b);
    }
  }

  lemma KeyTaken<V>(records: seq<Record<V>>, i: nat, mels: seq<V>)
    requires Keyed(records) && i < |records|
    ensures Emplaced(records, Record(records[i].timestamp, mels)) == records
  {
    hide LowerBound;
    LowerBoundIs(records, records[i].timestamp, i);
  }

  lemma EmptyEmplaced<V>(records: seq<Record<V>>, k: nat, b: int)
    requires FitsAt(records, k, b)
    ensures Emplaced(records, Record(b, [])) == WithEmpty(records, k, b)
  {
    hide Emplaced;
    EmplacedInHole(records[..k], records[k..], Record(b, []));
    assert records[..k] + records[k..] == records;
  }

  lemma RunOne<V>(combine: (V, V) -> V, stored: seq<Record<V>>, mel: Record<V>)
    ensures Run(combine, stored, [mel]) == Added(combine, stored, mel)
    ensures forall start: Option<V>, t :: Accumulated(combine, start, [mel], t) == Both(combine, start, mel.At(t))
  {
    hide Added, Both;
    assert [mel][..0] == [];
  }

  lemma RunTwo<V>(combine: (V, V) -> V, stored: seq<Record<V>>, mel: Record<V>, more: Record<V>)
    ensures Run(combine, stored, [mel, more]) == Added(combine, Added(combine, stored, mel), more)
    ensures forall start: Option<V>, t ::
              Accumulated(combine, start, [mel, more], t) == Both(combine, Both(combine, start, mel.At(t)), more.At(t))
  {
    hide Added, Both;
    RunOne(combine, stored, mel);
    assert [mel, more][..1] == [mel];
  }

  /** A run of one or two additions that goes wrong at second t. */
  ghost predicate GoesWrong<V>(combine: (V, V) -> V, records: seq<Record<V>>, stored: seq<Record<V>>, added: seq<Record<V>>, t: int) {
    NoneEmpty(added) && ValueAt(Run(combine, stored, added), t) != Accumulated(combine, ValueAt(records, t), added, t)
  }

  /** A record at the timestamp of an empty one is dropped whole, if no other record is there. */
  lemma DroppedWhole<V>(combine: (V, V) -> V, records: seq<Record<V>>, k: nat, b: int, v: V)
    requires FitsAt(records, k, b) && forall i: nat :: i < |records| ==> records[i].At(b).None?
    ensures GoesWrong(combine, records, WithEmpty(records, k, b), [Record(b, [v])], b)
  {
    hide LowerBound, ValueAt;
    var stored, mel := WithEmpty(records, k, b), Record(b, [v]);
    forall i: nat | i < |stored|
      ensures stored[i].At(b).None?
      ensures i < k ==> stored[i] == records[i]
      ensures i > k ==> stored[i] == records[i - 1]
    {
    }
    LowerBoundIs(stored, b, k);
    if k > 0 {
      assert stored[k - 1] == records[k - 1] && records[k - 1].At(b).None?;
    }
    MergesNothing(combine, stored, mel);
    RunOne(combine, stored, mel);
    NoValueOutside(stored, b);
    NoValueOutside(records, b);
  }

  /** What the records before the place of an addition store is not touched by it. */
  lemma KeepsBefore<V>(combine: (V, V) -> V, stored: seq<Record<V>>, mel: Record<V>, k: nat)
    requires Keyed(stored) && k <= MergeStart(stored, mel) && k <= |stored|
    ensures k <= |Added(combine, stored, mel)| && Added(combine, stored, mel)[..k] == stored[..k]
  {
    hide LowerBound;
    var from := MergeStart(stored, mel);
    hide MergeStart;
    var m := Merge(combine, stored, mel, from, mel.timestamp, mel.mels);
    StartAbove(stored, mel, from);
    MergeKeepsStart(combine, stored, mel, from, from, mel.timestamp, mel.mels);
    KeepsEmplaced(stored[..from] + stored[m.to..], Record(m.ts, m.mels), from);
    var after := Added(combine, stored, mel);
    assert after[..k] == after[..from][..k] && stored[..k] == stored[..from][..k];
  }

  lemma StartAbove<V>(stored: seq<Record<V>>, mel: Record<V>, from: nat)
    requires Keyed(stored) && from == MergeStart(stored, mel)
    ensures forall i: nat :: i < from ==> stored[i].timestamp < mel.timestamp
  {
    hide LowerBound;
  }

  /** The merged record starts behind everything that precedes the place of the addition. */
  lemma {:induction false} MergeKeepsStart<V>(
      combine: (V, V) -> V, stored: seq<Record<V>>, mel: Record<V>, from: nat, to: nat, ts: int, mels: seq<V>)
    requires Keyed(stored) && from <= to <= |stored| && forall i: nat :: i < from ==> stored[i].timestamp < ts
    ensures forall i: nat :: i < from ==> stored[i].timestamp < Merge(combine, stored, mel, to, ts, mels).ts
    decreases |stored| - to
  {
    hide Meets, StepMels;
    if to < |stored| && Meets(stored[to], mel) {
      MergeKeepsStart(combine, stored, mel, from, to + 1, Min(ts, stored[to].timestamp), StepMels(combine, stored[to], mel, ts, mels));
    }
  }

  lemma KeepsEmplaced<V>(records: seq<Record<V>>, r: Record<V>, k: nat)
    requires k <= |records| && forall i: nat :: i < k ==> records[i].timestamp < r.timestamp
    ensures k <= |Emplaced(records, r)| && Emplaced(records, r)[..k] == records[..k]
  {
    hide LowerBound;
    var n := LowerBound(records, r.timestamp);
    assert n < |records| ==> n >= k;
  }

  /** Behind an empty record at b, a record that starts at b + 1 is stored apart. */
  lemma StartsBehindEmpty<V>(stored: seq<Record<V>>, k: nat, b: int, mel: Record<V>)
    requires Keyed(stored) && k < |stored| && stored[k] == Record(b, []) && mel.timestamp == b + 1
    ensures MergeStart(stored, mel) == k + 1
  {
    hide LowerBound;
    forall i: nat | i < k + 1
      ensures stored[i].timestamp < b + 1
    {
      assert i < k ==> stored[i].timestamp < stored[k].timestamp;
    }
    if k + 1 < |stored| {
      assert stored[k].timestamp < stored[k + 1].timestamp;
    }
    LowerBoundIs(stored, b + 1, k + 1);
  }

  /** So what is stored before it for second b + 1 stays as it is. */
  lemma HiddenBehindEmpty<V>(combine: (V, V) -> V, stored: seq<Record<V>>, k: nat, b: int, v: V)
    requires Keyed(stored) && k < |stored| && stored[k] == Record(b, []) && ValueAt(stored[..k], b + 1).Some?
    ensures ValueAt(Added(combine, stored, Record(b + 1, [v])), b + 1) == ValueAt(stored[..k], b + 1)
  {
    hide ValueAt, Added, MergeStart;
    var mel := Record(b + 1, [v]);
    StartsBehindEmpty(stored, k, b, mel);
    KeepsBefore(combine, stored, mel, k);
    var after := Added(combine, stored, mel);
    assert after == after[..k] + after[k..];
    ValueOfConcat(after[..k], after[k..], b + 1);
  }

  lemma WithEmptyKeyed<V>(records: seq<Record<V>>, k: nat, b: int)
    requires Keyed(records) && FitsAt(records, k, b)
    ensures Keyed(WithEmpty(records, k, b))
  {
    var stored := WithEmpty(records, k, b);
    forall i: nat, j: nat | i < j < |stored|
      ensures stored[i].timestamp < stored[j].timestamp
    {
      assert stored[i] == if i < k then records[i] else if i == k then Record(b, []) else records[i - 1];
      assert stored[j] == if j < k then records[j] else if j == k then Record(b, []) else records[j - 1];
    }
  }

  /** Only the record before the place of the empty one can hold its second. */
  lemma HolderIsBefore<V>(records: seq<Record<V>>, k: nat, b: int, i: nat)
    requires Chain(records) && FitsAt(records, k, b) && i < |records| && records[i].At(b).Some?
    ensures i == k - 1
  {
    hide Chain;
    if i < k - 1 {
      Apart(records, i, k - 1);
    }
  }

  lemma Apart<V>(records: seq<Record<V>>, i: nat, j: nat)
    requires Chain(records) && i < j < |records|
    ensures records[i].End() <= records[j].timestamp
  {
  }

  lemma ValueInLast<V>(records: seq<Record<V>>, k: nat, t: int)
    requires k < |records| && Chain(records[..k + 1]) && records[k].At(t).Some?
    ensures ValueAt(records[..k + 1], t) == records[k].At(t) && ValueAt(records, t) == records[k].At(t)
  {
    hide ValueAt, Chain;
    assert records[..k + 1] == records[..k] + [records[k]];
    ValueInRecord(records[..k], records[k], t);
    assert records == records[..k + 1] + records[k + 1..];
    ValueOfConcat(records[..k + 1], records[k + 1..], t);
  }

  /** The empty record splits a stored one that goes on behind it: the next second is out of reach. */
  lemma SecondHidden<V>(combine: (V, V) -> V, records: seq<Record<V>>, k: nat, b: int, v: V)
    requires Chain(records) && k < |records| && FitsAt(records, k + 1, b) && records[k].At(b + 1).Some?
    requires combine(records[k].At(b + 1).value, v) != records[k].At(b + 1).value
    ensures GoesWrong(combine, records, WithEmpty(records, k + 1, b), [Record(b + 1, [v])], b + 1)
  {
    hide ValueAt, Chain, Added, FitsAt, Accumulated, Run, Keyed;
    var stored := WithEmpty(records, k + 1, b);
    ChainIsKeyed(records);
    WithEmptyKeyed(records, k + 1, b);
    assert stored[..k + 1] == records[..k + 1] by { hide FitsAt; }
    assert records[0..k + 1] == records[..k + 1];
    ChainSlice(records, 0, k + 1);
    ValueInLast(records, k, b + 1);
    HiddenBehindEmpty(combine, stored, k + 1, b, v);
    RunOne(combine, stored, Record(b + 1, [v]));
  }

  /** The stored records when two seconds s are added at b, the last second of records[k]. */
  function Extended<V>(combine: (V, V) -> V, records: seq<Record<V>>, k: nat, b: int, s: V): seq<Record<V>>
    requires k < |records|
  {
    var r := records[k];
    records[..k] + [Record(r.timestamp, StepMels(combine, r, Record(b, [s, s]), b, [s, s]))] + [Record(b, [])] + records[k + 1..]
  }

  lemma ExtendedStep<V>(combine: (V, V) -> V, r: Record<V>, b: int, s: V)
    requires r.timestamp < b && r.End() == b + 1
    ensures Record(r.timestamp, StepMels(combine, r, Record(b, [s, s]), b, [s, s])).At(b + 1) == Some(s)
  {
    var mel := Record(b, [s, s]);
    var p := Prepended(r, mel, [s, s]);
    assert |p| == b + 2 - r.timestamp && p[b + 1 - r.timestamp] == s;
    assert CombinedSeq(combine, r, mel, r.timestamp, p)[b + 1 - r.timestamp] == s;
  }

  /** The merge stops at the empty record. */
  lemma ExtendedIsAdded<V>(combine: (V, V) -> V, records: seq<Record<V>>, k: nat, b: int, s: V)
    requires Keyed(records) && k < |records| && FitsAt(records, k + 1, b) && records[k].End() == b + 1
    ensures Added(combine, WithEmpty(records, k + 1, b), Record(b, [s, s])) == Extended(combine, records, k, b, s)
  {
    hide LowerBound, StepMels, Emplaced;
    var stored, mel, r := WithEmpty(records, k + 1, b), Record(b, [s, s]), records[k];
    assert stored[k] == r && stored[k + 1] == Record(b, []);
    StartsAtEmpty(records, k, b, mel);
    assert MergeStart(stored, mel) == k;
    assert Merge(combine, stored, mel, k + 1, r.timestamp, StepMels(combine, r, mel, b, [s, s])).to == k + 1;
    assert stored[..k] == records[..k] && stored[k + 1..] == [Record(b, [])] + records[k + 1..];
    ExtendedEmplaced(records, k, b, Record(r.timestamp, StepMels(combine, r, mel, b, [s, s])));
  }

  lemma StartsAtEmpty<V>(records: seq<Record<V>>, k: nat, b: int, mel: Record<V>)
    requires k < |records| && FitsAt(records, k + 1, b) && records[k].End() == b + 1 && mel.timestamp == b
    ensures MergeStart(WithEmpty(records, k + 1, b), mel) == k
  {
    hide LowerBound;
    LowerBoundIs(WithEmpty(records, k + 1, b), b, k + 1);
  }

  lemma ExtendedEmplaced<V>(records: seq<Record<V>>, k: nat, b: int, r: Record<V>)
    requires Keyed(records) && k < |records| && FitsAt(records, k + 1, b) && records[k].timestamp == r.timestamp
    ensures Emplaced(records[..k] + ([Record(b, [])] + records[k + 1..]), r) == records[..k] + [r] + [Record(b, [])] + records[k + 1..]
  {
    hide Emplaced;
    var after := [Record(b, [])] + records[k + 1..];
    forall i: nat | i < |after|
      ensures r.timestamp < after[i].timestamp
    {
      if i > 0 {
        assert after[i] == records[k + i];
      }
    }
    EmplacedInHole(records[..k], after, r);
    assert records[..k] + [r] + after == records[..k] + [r] + [Record(b, [])] + records[k + 1..];
  }

  /** The empty record stands in the last second of a stored one: a longer addition hides the next second. */
  lemma ExtensionHidden<V>(combine: (V, V) -> V, records: seq<Record<V>>, k: nat, b: int, s: V, v: V)
    requires Chain(records) && k < |records| && FitsAt(records, k + 1, b) && records[k].End() == b + 1
    requires combine(s, v) != s
    ensures
      var stored := WithEmpty(records, k + 1, b);
      || GoesWrong(combine, records, stored, [Record(b, [s, s])], b + 1)
      || GoesWrong(combine, records, stored, [Record(b, [s, s]), Record(b + 1, [v])], b + 1)
  {
    hide ValueAt, Chain, Added, FitsAt, Accumulated, Run, Keyed;
    var stored, mel, more := WithEmpty(records, k + 1, b), Record(b, [s, s]), Record(b + 1, [v]);
    ChainIsKeyed(records);
    WithEmptyKeyed(records, k + 1, b);
    ExtendedIsAdded(combine, records, k, b, s);
    AddedKeyed(combine, stored, mel);
    RunOne(combine, stored, mel);
    RunTwo(combine, stored, mel, more);
    ValueInExtended(combine, records, k, b, s);
    HiddenBehindEmpty(combine, Extended(combine, records, k, b, s), k + 1, b, v);
  }

  lemma ValueInExtended<V>(combine: (V, V) -> V, records: seq<Record<V>>, k: nat, b: int, s: V)
    requires Chain(records) && k < |records| && FitsAt(records, k + 1, b) && records[k].End() == b + 1
    ensures
      var after := Extended(combine, records, k, b, s);
      && after[k + 1] == Record(b, []) && ValueAt(after[..k + 1], b + 1) == Some(s) && ValueAt(after, b + 1) == Some(s)
  {
    hide ValueAt;
    var after := Extended(combine, records, k, b, s);
    var r := Record(records[k].timestamp, StepMels(combine, records[k], Record(b, [s, s]), b, [s, s]));
    assert r.At(b + 1) == Some(s) by { ExtendedStep(combine, records[k], b, s); }
    hide StepMels;
    assert after[..k + 1] == records[..k] + [r] && after == records[..k] + [r] + after[k + 1..];
    forall i: nat | i < k
      ensures records[..k][i].At(b + 1).None?
    {
      assert records[i].End() <= records[k].timestamp;
    }
    NoValueOutside(records[..k], b + 1);
    ValueOfConcat(records[..k], [r], b + 1);
    SingleValue(r, b + 1);
    ValueOfConcat(records[..k] + [r], after[k + 1..], b + 1);
  }

  /** Whatever stands at b, an empty record stored there makes some later run go wrong. */
  lemma EmptyDoesHarm<V(!new)>(combine: (V, V) -> V, records: seq<Record<V>>, k: nat, b: int, sample: V)
    returns (added: seq<Record<V>>, t: int)
    requires Chain(records) && Responsive(combine) && FitsAt(records, k, b)
    ensures GoesWrong(combine, records, WithEmpty(records, k, b), added, t)
  {
    hide GoesWrong, Chain, FitsAt;
    if forall i: nat :: i < |records| ==> records[i].At(b).None? {
      DroppedWhole(combine, records, k, b, sample);
      return [Record(b, [sample])], b;
    }
    var i: nat :| i < |records| && records[i].At(b).Some?;
    HolderIsBefore(records, k, b, i);
    if records[i].At(b + 1).Some? {
      assert CanChange(combine, records[i].At(b + 1).value);
      var v :| combine(records[i].At(b + 1).value, v) != records[i].At(b + 1).value;
      SecondHidden(combine, records, i, b, v);
      return [Record(b + 1, [v])], b + 1;
    }
    assert CanChange(combine, sample);
    var v :| combine(sample, v) != sample;
    ExtensionHidden(combine, records, i, b, sample, v);
    if GoesWrong(combine, records, WithEmpty(records, k, b), [Record(b, [sample, sample])], b + 1) {
      return [Record(b, [sample, sample])], b + 1;
    }
    return [Record(b, [sample, sample]), Record(b + 1, [v])], b + 1;
  }

  /** An empty record does no harm exactly if its timestamp is stored already, so that it is dropped. */
  lemma EmptyHarmlessIff<V(!new)>(combine: (V, V) -> V, records: seq<Record<V>>, b: int, sample: V)
    requires Chain(records) && Responsive(combine)
    ensures StillAccumulates(combine, records, Added(combine, records, Record(b, []))) <==> IsKey(records, b)
  {
    hide Added, Chain, FitsAt, Accumulated, Run, ValueAt, Responsive, Keyed, IsKey;
    ChainIsKeyed(records);
    EmptyAdded(combine, records, b);
    if IsKey(records, b) {
      forall added: seq<Record<V>>, t: int | NoneEmpty(added)
        ensures ValueAt(Run(combine, records, added), t) == Accumulated(combine, ValueAt(records, t), added, t)
      {
        RunAccumulates(combine, records, added, t);
      }
    } else {
      var k := EmptyFits(records, b);
      var added, t := EmptyDoesHarm(combine, records, k, b, sample);
    }
  }
}
