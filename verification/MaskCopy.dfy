/**
 Copying frames from the channels of one mask to the channels of another
 (audio_utils/primitives.c): directly, bit by bit, or driven by a table of indices. Masks are
 two's-complement words; their bits are taken lowest first.
 */
module MaskCopy {
  import opened Bits
  import opened Slices

  /** Number of set bits. */
  function Pop(m: nat): nat {
    if m == 0 then 0 else m % 2 + Pop(m / 2)
  }

  /** A destination frame: source samples where both have the channel, zeros elsewhere. */
  function Frame(d: nat, s: nat, src: seq<int>): seq<int>
    requires Pop(s) <= |src|
    decreases d + s
  {
    if d == 0 && s == 0 then []
    else if s % 2 == 1 then (if d % 2 == 1 then [src[0]] else []) + Frame(d / 2, s / 2, src[1..])
    else (if d % 2 == 1 then [0] else []) + Frame(d / 2, s / 2, src)
  }

  /** For each destination channel its index in the source frame, or -1. */
  function Table(d: nat, s: nat, index: nat): (table: seq<int>)
    ensures |table| == Pop(d)
    decreases d + s
  {
    if d == 0 && s == 0 then []
    else (if d % 2 == 1 then [if s % 2 == 1 then index else -1] else []) + Table(d / 2, s / 2, index + s % 2)
  }

  function IndexFrame(table: seq<int>, src: seq<int>): (f: seq<int>)
    requires forall i: nat :: i < |table| ==> table[i] < |src|
    ensures |f| == |table|
  {
    seq(|table|, i requires 0 <= i < |table| => if table[i] < 0 then 0 else src[table[i]])
  }

  lemma {:induction false} FrameLength(d: nat, s: nat, src: seq<int>)
    requires Pop(s) <= |src|
    ensures |Frame(d, s, src)| == Pop(d)
    decreases d + s
  {
    if d != 0 || s != 0 {
      FrameLength(d / 2, s / 2, if s % 2 == 1 then src[1..] else src);
    }
  }

  /** Channel b is one of the channels of the mask. */
  predicate HasChannel(m: nat, b: nat) {
    if b == 0 then m % 2 == 1 else HasChannel(m / 2, b - 1)
  }

  /** How many channels of the mask come before channel b: its place in a frame. */
  function Place(m: nat, b: nat): (k: nat)
    ensures k + (if HasChannel(m, b) then 1 else 0) <= Pop(m)
  {
    if b == 0 then 0 else m % 2 + Place(m / 2, b - 1)
  }

  /** Each destination channel has the sample of the same source channel, or 0 if the source has no such channel. */
  lemma {:induction false} FrameByChannel(d: nat, s: nat, src: seq<int>, b: nat)
    requires Pop(s) <= |src| && HasChannel(d, b)
    ensures Place(d, b) < |Frame(d, s, src)| == Pop(d)
    ensures Frame(d, s, src)[Place(d, b)] == if HasChannel(s, b) then src[Place(s, b)] else 0
    decreases b
  {
    FrameLength(d, s, src);
    if b > 0 {
      FrameByChannel(d / 2, s / 2, if s % 2 == 1 then src[1..] else src, b - 1);
    }
  }

  /** The table gives for each destination channel the place of the same source channel, or -1. */
  lemma {:induction false} TableByChannel(d: nat, s: nat, index: nat, b: nat)
    requires HasChannel(d, b)
    ensures Table(d, s, index)[Place(d, b)] == if HasChannel(s, b) then index + Place(s, b) else -1
    decreases b
  {
    if b > 0 {
      TableByChannel(d / 2, s / 2, index + s % 2, b - 1);
    }
  }

  lemma {:induction false} TableInRange(d: nat, s: nat, index: nat)
    ensures forall i: nat :: i < |Table(d, s, index)| ==> -1 <= Table(d, s, index)[i] < index + Pop(s)
    decreases d + s
  {
    if d != 0 || s != 0 {
      TableInRange(d / 2, s / 2, index + s % 2);
    }
  }

  /** The fast form equals the simple one, frame by frame. */
  lemma {:induction false} TableFrame(d: nat, s: nat, index: nat, src: seq<int>)
    requires index + Pop(s) <= |src|
    ensures forall i: nat :: i < |Table(d, s, index)| ==> Table(d, s, index)[i] < |src|
    ensures IndexFrame(Table(d, s, index), src) == Frame(d, s, src[index..])
    decreases d + s
  {
    TableInRange(d, s, index);
    hide IndexFrame;
    if d == 0 && s == 0 {
      NoIndex(src);
    } else {
      var head, tail := if d % 2 == 1 then [if s % 2 == 1 then index else -1] else [], Table(d / 2, s / 2, index + s % 2);
      TableFrame(d / 2, s / 2, index + s % 2, src);
      assert s % 2 == 1 ==> src[index..][1..] == src[index + 1..];
      HeadFrame(head, src);
      IndexFrameAppend(head, tail, src);
    }
  }

  lemma NoIndex(src: seq<int>)
    ensures IndexFrame([], src) == []
  {
  }

  lemma HeadFrame(head: seq<int>, src: seq<int>)
    requires |head| <= 1 && forall i: nat :: i < |head| ==> head[i] < |src|
    ensures IndexFrame(head, src) == if head == [] then [] else [if head[0] < 0 then 0 else src[head[0]]]
  {
  }

  lemma IndexFrameAppend(a: seq<int>, b: seq<int>, src: seq<int>)
    requires forall i: nat :: i < |a| ==> a[i] < |src|
    requires forall i: nat :: i < |b| ==> b[i] < |src|
    ensures IndexFrame(a + b, src) == IndexFrame(a, src) + IndexFrame(b, src)
  {
  }

  // ---- the lowest bit

  lemma {:induction false} AndComplement(x: int)
    ensures And(x, -1 - x) == 0
    decreases Abs(x)
  {
    if !Flat(x) {
      AndComplement(x / 2);
      assert (-1 - x) / 2 == -1 - x / 2;
    }
  }

  function Negated(m: int): int {
    -m
  }

  /** m & -m for odd and for even m. */
  lemma LowestOfOdd(m: int)
    requires m > 0 && m % 2 == 1
    ensures And(m, -m) == 1
  {
    assert (-m) / 2 == -1 - m / 2 && (-m) % 2 == 1;
    AndComplement(m / 2);
  }

  /** m << t */
  function Shl(m: nat, t: nat): nat {
    if t == 0 then m else 2 * Shl(m, t - 1)
  }

  /** m >> t */
  function Shr(m: nat, t: nat): nat {
    if t == 0 then m else Shr(m / 2, t - 1)
  }

  lemma {:induction false} ShrNext(m: nat, t: nat)
    ensures Shr(m, t + 1) == Shr(m, t) / 2
    decreases t
  {
    if t > 0 {
      ShrNext(m / 2, t - 1);
    }
  }

  lemma {:induction false} ShrIsQuotient(m: nat, t: nat)
    ensures Shr(m, t) == m / Pow2(t)
    decreases t
  {
    if t > 0 {
      ShrIsQuotient(m / 2, t - 1);
      QuotientOfHalf(m, Pow2(t - 1));
    }
  }

  lemma {:induction false} ShlPositive(m: nat, t: nat)
    requires m > 0
    ensures Shl(m, t) > 0
  {
    if t > 0 {
      ShlPositive(m, t - 1);
    }
  }

  lemma {:induction false} LowestBit(m: nat, t: nat)
    requires m % 2 == 1
    ensures And(Shl(m, t), Negated(Shl(m, t))) == Pow2(t)
  {
    hide And;
    if t == 0 {
      LowestOfOdd(m);
    } else {
      LowestBit(m, t - 1);
      ShlPositive(m, t - 1);
      LowestOfDouble(Shl(m, t - 1));
    }
  }

  lemma LowestOfDouble(m: int)
    requires m > 0
    ensures And(2 * m, -(2 * m)) == 2 * And(m, -m)
  {
    assert (-(2 * m)) / 2 == -m && (-(2 * m)) % 2 == 0 && (2 * m) / 2 == m;
  }

  lemma {:induction false} OrNonneg(x: nat, y: nat)
    ensures Or(x, y) >= 0
    ensures Or(x, y) == 0 <==> x == 0 && y == 0
    ensures Or(x, y) % 2 == 1 <==> x % 2 == 1 || y % 2 == 1
    ensures Or(x, y) / 2 == Or(x / 2, y / 2)
    decreases x + y
  {
    if x != 0 || y != 0 {
      OrNonneg(x / 2, y / 2);
    }
  }

  /** Clearing the lowest bit of an odd word, shifted. */
  lemma {:induction false} ClearLowest(m: nat, t: nat)
    requires m % 2 == 1
    ensures Shl(m, t) >= Pow2(t) && Shl(m, t) - Pow2(t) == Shl(m / 2, t + 1)
    ensures Xor(Shl(m, t), Pow2(t)) == Shl(m / 2, t + 1)
    decreases t
  {
    if t == 0 {
      XorZero(m / 2);
    } else {
      ClearLowest(m, t - 1);
      DoubleXor(Shl(m, t - 1), Pow2(t - 1));
    }
  }

  lemma DoubleXor(x: nat, y: nat)
    requires y > 0
    ensures Xor(2 * x, 2 * y) == 2 * Xor(x, y)
  {
  }

  lemma {:induction false} ShlDouble(m: nat, t: nat)
    ensures Shl(2 * m, t) == Shl(m, t + 1)
  {
    if t > 0 {
      ShlDouble(m, t - 1);
    }
  }

  // ---- walking through two masks

  /** o is what is left of d | s when the t lowest bits are done. */
  ghost predicate Rest(o: nat, d: nat, s: nat, t: nat) {
    Or(Shr(d, t), Shr(s, t)) >= 0 && o == Shl(Or(Shr(d, t), Shr(s, t)), t)
  }

  lemma RestStart(d: nat, s: nat)
    ensures Or(d, s) >= 0 && Rest(Or(d, s), d, s, 0)
  {
    OrNonneg(d, s);
  }

  lemma RestEnd(d: nat, s: nat, t: nat)
    requires Rest(0, d, s, t)
    ensures Shr(d, t) == 0 && Shr(s, t) == 0
  {
    hide Or, Shr;
    OrNonneg(Shr(d, t), Shr(s, t));
    if Or(Shr(d, t), Shr(s, t)) > 0 {
      ShlPositive(Or(Shr(d, t), Shr(s, t)), t);
    }
  }

  /** Two walks are at the same place: only channels of neither mask lie between. */
  ghost predicate SameChannels(d: nat, s: nat, d': nat, s': nat) {
    && Pop(d) == Pop(d') && Pop(s) == Pop(s')
    && (forall src: seq<int> :: Pop(s) <= |src| ==> Frame(d, s, src) == Frame(d', s', src))
    && (forall index: nat :: Table(d, s, index) == Table(d', s', index))
  }

  lemma SkipZero(d: nat, s: nat)
    requires d % 2 == 0 && s % 2 == 0 && (d != 0 || s != 0)
    ensures SameChannels(d, s, d / 2, s / 2)
  {
    forall src: seq<int> | Pop(s) <= |src|
      ensures Frame(d, s, src) == Frame(d / 2, s / 2, src)
    {
      assert [] + Frame(d / 2, s / 2, src) == Frame(d / 2, s / 2, src);
    }
    forall index: nat
      ensures Table(d, s, index) == Table(d / 2, s / 2, index)
    {
      assert [] + Table(d / 2, s / 2, index) == Table(d / 2, s / 2, index);
    }
  }

  /** The lowest bit left: its place, and that clearing it leaves the rest behind it. */
  lemma {:induction false} NextBit(o: nat, d: nat, s: nat, t: nat) returns (u: nat)
    requires Rest(o, d, s, t) && o > 0
    ensures And(o, Negated(o)) == Pow2(u) && Xor(o, Pow2(u)) >= 0 && Rest(Xor(o, Pow2(u)), d, s, u + 1)
    ensures Xor(o, Pow2(u)) < o
    ensures Shr(d, u) % 2 == 1 || Shr(s, u) % 2 == 1
    ensures SameChannels(Shr(d, t), Shr(s, t), Shr(d, u), Shr(s, u))
    decreases Shr(d, t) + Shr(s, t)
  {
    hide And, Or, Xor, Shr, Shl, Pow2, SameChannels;
    var D, S := Shr(d, t), Shr(s, t);
    OrNonneg(D, S);
    ShrNext(d, t);
    ShrNext(s, t);
    if D % 2 == 1 || S % 2 == 1 {
      u := t;
      LowestBit(Or(D, S), t);
      ClearLowest(Or(D, S), t);
      SameIsSame(D, S);
    } else {
      NotBothZero(D, S, t);
      ShlDouble(Or(D, S) / 2, t);
      SkipZero(D, S);
      u := NextBit(o, d, s, t + 1);
      SameTransitive(D, S, D / 2, S / 2, Shr(d, u), Shr(s, u));
    }
  }

  lemma SameIsSame(d: nat, s: nat)
    ensures SameChannels(d, s, d, s)
  {
  }

  lemma NotBothZero(d: nat, s: nat, t: nat)
    requires Or(d, s) >= 0 && Shl(Or(d, s), t) > 0
    ensures d != 0 || s != 0
  {
    if d == 0 && s == 0 {
      ShlZero(t);
    }
  }

  lemma {:induction false} ShlZero(t: nat)
    ensures Shl(0, t) == 0
  {
    if t > 0 {
      ShlZero(t - 1);
    }
  }

  lemma SameTransitive(d0: nat, s0: nat, d1: nat, s1: nat, d2: nat, s2: nat)
    requires SameChannels(d0, s0, d1, s1) && SameChannels(d1, s1, d2, s2)
    ensures SameChannels(d0, s0, d2, s2)
  {
    hide Frame, Table, Pop;
  }

  // ---- the loops

  /** What the loop writes for the masks left, of which one has its lowest bit set. */
  lemma FrameStep(d: nat, s: nat, src: seq<int>, at: nat)
    requires d % 2 == 1 || s % 2 == 1
    requires at + Pop(s) <= |src|
    ensures Pop(d) == d % 2 + Pop(d / 2) && Pop(s) == s % 2 + Pop(s / 2)
    ensures s % 2 == 1 ==> at < |src|
    ensures s % 2 == 1 ==> Frame(d, s, src[at..]) == (if d % 2 == 1 then [src[at]] else []) + Frame(d / 2, s / 2, src[at + 1..])
    ensures s % 2 == 0 ==> Frame(d, s, src[at..]) == [0] + Frame(d / 2, s / 2, src[at..])
  {
    assert s % 2 == 1 ==> src[at..][1..] == src[at + 1..];
  }

  /** How far the walk is: done has been written, the masks from bit t on are left. */
  ghost predicate Walking(d: nat, s: nat, src: seq<int>, from: nat, o: nat, t: nat, at: nat, done: seq<int>) {
    && Rest(o, d, s, t) && from + Pop(s) <= |src| && at + Pop(Shr(s, t)) == from + Pop(s) && from <= at
    && |done| + Pop(Shr(d, t)) == Pop(d)
    && done + Frame(Shr(d, t), Shr(s, t), src[at..]) == Frame(d, s, src[from..])
  }

  lemma WalkStarts(d: nat, s: nat, src: seq<int>, from: nat)
    requires from + Pop(s) <= |src|
    ensures Or(s, d) >= 0 && Or(s, d) == Or(d, s) && Walking(d, s, src, from, Or(d, s), 0, from, [])
  {
    hide Or, Frame;
    RestStart(d, s);
    OrCommutes(d, s);
    assert [] + Frame(d, s, src[from..]) == Frame(d, s, src[from..]);
  }

  lemma WalkSkips(d: nat, s: nat, src: seq<int>, from: nat, o: nat, t: nat, at: nat, done: seq<int>, u: nat)
    requires Walking(d, s, src, from, o, t, at, done)
    requires SameChannels(Shr(d, t), Shr(s, t), Shr(d, u), Shr(s, u))
    ensures at + Pop(Shr(s, u)) == from + Pop(s) <= |src| && from <= at && |done| + Pop(Shr(d, u)) == Pop(d)
    ensures done + Frame(Shr(d, u), Shr(s, u), src[at..]) == Frame(d, s, src[from..])
  {
    hide Frame, Table, Pop, Rest, Shr;
  }

  lemma WalkSteps(d: nat, s: nat, src: seq<int>, from: nat, o: nat, t: nat, at: nat, done: seq<int>, u: nat)
    requires Walking(d, s, src, from, o, t, at, done) && o > 0
    requires SameChannels(Shr(d, t), Shr(s, t), Shr(d, u), Shr(s, u)) && (Shr(d, u) % 2 == 1 || Shr(s, u) % 2 == 1)
    requires Xor(o, Pow2(u)) >= 0 && Rest(Xor(o, Pow2(u)), d, s, u + 1)
    ensures Shr(s, u) % 2 == 1 ==> at < |src|
    ensures Shr(d, u) % 2 == 1 ==> |done| < Pop(d)
    ensures Walking(d, s, src, from, Xor(o, Pow2(u)), u + 1, at + Shr(s, u) % 2,
                    done + if Shr(d, u) % 2 == 1 then [if Shr(s, u) % 2 == 1 then src[at] else 0] else [])
  {
    hide *;
    WalkSkips(d, s, src, from, o, t, at, done, u);
    ShrNext(d, u);
    ShrNext(s, u);
    OneChannel(Shr(d, u), Shr(s, u), src, at, done, |done| + Pop(Shr(d, u)), at + Pop(Shr(s, u)));
    var x := Channel(Shr(d, u), Shr(s, u), src, at);
    ChannelIs(Shr(d, u), Shr(s, u), src, at);
    WalkingIs(d, s, src, from, Xor(o, Pow2(u)), u + 1, at + Shr(s, u) % 2, done + x);
  }

  /** What one bit of the masks puts out. */
  function Channel(d: nat, s: nat, src: seq<int>, at: nat): seq<int>
    requires s % 2 == 1 ==> at < |src|
  {
    if d % 2 == 1 then [if s % 2 == 1 then src[at] else 0] else []
  }

  lemma ChannelIs(d: nat, s: nat, src: seq<int>, at: nat)
    requires s % 2 == 1 ==> at < |src|
    ensures Channel(d, s, src, at) == if d % 2 == 1 then [if s % 2 == 1 then src[at] else 0] else []
  {
  }

  lemma WalkingIs(d: nat, s: nat, src: seq<int>, from: nat, o: nat, t: nat, at: nat, done: seq<int>)
    requires Rest(o, d, s, t) && from + Pop(s) <= |src| && at + Pop(Shr(s, t)) == from + Pop(s) && from <= at
    requires |done| + Pop(Shr(d, t)) == Pop(d)
    requires done + Frame(Shr(d, t), Shr(s, t), src[at..]) == Frame(d, s, src[from..])
    ensures Walking(d, s, src, from, o, t, at, done)
  {
    hide Rest, Pop, Shr, Frame;
  }

  lemma OneChannel(d: nat, s: nat, src: seq<int>, at: nat, done: seq<int>, channels: nat, end: nat)
    requires d % 2 == 1 || s % 2 == 1
    requires end == at + Pop(s) <= |src| && channels == |done| + Pop(d)
    ensures s % 2 == 1 ==> at < |src|
    ensures d % 2 == 1 ==> |done| < channels
    ensures |done + Channel(d, s, src, at)| + Pop(d / 2) == channels && at + s % 2 + Pop(s / 2) == end
    ensures (done + Channel(d, s, src, at)) + Frame(d / 2, s / 2, src[at + s % 2..]) == done + Frame(d, s, src[at..])
  {
    hide Frame, Pop;
    FrameStep(d, s, src, at);
    FramesAssociate(done, Channel(d, s, src, at), Frame(d / 2, s / 2, src[at + s % 2..]));
  }

  lemma WalkEnds(d: nat, s: nat, src: seq<int>, from: nat, t: nat, at: nat, done: seq<int>)
    requires Walking(d, s, src, from, 0, t, at, done)
    ensures done == Frame(d, s, src[from..]) && at == from + Pop(s) && |done| == Pop(d)
  {
    hide Rest, Shr;
    RestEnd(d, s, t);
  }

  /** Testing a mask for one bit. */
  lemma TestBit(m: nat, u: nat)
    ensures And(m, Pow2(u)) != 0 <==> Shr(m, u) % 2 == 1
  {
    hide And, Pow2, Shr;
    AndCommutes(m, Pow2(u));
    OneBit(m, u);
    ShrIsQuotient(m, u);
  }

  /** One frame of copy_frame_by_mask. */
  method CopyFrame(dst: array<int>, to: nat, d: nat, src: array<int>, from: nat, s: nat) returns (to': nat, from': nat)
    requires dst != src && to + Pop(d) <= dst.Length && from + Pop(s) <= src.Length
    modifies dst
    ensures to' == to + Pop(d) && from' == from + Pop(s)
    ensures |Frame(d, s, src[..][from..])| == Pop(d)
    ensures dst[..] == Stored(old(dst[..]), to, Frame(d, s, src[..][from..]))
  {
    hide And, Or, Xor, Pow2, Shr, Pop, Frame, Stored, Walking, Rest, SameChannels;
    WalkStarts(d, s, src[..], from);
    var ormask: nat := Or(d, s);
    to', from' := to, from;
    ghost var t: nat, done: seq<int> := 0, [];
    ghost var before := dst[..];
    StoredNothing(before, to);
    while ormask != 0
      invariant Walking(d, s, src[..], from, ormask, t, from', done)
      invariant to' == to + |done| && |done| <= Pop(d) && dst[..] == Stored(before, to, done)
      decreases ormask
    {
      WalkBound(d, s, src[..], from, ormask, t, from', done);
      ghost var u := NextBit(ormask, d, s, t);
      var bit := And(ormask, Negated(ormask));
      WalkSteps(d, s, src[..], from, ormask, t, from', done, u);
      TestBit(d, u);
      TestBit(s, u);
      ormask := Xor(ormask, bit);
      if And(d, bit) != 0 {
        var value := 0;
        if And(s, bit) != 0 {
          value := src[from'];
          from' := from' + 1;
        }
        StoredMore(before, to, done, value);
        dst[to'] := value;
        to' := to' + 1;
        done := done + [value];
      } else {
        from' := from' + 1;
        assert done + [] == done;
      }
      t := u + 1;
      WalkBound(d, s, src[..], from, ormask, t, from', done);
    }
    WalkEnds(d, s, src[..], from, t, from', done);
  }

  lemma WalkBound(d: nat, s: nat, src: seq<int>, from: nat, o: nat, t: nat, at: nat, done: seq<int>)
    requires Walking(d, s, src, from, o, t, at, done)
    ensures |done| <= Pop(d) && Rest(o, d, s, t)
  {
    hide Rest, Frame;
  }

  /** count destination frames, one after the other. */
  function Frames(d: nat, s: nat, src: seq<int>, count: nat): (f: seq<int>)
    requires count * Pop(s) <= |src|
  {
    if count == 0 then []
    else
      OneAhead(0, count, Pop(s));
      BlocksLeft(count, Pop(s), |src|);
      Frame(d, s, src) + Frames(d, s, src[Pop(s)..], count - 1)
  }

  lemma BlocksLeft(count: nat, n: nat, size: nat)
    requires count > 0 && count * n <= size
    ensures n <= size && (count - 1) * n <= size - n
  {
    assert (count - 1) * n == count * n - n;
    assert (count - 1) * n >= 0;
  }

  lemma {:induction false} FramesLength(d: nat, s: nat, src: seq<int>, count: nat)
    requires count * Pop(s) <= |src|
    ensures |Frames(d, s, src, count)| == count * Pop(d)
    decreases count
  {
    hide Frame, Pop;
    if count > 0 {
      BlocksLeft(count, Pop(s), |src|);
      FrameLength(d, s, src);
      FramesLength(d, s, src[Pop(s)..], count - 1);
      assert (count - 1) * Pop(d) == count * Pop(d) - Pop(d);
    }
  }

  /** With equal masks all frames are copied as they are. */
  lemma {:induction false} SameMaskFrame(d: nat, src: seq<int>)
    requires Pop(d) <= |src|
    ensures Frame(d, d, src) == src[..Pop(d)]
    decreases d
  {
    if d != 0 {
      SameMaskFrame(d / 2, if d % 2 == 1 then src[1..] else src);
    }
  }

  lemma {:induction false} SameMaskFrames(d: nat, src: seq<int>, count: nat)
    requires count * Pop(d) <= |src|
    ensures Frames(d, d, src, count) == src[..count * Pop(d)]
    decreases count
  {
    hide Frame, Pop;
    if count > 0 {
      BlocksLeft(count, Pop(d), |src|);
      SameMaskFrame(d, src);
      SameMaskFrames(d, src[Pop(d)..], count - 1);
      assert (count - 1) * Pop(d) == count * Pop(d) - Pop(d);
      SlicesJoin(src, Pop(d), (count - 1) * Pop(d));
    }
  }

  /** done frames are out, the others are still to be copied from position at. */
  ghost predicate FramesDone(d: nat, s: nat, src: seq<int>, count: nat, k: nat, at: nat, done: seq<int>) {
    && count * Pop(s) <= |src| && k <= count && at == k * Pop(s) <= |src| && |done| == k * Pop(d)
    && (count - k) * Pop(s) <= |src[at..]|
    && done + Frames(d, s, src[at..], count - k) == Frames(d, s, src, count)
  }

  lemma FramesStart(d: nat, s: nat, src: seq<int>, count: nat)
    requires count * Pop(s) <= |src|
    ensures FramesDone(d, s, src, count, 0, 0, [])
  {
    hide Frames, Pop;
    assert src[0..] == src;
    assert [] + Frames(d, s, src, count) == Frames(d, s, src, count);
  }

  lemma FramesStep(d: nat, s: nat, src: seq<int>, count: nat, k: nat, at: nat, done: seq<int>)
    requires FramesDone(d, s, src, count, k, at, done) && k < count
    ensures at + Pop(s) <= |src| && |done| + Pop(d) <= count * Pop(d)
    ensures FramesDone(d, s, src, count, k + 1, at + Pop(s), done + Frame(d, s, src[at..]))
  {
    hide Frame, Pop;
    BlocksLeft(count - k, Pop(s), |src[at..]|);
    OneAhead(k, count, Pop(s));
    OneAhead(k, count, Pop(d));
    FrameLength(d, s, src[at..]);
    var rest := src[at..][Pop(s)..];
    assert rest == src[at + Pop(s)..];
    FramesAssociate(done, Frame(d, s, src[at..]), Frames(d, s, rest, count - k - 1));
  }

  lemma FramesAssociate(a: seq<int>, b: seq<int>, c: seq<int>)
    ensures (a + b) + c == a + (b + c)
  {
  }

  lemma FramesEnd(d: nat, s: nat, src: seq<int>, count: nat, at: nat, done: seq<int>)
    requires FramesDone(d, s, src, count, count, at, done)
    ensures done == Frames(d, s, src, count)
  {
    hide Frame, Pop;
    assert Frames(d, s, src[at..], 0) == [];
  }

  /** memcpy_by_channel_mask */
  method CopyByMask(dst: array<int>, d: nat, src: array<int>, s: nat, count: nat)
    requires dst != src && count * Pop(d) <= dst.Length && count * Pop(s) <= src.Length
    modifies dst
    ensures |Frames(d, s, src[..], count)| == count * Pop(d)
    ensures dst[..] == Stored(old(dst[..]), 0, Frames(d, s, src[..], count))
  {
    hide Pop, Frames, Stored;
    FramesLength(d, s, src[..], count);
    if d == s {
      SameMaskFrames(d, src[..], count);
      CopyAll(dst, src, Pop(d) * count);
    } else {
      CopyFrames(dst, d, src, s, count);
    }
  }

  method CopyFrames(dst: array<int>, d: nat, src: array<int>, s: nat, count: nat)
    requires dst != src && count * Pop(d) <= dst.Length && count * Pop(s) <= src.Length
    modifies dst
    ensures |Frames(d, s, src[..], count)| <= dst.Length
    ensures dst[..] == Stored(old(dst[..]), 0, Frames(d, s, src[..], count))
  {
    hide Pop, Frame, Frames, Stored, FramesDone;
    ghost var before, all := dst[..], src[..];
    var to: nat, from: nat, k: nat := 0, 0, 0;
    ghost var done: seq<int> := [];
    FramesStart(d, s, all, count);
    StoredNothing(before, 0);
    while k < count
      invariant k <= count && to == |done| <= dst.Length
      invariant FramesDone(d, s, all, count, k, from, done)
      invariant dst[..] == Stored(before, 0, done)
    {
      FramesStep(d, s, all, count, k, from, done);
      ghost var x := Frame(d, s, all[from..]);
      FrameLength(d, s, all[from..]);
      StoredAdjacent(before, 0, done, x);
      to, from := CopyFrame(dst, to, d, src, from, s);
      done := done + x;
      k := k + 1;
    }
    FramesEnd(d, s, all, count, from, done);
  }

  method CopyAll(dst: array<int>, src: array<int>, n: nat)
    requires dst != src && n <= dst.Length && n <= src.Length
    modifies dst
    ensures dst[..] == Stored(old(dst[..]), 0, src[..n])
  {
    forall i | 0 <= i < n {
      dst[i] := src[i];
    }
  }

  // ---- the table of indices

  /** table is written for the bits below t; index source channels were met. */
  ghost predicate Tabling(d: nat, s: nat, o: nat, t: nat, index: nat, table: seq<int>) {
    && Rest(o, d, s, t) && |table| + Pop(Shr(d, t)) == Pop(d)
    && table + Table(Shr(d, t), Shr(s, t), index) == Table(d, s, 0)
  }

  lemma TableStarts(d: nat, s: nat)
    ensures Or(s, d) >= 0 && Tabling(d, s, Or(s, d), 0, 0, [])
  {
    hide Or, Table;
    RestStart(d, s);
    OrCommutes(d, s);
    assert [] + Table(d, s, 0) == Table(d, s, 0);
  }

  lemma TableSteps(d: nat, s: nat, o: nat, t: nat, index: nat, table: seq<int>, u: nat)
    requires Tabling(d, s, o, t, index, table) && o > 0
    requires SameChannels(Shr(d, t), Shr(s, t), Shr(d, u), Shr(s, u)) && (Shr(d, u) % 2 == 1 || Shr(s, u) % 2 == 1)
    requires Xor(o, Pow2(u)) >= 0 && Rest(Xor(o, Pow2(u)), d, s, u + 1)
    ensures Tabling(d, s, Xor(o, Pow2(u)), u + 1, index + Shr(s, u) % 2,
                    table + if Shr(d, u) % 2 == 1 then [if Shr(s, u) % 2 == 1 then index else -1] else [])
  {
    hide Frame, Rest, Xor, Pow2, Shr;
    TableSkips(d, s, o, t, index, table, u);
    var D, S := Shr(d, u), Shr(s, u);
    ShrNext(d, u);
    ShrNext(s, u);
    var x := if D % 2 == 1 then [if S % 2 == 1 then index else -1] else [];
    FramesAssociate(table, x, Table(D / 2, S / 2, index + S % 2));
  }

  lemma TableSkips(d: nat, s: nat, o: nat, t: nat, index: nat, table: seq<int>, u: nat)
    requires Tabling(d, s, o, t, index, table)
    requires SameChannels(Shr(d, t), Shr(s, t), Shr(d, u), Shr(s, u))
    ensures |table| + Pop(Shr(d, u)) == Pop(d)
    ensures table + Table(Shr(d, u), Shr(s, u), index) == Table(d, s, 0)
  {
    hide Frame, Table, Pop, Rest, Shr;
  }

  lemma {:induction false} AndShr(x: nat, y: nat, u: nat)
    ensures And(x, y) >= 0 && Shr(And(x, y), u) == And(Shr(x, u), Shr(y, u)) && And(x, y) == And(y, x)
    decreases u, x + y
  {
    AndNonneg(x, y);
    AndCommutes(x, y);
    if u > 0 {
      AndShr(x / 2, y / 2, u - 1);
      AndHalf(x, y);
    }
  }

  lemma {:induction false} AndNonneg(x: nat, y: nat)
    ensures And(x, y) >= 0
    decreases x + y
  {
    if x != 0 || y != 0 {
      AndNonneg(x / 2, y / 2);
    }
  }

  lemma AndHalf(x: nat, y: nat)
    ensures And(x, y) / 2 == And(x / 2, y / 2)
    ensures And(x, y) % 2 == 1 <==> x % 2 == 1 && y % 2 == 1
  {
  }

  /** src_mask & dst_mask & bit */
  lemma TestBoth(d: nat, s: nat, u: nat)
    ensures And(s, d) >= 0
    ensures And(And(s, d), Pow2(u)) != 0 <==> Shr(s, u) % 2 == 1 && Shr(d, u) % 2 == 1
  {
    hide And, Shr, Pow2;
    AndShr(s, d, u);
    TestBit(And(s, d), u);
    AndHalf(Shr(s, u), Shr(d, u));
  }

  lemma {:induction false} AndOrAbsorbs(x: nat, y: nat)
    ensures And(Or(x, y), x) == x
    decreases x + y
  {
    OrNonneg(x, y);
    if x != 0 || y != 0 {
      AndOrAbsorbs(x / 2, y / 2);
    }
  }

  lemma {:induction false} AndShl(m: nat, d: nat, t: nat)
    ensures And(m, Shr(d, t)) >= 0 && And(Shl(m, t), d) == Shl(And(m, Shr(d, t)), t)
    decreases t
  {
    AndNonneg(m, Shr(d, t));
    if t > 0 {
      AndShl(m, d / 2, t - 1);
      AndDouble(Shl(m, t - 1), d);
    }
  }

  lemma AndDouble(x: nat, d: nat)
    ensures And(2 * x, d) == 2 * And(x, d / 2)
  {
    if x == 0 && d == 0 {
    } else {
      assert (2 * x) / 2 == x;
      if x == 0 {
        AndZero(d);
        AndZero(d / 2);
      }
    }
  }

  lemma {:induction false} PopShl(m: nat, t: nat)
    ensures Pop(Shl(m, t)) == Pop(m)
  {
    if t > 0 {
      PopShl(m, t - 1);
      assert (2 * Shl(m, t - 1)) / 2 == Shl(m, t - 1);
    }
  }

  /** The destination channels among the bits that are left. */
  lemma ChannelsLeft(o: nat, d: nat, s: nat, t: nat)
    requires Rest(o, d, s, t)
    ensures And(o, d) >= 0 && Pop(And(o, d)) == Pop(Shr(d, t))
  {
    hide And, Or, Pop, Shr, Shl;
    var D, S := Shr(d, t), Shr(s, t);
    AndShl(Or(D, S), d, t);
    AndOrAbsorbs(D, S);
    PopShl(D, t);
    AndNonneg(o, d);
  }

  /** memcpy_by_index_array_initialization: as much of the table as there is room for. */
  method InitTable(idxary: array<int>, idxcount: nat, d: nat, s: nat) returns (channels: nat)
    requires idxcount <= idxary.Length
    modifies idxary
    ensures channels == Pop(d)
    ensures var n := if idxcount < Pop(d) then idxcount else Pop(d);
            n <= |Table(d, s, 0)| && idxary[..] == Stored(old(idxary[..]), 0, Table(d, s, 0)[..n])
  {
    hide And, Or, Xor, Pow2, Shr, Pop, Table, Stored, Tabling, Rest, SameChannels;
    TableStarts(d, s);
    var n: nat, srcidx: nat, ormask: nat := 0, 0, Or(s, d);
    ghost var t: nat, table: seq<int> := 0, [];
    ghost var before := idxary[..];
    StoredNothing(before, 0);
    while ormask != 0 && n < idxcount
      invariant Tabling(d, s, ormask, t, srcidx, table) && n == |table| <= idxcount
      invariant idxary[..] == Stored(before, 0, table)
      decreases ormask
    {
      TablingRest(d, s, ormask, t, srcidx, table);
      ghost var u := NextBit(ormask, d, s, t);
      var bit := And(ormask, Negated(ormask));
      TableSteps(d, s, ormask, t, srcidx, table, u);
      TestBit(s, u);
      TestBoth(d, s, u);
      ormask := Xor(ormask, bit);
      if And(And(s, d), bit) != 0 {
        StoredMore(before, 0, table, srcidx);
        idxary[n] := srcidx;
        table := table + [srcidx];
        n, srcidx := n + 1, srcidx + 1;
      } else if And(s, bit) != 0 {
        srcidx := srcidx + 1;
        assert table + [] == table;
      } else {
        StoredMore(before, 0, table, -1);
        idxary[n] := -1;
        table := table + [-1];
        n := n + 1;
      }
      t := u + 1;
    }
    TablingRest(d, s, ormask, t, srcidx, table);
    ChannelsLeft(ormask, d, s, t);
    TablePrefix(d, s, ormask, t, srcidx, table);
    channels := n + Pop(And(ormask, d));
  }

  lemma TablingRest(d: nat, s: nat, o: nat, t: nat, index: nat, table: seq<int>)
    requires Tabling(d, s, o, t, index, table)
    ensures Rest(o, d, s, t) && |table| + Pop(Shr(d, t)) == Pop(d)
  {
    hide Rest, Table;
  }

  lemma TablePrefix(d: nat, s: nat, o: nat, t: nat, index: nat, table: seq<int>)
    requires Tabling(d, s, o, t, index, table)
    ensures |table| <= |Table(d, s, 0)| && table == Table(d, s, 0)[..|table|]
    ensures o == 0 ==> |table| == Pop(d)
  {
    hide Rest, Table, Shr;
    if o == 0 {
      RestEnd(d, s, t);
    }
  }

  // ---- copying by the table

  function IndexFrames(table: seq<int>, src: seq<int>, channels: nat, count: nat): seq<int>
    requires (forall i: nat :: i < |table| ==> table[i] < channels) && count * channels <= |src|
  {
    if count == 0 then []
    else
      BlocksLeft(count, channels, |src|);
      IndexFrame(table, src) + IndexFrames(table, src[channels..], channels, count - 1)
  }

  /** Driven by the whole table, the simple copy gives what the copy by masks gives. */
  lemma {:induction false} TableFrames(d: nat, s: nat, src: seq<int>, count: nat)
    requires count * Pop(s) <= |src|
    ensures forall i: nat :: i < |Table(d, s, 0)| ==> Table(d, s, 0)[i] < Pop(s)
    ensures IndexFrames(Table(d, s, 0), src, Pop(s), count) == Frames(d, s, src, count)
    decreases count
  {
    hide Pop, Table, Frame, IndexFrame;
    TableInRange(d, s, 0);
    if count > 0 {
      BlocksLeft(count, Pop(s), |src|);
      TableFrame(d, s, 0, src);
      assert src[0..] == src;
      TableFrames(d, s, src[Pop(s)..], count - 1);
    }
  }

  predicate IndexOk(table: seq<int>, channels: nat) {
    forall i: nat :: i < |table| ==> table[i] < channels
  }

  /** One frame of copy_frame_by_idx. */
  method CopyIndexed(dst: array<int>, to: nat, src: array<int>, from: nat, channels: nat, table: seq<int>)
    requires dst != src && to + |table| <= dst.Length && from + channels <= src.Length && IndexOk(table, channels)
    modifies dst
    ensures dst[..] == Stored(old(dst[..]), to, IndexFrame(table, src[..][from..]))
  {
    ghost var frame := IndexFrame(table, src[..][from..]);
    var i := 0;
    while i < |table|
      invariant 0 <= i <= |table|
      invariant forall j: nat :: to <= j < to + i ==> dst[j] == frame[j - to]
      invariant forall j: nat :: j < dst.Length && !(to <= j < to + i) ==> dst[j] == old(dst[j])
    {
      var index := table[i];
      dst[to + i] := if index < 0 then 0 else src[from + index];
      i := i + 1;
    }
  }

  /** k frames are done. */
  ghost predicate IndexedDone(table: seq<int>, src: seq<int>, channels: nat, count: nat, k: nat, at: nat, done: seq<int>) {
    && IndexOk(table, channels) && count * channels <= |src| && k <= count && at == k * channels <= |src|
    && |done| == k * |table| && (count - k) * channels <= |src[at..]|
    && done + IndexFrames(table, src[at..], channels, count - k) == IndexFrames(table, src, channels, count)
  }

  lemma IndexedStart(table: seq<int>, src: seq<int>, channels: nat, count: nat)
    requires IndexOk(table, channels) && count * channels <= |src|
    ensures IndexedDone(table, src, channels, count, 0, 0, [])
  {
    hide IndexFrames;
    assert src[0..] == src;
    assert [] + IndexFrames(table, src, channels, count) == IndexFrames(table, src, channels, count);
  }

  lemma IndexedStep(table: seq<int>, src: seq<int>, channels: nat, count: nat, k: nat, at: nat, done: seq<int>)
    requires IndexedDone(table, src, channels, count, k, at, done) && k < count
    ensures at + channels <= |src| && |done| + |table| <= count * |table|
    ensures IndexedDone(table, src, channels, count, k + 1, at + channels, done + IndexFrame(table, src[at..]))
  {
    hide IndexFrame;
    BlocksLeft(count - k, channels, |src[at..]|);
    OneAhead(k, count, channels);
    OneAhead(k, count, |table|);
    var rest := src[at..][channels..];
    assert rest == src[at + channels..];
    FramesAssociate(done, IndexFrame(table, src[at..]), IndexFrames(table, rest, channels, count - k - 1));
  }

  lemma IndexedEnd(table: seq<int>, src: seq<int>, channels: nat, count: nat, at: nat, done: seq<int>)
    requires IndexedDone(table, src, channels, count, count, at, done)
    ensures done == IndexFrames(table, src, channels, count)
  {
    hide IndexFrame;
    assert IndexFrames(table, src[at..], channels, 0) == [];
  }

  /** memcpy_by_index_array */
  method CopyByIndex(dst: array<int>, src: array<int>, channels: nat, idxary: array<int>, dstChannels: nat, count: nat)
    requires dst != src && dst != idxary && dstChannels <= idxary.Length && IndexOk(idxary[..dstChannels], channels)
    requires count * dstChannels <= dst.Length && count * channels <= src.Length
    modifies dst
    ensures |IndexFrames(idxary[..dstChannels], src[..], channels, count)| <= dst.Length
    ensures dst[..] == Stored(old(dst[..]), 0, IndexFrames(idxary[..dstChannels], src[..], channels, count))
  {
    hide IndexFrame, IndexFrames, Stored, IndexedDone;
    ghost var before, all := dst[..], src[..];
    var table := idxary[..dstChannels];
    var to: nat, from: nat, k: nat := 0, 0, 0;
    ghost var done: seq<int> := [];
    IndexedStart(table, all, channels, count);
    StoredNothing(before, 0);
    while k < count
      invariant k <= count && to == |done| <= dst.Length
      invariant IndexedDone(table, all, channels, count, k, from, done)
      invariant dst[..] == Stored(before, 0, done)
    {
      IndexedStep(table, all, channels, count, k, from, done);
      ghost var x := IndexFrame(table, all[from..]);
      StoredAdjacent(before, 0, done, x);
      CopyIndexed(dst, to, src, from, channels, table);
      done := done + x;
      to, from, k := to + |table|, from + channels, k + 1;
    }
    IndexedEnd(table, all, channels, count, from, done);
  }
}
