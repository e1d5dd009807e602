/**
 Writing a run of samples into a buffer, as a function on sequences: what the copying loops of
 modules Channels and MaskCopy are proved against.
 */
module Slices {

  /** b with the samples of x from position to on. */
  function Stored(b: seq<int>, to: nat, x: seq<int>): (r: seq<int>)
    requires to + |x| <= |b|
    ensures |r| == |b|
  {
    b[..to] + x + b[to + |x|..]
  }

  lemma StoredIs(b: seq<int>, to: nat, x: seq<int>, after: seq<int>)
    requires to + |x| <= |b| == |after|
    requires forall j: nat :: to <= j < to + |x| ==> after[j] == x[j - to]
    requires forall j: nat :: j < |b| && !(to <= j < to + |x|) ==> after[j] == b[j]
    ensures after == Stored(b, to, x)
  {
  }

  lemma StoredAdjacent(b: seq<int>, to: nat, x: seq<int>, y: seq<int>)
    requires to + |x| + |y| <= |b|
    ensures Stored(Stored(b, to + |x|, y), to, x) == Stored(b, to, x + y)
    ensures Stored(Stored(b, to, x), to + |x|, y) == Stored(b, to, x + y)
  {
  }

  lemma StoredKeeps(b: seq<int>, to: nat, x: seq<int>, i: nat, j: nat)
    requires to + |x| <= |b| && i <= j <= |b| && (j <= to || to + |x| <= i)
    ensures Stored(b, to, x)[i..j] == b[i..j]
  {
  }

  lemma StoredParts(b: seq<int>, to: nat, x: seq<int>, end: nat)
    requires to + |x| <= end <= |b|
    ensures Stored(b, to, x)[..to] == b[..to] && Stored(b, to, x)[end..] == b[end..]
    ensures Stored(b, to, x)[to..end] == x + b[to + |x|..end]
  {
  }

  lemma StoredFront(b: seq<int>, to: nat, x: seq<int>)
    requires to + |x| <= |b|
    ensures Stored(b, to, x)[..to + |x|] == b[..to] + x
    ensures Stored(b, to, x)[to + |x|..] == b[to..][|x|..]
  {
  }

  lemma StoredPrefix(b: seq<int>, to: nat, x: seq<int>, i: nat)
    requires i <= to && to + |x| <= |b|
    ensures Stored(b, to, x)[..i] == b[..i]
  {
  }

  lemma StoredSuffix(b: seq<int>, to: nat, x: seq<int>, i: nat)
    requires to + |x| <= i <= |b|
    ensures Stored(b, to, x)[i..] == b[i..]
  {
  }

  lemma StoredWhole(b: seq<int>, x: seq<int>)
    requires |b| == |x|
    ensures Stored(b, 0, x) == x
  {
  }

  lemma StoredFirst(b: seq<int>, x: seq<int>)
    requires |x| <= |b|
    ensures Stored(b, 0, x) == x + b[|x|..]
  {
  }

  lemma SliceOfSlice(s: seq<int>, lo: nat, hi: nat, x: nat, k: nat)
    requires lo + x + k <= hi <= |s|
    ensures s[lo..hi][x..x + k] == s[lo + x..lo + x + k]
  {
    var a, b := s[lo..hi][x..x + k], s[lo + x..lo + x + k];
    forall i: nat | i < |a|
      ensures a[i] == b[i]
    {
      assert s[lo..hi][x + i] == s[lo + x + i];
    }
  }

  lemma SlicesJoin(s: seq<int>, i: nat, j: nat)
    requires i + j <= |s|
    ensures s[..i] + s[i..][..j] == s[..i + j]
  {
  }

  lemma StoredMore(b: seq<int>, to: nat, x: seq<int>, y: int)
    requires to + |x| < |b|
    ensures Stored(b, to, x)[to + |x| := y] == Stored(b, to, x + [y])
  {
  }

  lemma StoredNothing(b: seq<int>, to: nat)
    requires to <= |b|
    ensures Stored(b, to, []) == b
  {
  }
}
