/**
 Re-interleaving audio frames with more or fewer channels (audio_utils/channels.cpp). The
 input and the output are separate buffers or the same one; the pointer loops run back to
 front or front to back so that the same code serves both.
 */
module Channels {
  import opened Bits
  import opened Slices

  // ---- what happens to one frame

  datatype Change =
    | Pad(m: nat)    // zeros behind the frame
    | Twice(m: nat)  // mono to both of the first channels, zeros behind
    | Keep(m: nat)   // the first channels
    | Drop(m: nat)   // the channels behind the first ones
    | Mix            // the first two channels averaged

  predicate Fits(c: Change, n: nat) {
    match c
    case Pad(m) => n <= m
    case Twice(m) => n == 1 && 2 <= m
    case Keep(m) => m <= n
    case Drop(m) => m <= n
    case Mix => 2 <= n
  }

  function Width(c: Change, n: nat): nat
    requires Fits(c, n)
  {
    match c
    case Pad(m) => m
    case Twice(m) => m
    case Keep(m) => m
    case Drop(m) => n - m
    case Mix => 1
  }

  function Zeros(n: nat): (z: seq<int>)
    ensures |z| == n && forall i: nat :: i < n ==> z[i] == 0
  {
    seq(n, i => 0)
  }

  /** The half adder: the carries and half of what differs. */
  function HalfAdder(x: int, y: int): int {
    And(x, y) + Xor(x, y) / 2
  }

  lemma HalfAdderIsAverage(x: int, y: int)
    ensures HalfAdder(x, y) == (x + y) / 2
  {
    hide And, Xor;
    SumIsCarriesPlusXor(x, y);
  }

  function Changed(c: Change, x: seq<int>): (y: seq<int>)
    requires Fits(c, |x|)
    ensures |y| == Width(c, |x|)
  {
    match c
    case Pad(m) => x + Zeros(m - |x|)
    case Twice(m) => [x[0], x[0]] + Zeros(m - 2)
    case Keep(m) => x[..m]
    case Drop(m) => x[m..]
    case Mix => [(x[0] + x[1]) / 2]
  }

  /** All the frames of n samples, one after the other. */
  function EachFrame(c: Change, n: nat, s: seq<int>): seq<int>
    requires n > 0 && Fits(c, n)
  {
    if |s| < n then [] else Changed(c, s[..n]) + EachFrame(c, n, s[n..])
  }

  /** Frames of n samples of a, each followed by k samples of b. */
  function Interleaved(a: seq<int>, n: nat, b: seq<int>, k: nat): seq<int>
    requires n > 0
  {
    if |a| < n || |b| < k then [] else a[..n] + b[..k] + Interleaved(a[n..], n, b[k..], k)
  }

  // ---- round trips

  /** undo gives back every frame of n samples. */
  ghost predicate Undoes(undo: Change, c: Change, n: nat)
  {
    Fits(c, n) && Fits(undo, Width(c, n)) && forall x: seq<int> :: |x| == n ==> Changed(undo, Changed(c, x)) == x
  }

  lemma Product(f: nat, n: nat)
    requires f > 0
    ensures (f - 1) * n == f * n - n && f * n >= n
  {
    assert (f - 1) * n >= 0;
  }

  lemma {:induction false} EachFrameLength(c: Change, n: nat, s: seq<int>, f: nat)
    requires n > 0 && Fits(c, n) && |s| == f * n
    ensures |EachFrame(c, n, s)| == f * Width(c, n)
    decreases f
  {
    hide Changed, Width;
    if f > 0 {
      Product(f, n);
      Product(f, Width(c, n));
      EachFrameLength(c, n, s[n..], f - 1);
    } else {
      assert s == [];
    }
  }

  /** Whatever undoes one frame undoes them all. */
  lemma {:induction false} RoundTrip(undo: Change, c: Change, n: nat, s: seq<int>, f: nat)
    requires n > 0 && Undoes(undo, c, n) && Width(c, n) > 0 && |s| == f * n
    ensures EachFrame(undo, Width(c, n), EachFrame(c, n, s)) == s
    decreases f
  {
    hide Changed, Width;
    if f > 0 {
      Product(f, n);
      RoundTrip(undo, c, n, s[n..], f - 1);
      var first, rest := Changed(c, s[..n]), EachFrame(c, n, s[n..]);
      assert (first + rest)[..|first|] == first && (first + rest)[|first|..] == rest;
    } else {
      assert s == [];
    }
  }

  lemma KeepUndoesPad(n: nat, m: nat)
    requires n <= m
    ensures Undoes(Keep(n), Pad(m), n)
  {
  }

  lemma MixUndoesTwice(m: nat)
    requires 2 <= m
    ensures Undoes(Mix, Twice(m), 1)
  {
    forall x: seq<int> | |x| == 1
      ensures Changed(Mix, Changed(Twice(m), x)) == x
    {
      assert (x[0] + x[0]) / 2 == x[0];
    }
  }

  /** The two parts that the non-destructive contraction stores interleave to the whole again. */
  lemma {:induction false} PartsInterleave(n: nat, m: nat, s: seq<int>, f: nat)
    requires 0 < m <= n && |s| == f * n
    ensures Interleaved(EachFrame(Keep(m), n, s), m, EachFrame(Drop(m), n, s), n - m) == s
    decreases f
  {
    if f > 0 {
      Product(f, n);
      PartsInterleave(n, m, s[n..], f - 1);
      PartsOfFirst(n, m, s);
    } else {
      assert s == [];
    }
  }

  lemma PartsOfFirst(n: nat, m: nat, s: seq<int>)
    requires 0 < m <= n <= |s|
    ensures var a, b := EachFrame(Keep(m), n, s), EachFrame(Drop(m), n, s);
            |a| >= m && |b| >= n - m && a[..m] + b[..n - m] == s[..n]
            && a[m..] == EachFrame(Keep(m), n, s[n..]) && b[n - m..] == EachFrame(Drop(m), n, s[n..])
  {
    assert s[..n][..m] + s[..n][m..] == s[..n];
  }

  /** And the other way round: the parts of an interleaved buffer are what was interleaved. */
  lemma {:induction false} InterleavedParts(a: seq<int>, n: nat, b: seq<int>, k: nat, f: nat)
    requires n > 0 && |a| == f * n && |b| == f * k
    ensures EachFrame(Keep(n), n + k, Interleaved(a, n, b, k)) == a
    ensures EachFrame(Drop(n), n + k, Interleaved(a, n, b, k)) == b
    decreases f
  {
    hide Changed;
    if f > 0 {
      Product(f, n);
      Product(f, k);
      InterleavedParts(a[n..], n, b[k..], k, f - 1);
      FirstInterleaved(a, n, b, k);
    } else {
      assert a == [] && b == [];
    }
  }

  lemma FirstInterleaved(a: seq<int>, n: nat, b: seq<int>, k: nat)
    requires 0 < n <= |a| && k <= |b|
    ensures var s, r := Interleaved(a, n, b, k), Interleaved(a[n..], n, b[k..], k);
            EachFrame(Keep(n), n + k, s) == a[..n] + EachFrame(Keep(n), n + k, r)
            && EachFrame(Drop(n), n + k, s) == b[..k] + EachFrame(Drop(n), n + k, r)
  {
    var s, r := Interleaved(a, n, b, k), Interleaved(a[n..], n, b[k..], k);
    assert s[..n + k] == a[..n] + b[..k] && s[n + k..] == r;
    assert (a[..n] + b[..k])[..n] == a[..n] && (a[..n] + b[..k])[n..] == b[..k];
  }

  // ---- the pointer loops

  /** Front to back: within one buffer, only towards the front. */
  method CopyForward(a: array<int>, from: nat, b: array<int>, to: nat, k: nat)
    requires from + k <= a.Length && to + k <= b.Length && (a == b ==> to <= from)
    modifies b
    ensures b[..] == Stored(old(b[..]), to, old(a[from..from + k]))
  {
    hide Stored;
    ghost var was, x := b[..], a[from..from + k];
    var i := 0;
    while i < k
      invariant 0 <= i <= k
      invariant forall j: nat :: to <= j < to + i ==> b[j] == old(a[from + j - to])
      invariant forall j: nat :: j < b.Length && !(to <= j < to + i) ==> b[j] == old(b[j])
    {
      b[to + i] := a[from + i];
      i := i + 1;
    }
    StoredIs(was, to, x, b[..]);
  }

  /** Back to front: within one buffer, only towards the back. */
  method CopyBackward(a: array<int>, from: nat, b: array<int>, to: nat, k: nat)
    requires from + k <= a.Length && to + k <= b.Length && (a == b ==> from <= to)
    modifies b
    ensures b[..] == Stored(old(b[..]), to, old(a[from..from + k]))
  {
    hide Stored;
    ghost var was, x := b[..], a[from..from + k];
    var i := k;
    while i > 0
      invariant 0 <= i <= k
      invariant forall j: nat :: to + i <= j < to + k ==> b[j] == old(a[from + j - to])
      invariant forall j: nat :: j < b.Length && !(to + i <= j < to + k) ==> b[j] == old(b[j])
    {
      i := i - 1;
      b[to + i] := a[from + i];
    }
    StoredIs(was, to, x, b[..]);
  }

  method FillBackward(b: array<int>, to: nat, k: nat, value: int)
    requires to + k <= b.Length
    modifies b
    ensures b[..] == Stored(old(b[..]), to, seq(k, i => value))
  {
    hide Stored;
    ghost var was := b[..];
    var i := k;
    while i > 0
      invariant 0 <= i <= k
      invariant forall j: nat :: to + i <= j < to + k ==> b[j] == value
      invariant forall j: nat :: j < b.Length && !(to + i <= j < to + k) ==> b[j] == old(b[j])
    {
      i := i - 1;
      b[to + i] := value;
    }
    StoredIs(was, to, seq(k, i => value), b[..]);
  }

  /** One frame of EXPAND_CHANNELS, from its end. */
  method PadFrame(input: array<int>, src: nat, n: nat, output: array<int>, dst: nat, m: nat)
    requires 0 < n <= m
    requires src + n <= input.Length && dst + m <= output.Length && (input == output ==> src <= dst)
    modifies output
    ensures output[..] == Stored(old(output[..]), dst, Changed(Pad(m), old(input[src..src + n])))
  {
    hide Stored;
    ghost var x := input[src..src + n];
    FillBackward(output, dst + n, m - n, 0);
    assert seq(m - n, i => 0) == Zeros(m - n);
    StoredKeeps(old(output[..]), dst + n, Zeros(m - n), if input == output then src else 0, if input == output then src + n else 0);
    assert input[src..src + n] == x;
    CopyBackward(input, src, output, dst, n);
    StoredAdjacent(old(output[..]), dst, x, Zeros(m - n));
  }

  /** One frame of EXPAND_MONO_TO_MULTI, from its end. */
  method TwiceFrame(input: array<int>, src: nat, output: array<int>, dst: nat, m: nat)
    requires 2 <= m
    requires src + 1 <= input.Length && dst + m <= output.Length && (input == output ==> src <= dst)
    modifies output
    ensures output[..] == Stored(old(output[..]), dst, Changed(Twice(m), old(input[src..src + 1])))
  {
    hide Stored;
    ghost var x := input[src];
    FillBackward(output, dst + 2, m - 2, 0);
    assert seq(m - 2, i => 0) == Zeros(m - 2);
    StoredKeeps(old(output[..]), dst + 2, Zeros(m - 2), if input == output then src else 0, if input == output then src + 1 else 0);
    assert input == output ==> input[..][src..src + 1][0] == x;
    FillBackward(output, dst, 2, input[src]);
    assert seq(2, i => x) == [x, x];
    StoredAdjacent(old(output[..]), dst, [x, x], Zeros(m - 2));
  }

  // ---- whole buffers

  /** num_out_samples: the division is exact. */
  lemma OutSamples(f: nat, n: nat, m: nat)
    requires n > 0
    ensures f * n * m / n == f * m
  {
    assert f * n * m == f * m * n;
    RemainderIs(f * n * m, n, f * m, 0);
  }

  lemma ProductMonotone(f: nat, n: nat, m: nat)
    requires n <= m
    ensures f * n <= f * m
  {
    assert f * (m - n) >= 0;
    assert f * (m - n) == f * m - f * n;
  }

  /** The unread part at the front, and what the frames behind it were turned into. */
  ghost predicate Expanding(c: Change, n: nat, was: seq<int>, before: seq<int>, after: seq<int>, src: nat, dst: nat, numIn: nat, numOut: nat)
  {
    && n > 0 && Fits(c, n) && src <= numIn <= |was| && dst <= numOut <= |before| == |after|
    && after[..dst] == before[..dst] && after[numOut..] == before[numOut..]
    && after[dst..numOut] == EachFrame(c, n, was[src..numIn])
  }

  lemma ExpandingStep(c: Change, n: nat, m: nat, was: seq<int>, before: seq<int>, after: seq<int>, src: nat, dst: nat, numIn: nat, numOut: nat)
    requires Expanding(c, n, was, before, after, src + n, dst + m, numIn, numOut) && m == Width(c, n)
    ensures Expanding(c, n, was, before, Stored(after, dst, Changed(c, was[src..src + n])), src, dst, numIn, numOut)
  {
    hide Changed, Width, Fits, Stored;
    var next := Stored(after, dst, Changed(c, was[src..src + n]));
    assert was[src..numIn][..n] == was[src..src + n] && was[src..numIn][n..] == was[src + n..numIn];
    StoredParts(after, dst, Changed(c, was[src..src + n]), numOut);
    assert next[..dst] == after[..dst + m][..dst];
  }

  lemma ExpandingStart(c: Change, n: nat, was: seq<int>, before: seq<int>, numIn: nat, numOut: nat)
    requires n > 0 && Fits(c, n) && numIn <= |was| && numOut <= |before|
    ensures Expanding(c, n, was, before, before, numIn, numOut, numIn, numOut)
  {
  }

  lemma ExpandingDone(c: Change, n: nat, was: seq<int>, before: seq<int>, after: seq<int>, numIn: nat, numOut: nat)
    requires Expanding(c, n, was, before, after, 0, 0, numIn, numOut)
    ensures after == EachFrame(c, n, was[..numIn]) + before[numOut..]
  {
    hide EachFrame;
    assert was[0..numIn] == was[..numIn];
    assert after == after[0..numOut] + after[numOut..];
  }

  method ExpandOne(c: Change, input: array<int>, src: nat, n: nat, output: array<int>, dst: nat, m: nat)
    requires (c.Pad? || c.Twice?) && Fits(c, n) && n > 0 && m == c.m
    requires src + n <= input.Length && dst + m <= output.Length && (input == output ==> src <= dst)
    modifies output
    ensures output[..] == Stored(old(output[..]), dst, Changed(c, old(input[src..src + n])))
  {
    hide Stored, Changed;
    if c.Pad? {
      PadFrame(input, src, n, output, dst, m);
    } else {
      TwiceFrame(input, src, output, dst, m);
    }
  }

  /** Both pointers stand between the same two frames: r frames are before them. */
  ghost predicate Pointers(r: nat, n: nat, m: nat, src: nat, dst: nat) {
    src == r * n && dst == r * m
  }

  lemma PointersBack(r: nat, n: nat, m: nat, src: nat, dst: nat)
    requires Pointers(r, n, m, src, dst) && src > 0
    ensures r > 0 && src >= n && dst >= m && Pointers(r - 1, n, m, src - n, dst - m)
    ensures n <= m ==> src - n <= dst - m
    ensures m <= n ==> dst - m <= src - n
  {
    Product(r, n);
    Product(r, m);
    if n <= m {
      ProductMonotone(r - 1, n, m);
    } else {
      ProductMonotone(r - 1, m, n);
    }
  }

  lemma PointersAtStart(r: nat, n: nat, m: nat, dst: nat)
    requires Pointers(r, n, m, 0, dst) && n > 0
    ensures dst == 0
  {
    if r > 0 {
      Product(r, n);
    }
  }

  /** EXPAND_CHANNELS and EXPAND_MONO_TO_MULTI. */
  method ExpandBack(c: Change, input: array<int>, n: nat, output: array<int>, numIn: nat, numOut: nat, ghost f: nat)
    requires (c.Pad? || c.Twice?) && Fits(c, n) && n > 0 && Pointers(f, n, c.m, numIn, numOut)
    requires numIn <= input.Length && numOut <= output.Length
    modifies output
    ensures output[..] == EachFrame(c, n, old(input[..numIn])) + old(output[numOut..])
  {
    hide Expanding, EachFrame, Stored, Changed, Pointers;
    var m := c.m;
    ghost var was, before := input[..], output[..];
    var src: nat, dst: nat := numIn, numOut;
    ghost var r: nat := f;
    ExpandingStart(c, n, was, before, numIn, numOut);
    while src > 0
      invariant src <= numIn && dst <= numOut && Pointers(r, n, m, src, dst)
      invariant input[..src] == was[..src]
      invariant Expanding(c, n, was, before, output[..], src, dst, numIn, numOut)
    {
      PointersBack(r, n, m, src, dst);
      r, src, dst := r - 1, src - n, dst - m;
      assert input[src..src + n] == was[..src + n][src..];
      ExpandingStep(c, n, m, was, before, output[..], src, dst, numIn, numOut);
      StoredPrefix(output[..], dst, Changed(c, was[src..src + n]), if input == output then src else 0);
      ExpandOne(c, input, src, n, output, dst, m);
    }
    PointersAtStart(r, n, m, dst);
    ExpandingDone(c, n, was, before, output[..], numIn, numOut);
  }

  lemma Behind(k: nat, f: nat, n: nat)
    requires k * n < f * n
    ensures k < f
  {
    if k >= f {
      FactorMonotone(f, k, n);
    }
  }

  lemma FactorMonotone(f: nat, k: nat, n: nat)
    requires f <= k
    ensures f * n <= k * n
  {
    assert (k - f) * n >= 0;
    assert (k - f) * n == k * n - f * n;
  }

  lemma PointersForward(k: nat, f: nat, n: nat, m: nat, src: nat, dst: nat, numIn: nat, numOut: nat)
    requires Pointers(k, n, m, src, dst) && Pointers(f, n, m, numIn, numOut) && src < numIn && n > 0
    ensures src + n <= numIn && dst + m <= numOut && Pointers(k + 1, n, m, src + n, dst + m)
  {
    Behind(k, f, n);
    OneAhead(k, f, n);
    OneAhead(k, f, m);
  }

  lemma PointersAtEnd(k: nat, f: nat, n: nat, m: nat, src: nat, dst: nat, numIn: nat, numOut: nat)
    requires Pointers(k, n, m, src, dst) && Pointers(f, n, m, numIn, numOut) && src == numIn && n > 0
    ensures dst == numOut
  {
    var e := k - f;
    assert e * n == k * n - f * n == 0;
    if e != 0 {
      MulLarge(e, n);
      assert false;
    }
  }

  lemma PointersOrder(k: nat, n: nat, m: nat, src: nat, dst: nat)
    requires Pointers(k, n, m, src, dst)
    ensures m <= n ==> dst <= src
    ensures n <= m ==> src <= dst
  {
    if m <= n {
      ProductMonotone(k, m, n);
    } else {
      ProductMonotone(k, n, m);
    }
  }

  /** The frames done at the front of the output, and the rest of it as it was. */
  ghost predicate Contracting(c: Change, n: nat, was: seq<int>, before: seq<int>, after: seq<int>, src: nat, dst: nat, numIn: nat)
  {
    && n > 0 && Fits(c, n) && src <= numIn <= |was| && dst <= |before| == |after|
    && after[dst..] == before[dst..]
    && after[..dst] + EachFrame(c, n, was[src..numIn]) == EachFrame(c, n, was[..numIn])
  }

  lemma ContractingStart(c: Change, n: nat, was: seq<int>, before: seq<int>, numIn: nat)
    requires n > 0 && Fits(c, n) && numIn <= |was|
    ensures Contracting(c, n, was, before, before, 0, 0, numIn)
  {
    hide EachFrame;
    assert was[0..numIn] == was[..numIn];
    assert [] + EachFrame(c, n, was[..numIn]) == EachFrame(c, n, was[..numIn]);
  }

  lemma ContractingStep(c: Change, n: nat, was: seq<int>, before: seq<int>, after: seq<int>, src: nat, dst: nat, numIn: nat)
    requires Contracting(c, n, was, before, after, src, dst, numIn) && src + n <= numIn && dst + Width(c, n) <= |before|
    ensures Contracting(c, n, was, before, Stored(after, dst, Changed(c, was[src..src + n])), src + n, dst + Width(c, n), numIn)
  {
    hide Changed, Width, Fits, Stored;
    var x := Changed(c, was[src..src + n]);
    assert was[src..numIn][..n] == was[src..src + n] && was[src..numIn][n..] == was[src + n..numIn];
    StoredFront(after, dst, x);
    assert before[dst..][|x|..] == before[dst + |x|..];
    assert (after[..dst] + x) + EachFrame(c, n, was[src + n..numIn]) == after[..dst] + (x + EachFrame(c, n, was[src + n..numIn]));
  }

  lemma ContractingDone(c: Change, n: nat, was: seq<int>, before: seq<int>, after: seq<int>, dst: nat, numIn: nat)
    requires Contracting(c, n, was, before, after, numIn, dst, numIn)
    ensures after == EachFrame(c, n, was[..numIn]) + before[dst..]
  {
    assert was[numIn..numIn] == [];
    assert after == after[..dst] + after[dst..];
  }

  /** One frame of CONTRACT_TO_MONO. */
  method MixOne(input: array<int>, src: nat, n: nat, output: array<int>, dst: nat)
    requires 2 <= n && src + n <= input.Length && dst < output.Length
    modifies output
    ensures output[..] == Stored(old(output[..]), dst, Changed(Mix, old(input[src..src + n])))
  {
    hide HalfAdder;
    HalfAdderIsAverage(input[src], input[src + 1]);
    ghost var x := input[src..src + n];
    assert x[0] == input[src] && x[1] == input[src + 1];
    output[dst] := HalfAdder(input[src], input[src + 1]);
  }

  /** One frame of CONTRACT_CHANNELS or CONTRACT_TO_MONO. */
  method ContractOne(c: Change, input: array<int>, src: nat, n: nat, output: array<int>, dst: nat)
    requires (c.Keep? || c.Mix?) && Fits(c, n)
    requires src + n <= input.Length && dst + Width(c, n) <= output.Length && (input == output ==> dst <= src)
    modifies output
    ensures output[..] == Stored(old(output[..]), dst, Changed(c, old(input[src..src + n])))
  {
    hide Stored;
    if c.Keep? {
      assert input[src..src + n][..c.m] == input[src..src + c.m];
      CopyForward(input, src, output, dst, c.m);
    } else {
      MixOne(input, src, n, output, dst);
    }
  }

  /** CONTRACT_CHANNELS and CONTRACT_TO_MONO. */
  method ContractForward(c: Change, input: array<int>, n: nat, output: array<int>, numIn: nat, ghost numOut: nat, ghost f: nat)
    requires (c.Keep? || c.Mix?) && Fits(c, n) && n > 0 && Pointers(f, n, Width(c, n), numIn, numOut)
    requires numIn <= input.Length && numOut <= output.Length
    modifies output
    ensures output[..] == EachFrame(c, n, old(input[..numIn])) + old(output[numOut..])
  {
    hide Contracting, EachFrame, Stored, Changed, Pointers;
    var m := Width(c, n);
    ghost var was, before := input[..], output[..];
    var src: nat, dst: nat := 0, 0;
    ghost var k: nat := 0;
    ContractingStart(c, n, was, before, numIn);
    PointersZero(n, m);
    while src < numIn
      invariant src <= numIn && dst <= numOut && Pointers(k, n, m, src, dst)
      invariant input[..][src..] == was[src..]
      invariant Contracting(c, n, was, before, output[..], src, dst, numIn)
    {
      PointersForward(k, f, n, m, src, dst, numIn, numOut);
      PointersOrder(k, n, m, src, dst);
      PointersOrder(k + 1, n, m, src + n, dst + m);
      SameRest(input[..], was, src, n);
      ContractingStep(c, n, was, before, output[..], src, dst, numIn);
      StoredSuffix(output[..], dst, Changed(c, was[src..src + n]), if input == output then src + n else output.Length);
      assert input[..][src..src + n] == input[src..src + n];
      ContractOne(c, input, src, n, output, dst);
      k, src, dst := k + 1, src + n, dst + m;
    }
    PointersAtEnd(k, f, n, m, src, dst, numIn, numOut);
    ContractingDone(c, n, was, before, output[..], dst, numIn);
  }

  lemma PointersZero(n: nat, m: nat)
    ensures Pointers(0, n, m, 0, 0)
  {
  }

  lemma SameRest(a: seq<int>, was: seq<int>, src: nat, n: nat)
    requires |a| == |was| && src + n <= |a| && a[src..] == was[src..]
    ensures a[src..src + n] == was[src..src + n] && a[src + n..] == was[src + n..]
  {
    assert a[src..][..n] == was[src..][..n] && a[src..][n..] == was[src..][n..];
  }

  // ---- the non-destructive pair

  /** done is what the frames before src became. */
  ghost predicate SoFar(c: Change, n: nat, was: seq<int>, numIn: nat, src: nat, done: seq<int>) {
    && n > 0 && Fits(c, n) && src <= numIn <= |was|
    && done + EachFrame(c, n, was[src..numIn]) == EachFrame(c, n, was[..numIn])
  }

  lemma SoFarStart(c: Change, n: nat, was: seq<int>, numIn: nat)
    requires n > 0 && Fits(c, n) && numIn <= |was|
    ensures SoFar(c, n, was, numIn, 0, [])
  {
    hide EachFrame;
    assert was[0..numIn] == was[..numIn];
    assert [] + EachFrame(c, n, was[..numIn]) == EachFrame(c, n, was[..numIn]);
  }

  lemma SoFarStep(c: Change, n: nat, was: seq<int>, numIn: nat, src: nat, done: seq<int>)
    requires SoFar(c, n, was, numIn, src, done) && src + n <= numIn
    ensures SoFar(c, n, was, numIn, src + n, done + Changed(c, was[src..src + n]))
  {
    hide Changed, Width, Fits;
    var x := Changed(c, was[src..src + n]);
    assert was[src..numIn][..n] == was[src..src + n] && was[src..numIn][n..] == was[src + n..numIn];
    assert (done + x) + EachFrame(c, n, was[src + n..numIn]) == done + (x + EachFrame(c, n, was[src + n..numIn]));
  }

  lemma SoFarEnd(c: Change, n: nat, was: seq<int>, numIn: nat, done: seq<int>)
    requires SoFar(c, n, was, numIn, numIn, done)
    ensures done == EachFrame(c, n, was[..numIn])
  {
    assert was[numIn..numIn] == [];
  }

  /** b holds x from position at on. */
  predicate HoldsAt(b: seq<int>, at: nat, x: seq<int>) {
    at + |x| <= |b| && b[at..at + |x|] == x
  }

  lemma StoredAppends(b: seq<int>, at: nat, x: seq<int>, y: seq<int>)
    requires HoldsAt(b, at, x) && at + |x| + |y| <= |b|
    ensures HoldsAt(Stored(b, at + |x|, y), at, x + y)
  {
  }

  lemma StoredElsewhere(b: seq<int>, to: nat, y: seq<int>, at: nat, x: seq<int>)
    requires HoldsAt(b, at, x) && to + |y| <= |b| && (to + |y| <= at || at + |x| <= to)
    ensures HoldsAt(Stored(b, to, y), at, x)
  {
  }

  /** One frame split: its first m samples to output, the others to temp. */
  method SplitOne(input: array<int>, src: nat, n: nat, output: array<int>, dst: nat, m: nat, temp: array<int>, to: nat,
                  ghost base: nat, ghost kept: seq<int>, ghost dropped: seq<int>, ghost numIn: nat)
    requires dst == |kept| && to == base + |dropped|
    requires m <= n && src + n <= input.Length && temp != input && |kept| + m <= output.Length
    requires input == output ==> |kept| <= src && |kept| + m <= src + n
    requires base + |dropped| + n - m <= temp.Length && (temp == output ==> |kept| + m <= base && base + |dropped| + n - m <= numIn)
    requires HoldsAt(output[..], 0, kept) && HoldsAt(temp[..], base, dropped) && |kept| + m <= numIn <= output.Length
    modifies output, temp
    ensures HoldsAt(output[..], 0, kept + Changed(Keep(m), old(input[src..src + n])))
    ensures HoldsAt(temp[..], base, dropped + Changed(Drop(m), old(input[src..src + n])))
    ensures input[..][src + n..] == old(input[..][src + n..])
    ensures output[..][numIn..] == old(output[..][numIn..])
  {
    hide Stored, HoldsAt;
    ghost var before, x := output[..], input[..][src..src + n];
    SliceParts(input[..], src, n, m);
    StoredAppends(output[..], 0, kept, x[..m]);
    StoredSuffix(output[..], |kept|, x[..m], numIn);
    if input == output {
      StoredKeepsRest(input[..], |kept|, x[..m], src, n, m);
    }
    if temp == output {
      StoredElsewhere(temp[..], |kept|, x[..m], base, dropped);
    }
    CopyForward(input, src, output, dst, m);
    assert input[src + m..src + n] == input[..][src + m..src + n];
    ghost var after := output[..];
    StoredAppends(temp[..], base, dropped, x[m..]);
    if temp == output {
      StoredElsewhere(after, base + |dropped|, x[m..], 0, kept + x[..m]);
      StoredSuffix(after, base + |dropped|, x[m..], numIn);
    }
    CopyForward(input, src + m, temp, to, n - m);
  }

  lemma SliceParts(a: seq<int>, src: nat, n: nat, m: nat)
    requires m <= n && src + n <= |a|
    ensures a[src..src + n][..m] == a[src..src + m] && a[src..src + n][m..] == a[src + m..src + n]
  {
  }

  lemma StoredKeepsRest(a: seq<int>, to: nat, x: seq<int>, src: nat, n: nat, m: nat)
    requires |x| == m <= n && to <= src && to + m <= src + n <= |a|
    ensures Stored(a, to, x)[src + m..src + n] == a[src + m..src + n]
    ensures Stored(a, to, x)[src + n..] == a[src + n..]
  {
  }

  method SplitFrames(input: array<int>, n: nat, output: array<int>, m: nat, temp: array<int>, base: nat, numIn: nat,
                     ghost numOut: nat, ghost f: nat)
    requires 0 < m <= n && Pointers(f, n, m, numIn, numOut) && numIn <= input.Length && numIn <= output.Length
    requires temp != input && base + numIn - numOut <= temp.Length && (temp == output ==> base == numOut)
    requires numOut <= numIn
    modifies output, temp
    ensures HoldsAt(output[..], 0, EachFrame(Keep(m), n, old(input[..numIn])))
    ensures HoldsAt(temp[..], base, EachFrame(Drop(m), n, old(input[..numIn])))
    ensures output[..][numIn..] == old(output[..][numIn..])
  {
    hide SoFar, HoldsAt, EachFrame, Changed, Pointers;
    ghost var was, kept, dropped := input[..], [], [];
    var src: nat, dst: nat := 0, 0;
    ghost var k: nat := 0;
    SoFarStart(Keep(m), n, was, numIn);
    SoFarStart(Drop(m), n, was, numIn);
    PointersZero(n, m);
    HoldsNothing(output[..], 0);
    HoldsNothing(temp[..], base);
    while src < numIn
      invariant src <= numIn && dst <= numOut && dst <= src && Pointers(k, n, m, src, dst)
      invariant |kept| == dst && |dropped| == src - dst
      invariant input[..][src..] == was[src..] && output[..][numIn..] == old(output[..][numIn..])
      invariant SoFar(Keep(m), n, was, numIn, src, kept) && SoFar(Drop(m), n, was, numIn, src, dropped)
      invariant HoldsAt(output[..], 0, kept) && HoldsAt(temp[..], base, dropped)
    {
      SplitBounds(k, f, n, m, src, dst, numIn, numOut);
      SameRest(input[..], was, src, n);
      assert input[src..src + n] == input[..][src..src + n];
      SplitOne(input, src, n, output, dst, m, temp, base + src - dst, base, kept, dropped, numIn);
      SoFarStep(Keep(m), n, was, numIn, src, kept);
      SoFarStep(Drop(m), n, was, numIn, src, dropped);
      kept, dropped := kept + Changed(Keep(m), was[src..src + n]), dropped + Changed(Drop(m), was[src..src + n]);
      k, src, dst := k + 1, src + n, dst + m;
    }
    SoFarEnd(Keep(m), n, was, numIn, kept);
    SoFarEnd(Drop(m), n, was, numIn, dropped);
    assert was[..numIn] == old(input[..numIn]);
  }

  lemma HoldsNothing(b: seq<int>, at: nat)
    requires at <= |b|
    ensures HoldsAt(b, at, [])
  {
  }

  /** Where one frame is read and written: within the buffers, and never onto unread samples. */
  lemma SplitBounds(k: nat, f: nat, n: nat, m: nat, src: nat, dst: nat, numIn: nat, numOut: nat)
    requires Pointers(k, n, m, src, dst) && Pointers(f, n, m, numIn, numOut) && src < numIn && 0 < m <= n
    ensures src + n <= numIn && dst + m <= numOut && dst + m <= src + n && dst <= src
    ensures (src - dst) + (n - m) <= numIn - numOut && numOut <= numIn
    ensures Pointers(k + 1, n, m, src + n, dst + m)
  {
    PointersForward(k, f, n, m, src, dst, numIn, numOut);
    PointersOrder(k, n, m, src, dst);
    PointersOrder(f, n, m, numIn, numOut);
    PointersForward(k, f, n, n - m, src, src - dst, numIn, numIn - numOut) by {
      Differences(k, n, m);
      Differences(f, n, m);
    }
  }

  lemma Differences(k: nat, n: nat, m: nat)
    requires m <= n
    ensures k * (n - m) == k * n - k * m
  {
  }

  /** A whole buffer contracted: the kept channels, then the removed ones, then what was behind the data. */
  function Contracted(buffer: seq<int>, n: nat, m: nat, numIn: nat): seq<int>
    requires 0 < m <= n && numIn <= |buffer|
  {
    EachFrame(Keep(m), n, buffer[..numIn]) + EachFrame(Drop(m), n, buffer[..numIn]) + buffer[numIn..]
  }

  /** A whole buffer expanded: what was behind the data interleaved with it. */
  function Expanded(buffer: seq<int>, n: nat, m: nat, numIn: nat, numOut: nat): seq<int>
    requires 0 < n <= m && numIn <= numOut <= |buffer|
  {
    Interleaved(buffer[..numIn], n, buffer[numIn..numOut], m - n) + buffer[numOut..]
  }

  /** Contracted and expanded again, in place or not, a buffer is what it was. */
  lemma ContractedThenExpanded(buffer: seq<int>, n: nat, m: nat, f: nat)
    requires 0 < m <= n && f * n <= |buffer|
    ensures |Contracted(buffer, n, m, f * n)| == |buffer| && f * m <= f * n
    ensures Expanded(Contracted(buffer, n, m, f * n), m, n, f * m, f * n) == buffer
  {
    hide EachFrame, Interleaved;
    var s := buffer[..f * n];
    PartLengths(n, m, s, f);
    ProductMonotone(f, m, n);
    PartsInterleave(n, m, s, f);
    PartsOfBuffer(EachFrame(Keep(m), n, s), EachFrame(Drop(m), n, s), buffer[f * n..]);
  }

  /** And expanded and contracted again. */
  lemma ExpandedThenContracted(buffer: seq<int>, n: nat, m: nat, f: nat)
    requires 0 < n <= m && f * m <= |buffer|
    ensures f * n <= f * m && |Expanded(buffer, n, m, f * n, f * m)| == |buffer|
    ensures Contracted(Expanded(buffer, n, m, f * n, f * m), m, n, f * m) == buffer
  {
    hide EachFrame, Interleaved;
    ProductMonotone(f, n, m);
    Differences(f, m, n);
    var a, b := buffer[..f * n], buffer[f * n..f * m];
    InterleavedLength(a, n, b, m - n, f);
    InterleavedParts(a, n, b, m - n, f);
    assert Expanded(buffer, n, m, f * n, f * m)[..f * m] == Interleaved(a, n, b, m - n);
    assert buffer == a + b + buffer[f * m..];
  }

  lemma PartsOfBuffer(a: seq<int>, b: seq<int>, c: seq<int>)
    ensures (a + b + c)[..|a|] == a && (a + b + c)[|a|..|a| + |b|] == b && (a + b + c)[|a| + |b|..] == c
  {
  }

  /** CONTRACT_CHANNELS_NON_DESTRUCTIVE: the removed channels go to the end of the data. */
  method ContractNonDestructive(input: array<int>, n: nat, output: array<int>, m: nat, numIn: nat, ghost f: nat) returns (numOut: nat)
    requires 0 < m <= n && numIn == f * n <= input.Length == output.Length
    modifies output
    ensures numOut == f * m <= numIn
    ensures output[..] == EachFrame(Keep(m), n, old(input[..numIn])) + EachFrame(Drop(m), n, old(input[..numIn])) + old(output[numIn..])
  {
    hide HoldsAt, EachFrame, Stored;
    OutSamples(f, n, m);
    numOut := numIn * m / n;
    ProductMonotone(f, m, n);
    PartLengths(n, m, input[..numIn], f);
    ghost var before, tail := output[..], output[numIn..];
    assert before[numIn..] == tail;
    ghost var kept, dropped := EachFrame(Keep(m), n, input[..numIn]), EachFrame(Drop(m), n, input[..numIn]);
    assert Pointers(f, n, m, numIn, numOut);
    if input == output {
      var temp := new int[numIn - numOut];
      SplitFrames(input, n, output, m, temp, 0, numIn, numOut, f);
      HoldsAll(temp[..], dropped);
      StoredAppends(output[..], 0, kept, dropped);
      StoredSuffix(output[..], numOut, dropped, numIn);
      assert temp[0..numIn - numOut] == temp[..];
      CopyForward(temp, 0, output, numOut, numIn - numOut);
    } else {
      SplitFrames(input, n, output, m, output, numOut, numIn, numOut, f);
      HoldsBoth(output[..], kept, dropped);
    }
    HoldsThenRest(output[..], kept + dropped, tail);
  }

  lemma PartLengths(n: nat, m: nat, s: seq<int>, f: nat)
    requires 0 < m <= n && |s| == f * n
    ensures |EachFrame(Keep(m), n, s)| == f * m && |EachFrame(Drop(m), n, s)| == f * n - f * m
  {
    hide EachFrame;
    EachFrameLength(Keep(m), n, s, f);
    EachFrameLength(Drop(m), n, s, f);
    Differences(f, n, m);
  }

  lemma HoldsAll(b: seq<int>, x: seq<int>)
    requires HoldsAt(b, 0, x) && |b| == |x|
    ensures b == x
  {
  }

  lemma HoldsBoth(b: seq<int>, x: seq<int>, y: seq<int>)
    requires HoldsAt(b, 0, x) && HoldsAt(b, |x|, y)
    ensures HoldsAt(b, 0, x + y)
  {
    assert b[0..|x| + |y|] == b[0..|x|] + b[|x|..|x| + |y|];
  }

  lemma HoldsThenRest(b: seq<int>, x: seq<int>, rest: seq<int>)
    requires HoldsAt(b, 0, x) && b[|x|..] == rest
    ensures b == x + rest
  {
  }

  /** done is what the frames of a before i, and the samples of b before j, became. */
  ghost predicate Joined(a: seq<int>, n: nat, b: seq<int>, k: nat, i: nat, j: nat, done: seq<int>) {
    && n > 0 && i <= |a| && j <= |b|
    && done + Interleaved(a[i..], n, b[j..], k) == Interleaved(a, n, b, k)
  }

  lemma JoinedStart(a: seq<int>, n: nat, b: seq<int>, k: nat)
    requires n > 0
    ensures Joined(a, n, b, k, 0, 0, [])
  {
    hide Interleaved;
    assert a[0..] == a && b[0..] == b;
    assert [] + Interleaved(a, n, b, k) == Interleaved(a, n, b, k);
  }

  lemma JoinedStep(a: seq<int>, n: nat, b: seq<int>, k: nat, i: nat, j: nat, done: seq<int>)
    requires Joined(a, n, b, k, i, j, done) && i + n <= |a| && j + k <= |b|
    ensures Joined(a, n, b, k, i + n, j + k, done + a[i..i + n] + b[j..j + k])
  {
    var rest := Interleaved(a[i + n..], n, b[j + k..], k);
    assert a[i..][..n] == a[i..i + n] && a[i..][n..] == a[i + n..];
    assert b[j..][..k] == b[j..j + k] && b[j..][k..] == b[j + k..];
    assert (done + a[i..i + n] + b[j..j + k]) + rest == done + (a[i..i + n] + b[j..j + k] + rest);
  }

  lemma JoinedEnd(a: seq<int>, n: nat, b: seq<int>, k: nat, j: nat, done: seq<int>)
    requires Joined(a, n, b, k, |a|, j, done)
    ensures done == Interleaved(a, n, b, k)
  {
  }

  /** One frame joined: n samples from temp and m - n from further back in the input. */
  method JoinOne(temp: array<int>, t: nat, n: nat, input: array<int>, src: nat, output: array<int>, dst: nat, m: nat,
                 ghost done: seq<int>, ghost numOut: nat)
    requires dst == |done| && n <= m && t + n <= temp.Length && src + m - n <= input.Length && dst + m <= numOut <= output.Length
    requires temp != output && (input == output ==> dst + n <= src)
    requires HoldsAt(output[..], 0, done)
    modifies output
    ensures HoldsAt(output[..], 0, done + old(temp[..])[t..t + n] + old(input[..])[src..src + (m - n)])
    ensures input[..][src + m - n..] == old(input[..][src + m - n..]) && output[..][numOut..] == old(output[..][numOut..])
  {
    hide Stored, HoldsAt;
    ghost var x, y := temp[t..t + n], input[..][src..src + m - n];
    assert input[src..src + m - n] == y && temp[..][t..t + n] == x && input[..][src..src + (m - n)] == y;
    StoredAppends(output[..], 0, done, x);
    StoredSuffix(output[..], dst, x, numOut);
    if input == output {
      StoredKeeps(output[..], dst, x, src, src + m - n);
      StoredSuffix(output[..], dst, x, src + m - n);
    }
    CopyForward(temp, t, output, dst, n);
    assert input[src..src + m - n] == input[..][src..src + m - n];
    StoredAppends(output[..], 0, done + x, y);
    StoredSuffix(output[..], dst + n, y, numOut);
    if input == output {
      StoredSuffix(output[..], dst + n, y, src + m - n);
    }
    CopyForward(input, src, output, dst + n, m - n);
  }

  method JoinFrames(temp: array<int>, n: nat, input: array<int>, output: array<int>, m: nat, numIn: nat, numOut: nat, ghost f: nat)
    requires 0 < n <= m && Pointers(f, n, m, numIn, numOut) && numIn <= temp.Length && numIn <= numOut <= input.Length
    requires numOut <= output.Length && temp != output
    modifies output
    ensures HoldsAt(output[..], 0, Interleaved(old(temp[..numIn]), n, old(input[numIn..numOut]), m - n))
    ensures output[..][numOut..] == old(output[..][numOut..])
  {
    hide Joined, HoldsAt, Interleaved, Pointers;
    ghost var a, was, b, done := temp[..numIn], input[..], input[numIn..numOut], [];
    var t: nat, src: nat, dst: nat := 0, numIn, 0;
    ghost var k: nat := 0;
    JoinedStart(a, n, b, m - n);
    PointersZero(n, m);
    HoldsNothing(output[..], 0);
    while t < numIn
      invariant t <= numIn && t <= dst <= numOut && src == numIn + dst - t <= numOut && Pointers(k, n, m, t, dst) && |done| == dst
      invariant input[..][src..] == was[src..] && output[..][numOut..] == old(output[..][numOut..])
      invariant Joined(a, n, b, m - n, t, src - numIn, done) && HoldsAt(output[..], 0, done)
    {
      JoinBounds(k, f, n, m, t, dst, numIn, numOut);
      SameRest(input[..], was, src, m - n);
      JoinSlices(temp[..], a, t, n, was, b, numIn, src, m - n, numOut);
      JoinOne(temp, t, n, input, src, output, dst, m, done, numOut);
      JoinedStep(a, n, b, m - n, t, src - numIn, done);
      done := done + a[t..t + n] + b[src - numIn..src - numIn + (m - n)];
      k, t, src, dst := k + 1, t + n, src + m - n, dst + m;
    }
    JoinedEnd(a, n, b, m - n, src - numIn, done);
  }

  lemma JoinSlices(temp: seq<int>, a: seq<int>, t: nat, n: nat, was: seq<int>, b: seq<int>, numIn: nat, src: nat, k: nat, numOut: nat)
    requires t + n <= numIn <= |temp| && a == temp[..numIn]
    requires numIn <= src && src + k <= numOut <= |was| && b == was[numIn..numOut]
    ensures a[t..t + n] == temp[t..t + n] && b[src - numIn..src - numIn + k] == was[src..src + k]
  {
    SliceOfSlice(was, numIn, numOut, src - numIn, k);
    SliceOfSlice(temp, 0, numIn, t, n);
    assert temp[0..numIn] == temp[..numIn];
  }

  lemma JoinBounds(k: nat, f: nat, n: nat, m: nat, t: nat, dst: nat, numIn: nat, numOut: nat)
    requires Pointers(k, n, m, t, dst) && Pointers(f, n, m, numIn, numOut) && t < numIn && 0 < n <= m
    ensures t + n <= numIn && dst + m <= numOut && t + n <= dst + m && t <= dst
    ensures (dst - t) + (m - n) <= numOut - numIn
    ensures Pointers(k + 1, n, m, t + n, dst + m)
  {
    PointersForward(k, f, n, m, t, dst, numIn, numOut);
    PointersOrder(k, n, m, t, dst);
    PointersOrder(f, n, m, numIn, numOut);
    PointersForward(k, f, n, m - n, t, dst - t, numIn, numOut - numIn) by {
      Differences(k, m, n);
      Differences(f, m, n);
    }
  }

  /** EXPAND_CHANNELS_NON_DESTRUCTIVE: the added channels come from behind the data. */
  method ExpandNonDestructive(input: array<int>, n: nat, output: array<int>, m: nat, numIn: nat, ghost f: nat) returns (numOut: nat)
    requires 0 < n <= m && numIn == f * n && f * m <= input.Length == output.Length
    modifies output
    ensures numOut == f * m && numIn <= numOut
    ensures output[..] == Interleaved(old(input[..numIn]), n, old(input[numIn..numOut]), m - n) + old(output[numOut..])
  {
    OutSamples(f, n, m);
    numOut := numIn * m / n;
    ProductMonotone(f, n, m);
    ExpandJoin(input, n, output, m, numIn, numOut, f);
  }

  method ExpandJoin(input: array<int>, n: nat, output: array<int>, m: nat, numIn: nat, numOut: nat, ghost f: nat)
    requires 0 < n <= m && Pointers(f, n, m, numIn, numOut) && numIn <= numOut <= input.Length == output.Length
    modifies output
    ensures output[..] == Interleaved(old(input[..numIn]), n, old(input[numIn..numOut]), m - n) + old(output[numOut..])
  {
    hide HoldsAt, Interleaved, Pointers;
    ghost var a, b, tail := input[..numIn], input[numIn..numOut], output[numOut..];
    assert output[..][numOut..] == tail;
    JoinedLength(a, n, b, m, f);
    if input == output {
      var temp := new int[numIn];
      assert input[0..numIn] == a;
      StoredWhole(temp[..], a);
      CopyForward(input, 0, temp, 0, numIn);
      assert temp[..numIn] == a;
      JoinFrames(temp, n, input, output, m, numIn, numOut, f);
    } else {
      JoinFrames(input, n, input, output, m, numIn, numOut, f);
    }
    HoldsThenRest(output[..], Interleaved(a, n, b, m - n), tail);
  }

  lemma JoinedLength(a: seq<int>, n: nat, b: seq<int>, m: nat, f: nat)
    requires 0 < n <= m && Pointers(f, n, m, |a|, |a| + |b|)
    ensures |Interleaved(a, n, b, m - n)| == |a| + |b|
  {
    Differences(f, m, n);
    InterleavedLength(a, n, b, m - n, f);
  }

  lemma {:induction false} InterleavedLength(a: seq<int>, n: nat, b: seq<int>, k: nat, f: nat)
    requires n > 0 && |a| == f * n && |b| == f * k
    ensures |Interleaved(a, n, b, k)| == f * n + f * k
    decreases f
  {
    if f > 0 {
      Product(f, n);
      Product(f, k);
      InterleavedLength(a[n..], n, b[k..], k, f - 1);
    }
  }

  // ---- 24-bit mono

  /** Average of the first two samples of the last frame, or what was there if there is no frame. */
  function LastMix(s: seq<int>, n: nat, none: int): int
    requires 2 <= n
  {
    if |s| < n then none else LastMix(s[n..], n, Changed(Mix, s[..n])[0])
  }

  /** CONTRACT_TO_MONO_24: the output pointer is never advanced. */
  method ContractToMono24(input: array<int>, n: nat, output: array<int>, numIn: nat, ghost f: nat)
    requires 2 <= n && numIn == f * n <= input.Length && f <= output.Length
    modifies output
    ensures f == 0 ==> output[..] == old(output[..])
    ensures f > 0 ==> output[..] == old(output[..])[0 := LastMix(old(input[..numIn]), n, old(output[0]))]
  {
    hide LastMix;
    if numIn == 0 {
      NoFrames(f, n);
      return;
    }
    assert f > 0;
    ghost var was := input[..];
    var src: nat := 0;
    ghost var k: nat := 0;
    assert was[0..numIn] == was[..numIn] == input[..numIn];
    while src < numIn
      invariant src <= numIn && src == k * n && k <= f
      invariant input[..][src..] == was[src..] || (src == 0 && input[..] == was)
      invariant src == 0 ==> input[..] == was && output[..] == old(output[..])
      invariant output[..][1..] == old(output[..])[1..]
      invariant LastMix(was[src..numIn], n, output[0]) == LastMix(was[..numIn], n, old(output[0]))
    {
      Behind(k, f, n);
      OneAhead(k, f, n);
      ghost var before := input[..];
      LastMixStep(was, src, n, numIn, output[0]);
      assert input[..][src..] == was[src..];
      assert input[src] == was[src..][0] && input[src + 1] == was[src..][1];
      output[0] := (input[src] + input[src + 1]) / 2;
      assert input[..][src + n..] == before[src..][n..];
      k, src := k + 1, src + n;
    }
    LastMixEnd(was[src..numIn], n, output[0]);
  }

  lemma NoFrames(f: nat, n: nat)
    requires f * n == 0 && n > 0
    ensures f == 0
  {
    if f > 0 {
      Product(f, n);
    }
  }

  lemma LastMixStep(was: seq<int>, src: nat, n: nat, numIn: nat, v: int)
    requires 2 <= n && src + n <= numIn <= |was|
    ensures LastMix(was[src..numIn], n, v) == LastMix(was[src + n..numIn], n, (was[src] + was[src + 1]) / 2)
  {
    assert was[src..numIn][n..] == was[src + n..numIn];
  }

  lemma LastMixEnd(s: seq<int>, n: nat, v: int)
    requires s == [] && 2 <= n
    ensures LastMix(s, n, v) == v
  {
  }

  lemma {:induction false} LastMixIsLast(s: seq<int>, n: nat, f: nat, none: int)
    requires 2 <= n && |s| == f * n && f > 0
    ensures |EachFrame(Mix, n, s)| == f
    ensures LastMix(s, n, none) == EachFrame(Mix, n, s)[f - 1]
    decreases f
  {
    hide Changed;
    Product(f, n);
    EachFrameLength(Mix, n, s, f);
    if f > 1 {
      LastMixIsLast(s[n..], n, f - 1, Changed(Mix, s[..n])[0]);
    } else {
      assert s[n..] == [];
    }
  }

  /** The result of 24-bit mono is the mono signal just if there is nothing beyond one frame to get wrong. */
  lemma Mono24RightIff(s: seq<int>, n: nat, f: nat, output: seq<int>)
    requires 2 <= n && |s| == f * n && 0 < f <= |output|
    ensures |EachFrame(Mix, n, s)| == f
    ensures output[0 := LastMix(s, n, output[0])][..f] == EachFrame(Mix, n, s) <==>
            EachFrame(Mix, n, s)[0] == EachFrame(Mix, n, s)[f - 1] && output[1..f] == EachFrame(Mix, n, s)[1..]
    ensures f == 1 ==> output[0 := LastMix(s, n, output[0])][..f] == EachFrame(Mix, n, s)
  {
    hide EachFrame, LastMix, Changed;
    LastMixIsLast(s, n, f, output[0]);
    var e, r := EachFrame(Mix, n, s), output[0 := LastMix(s, n, output[0])][..f];
    assert r == [r[0]] + r[1..] && e == [e[0]] + e[1..];
    assert r[1..] == output[1..f];
  }

  // ---- the entry points

  /** The change of every frame that adjust_channels makes. */
  function Adjustment(n: nat, m: nat): (c: Change)
    requires 0 < n && 0 < m
    ensures Fits(c, n) && Width(c, n) == m
  {
    if m > n then
      if n == 1 then Twice(m) else Pad(m)
    else if m < n && m == 1 then Mix
    else Keep(m)
  }

  /** Frame i of the result is what becomes of frame i. */
  lemma {:induction false} FrameChanged(c: Change, n: nat, s: seq<int>, f: nat, i: nat)
    requires n > 0 && Fits(c, n) && |s| == f * n && i < f
    ensures i * n + n <= |s| && i * Width(c, n) + Width(c, n) <= |EachFrame(c, n, s)|
    ensures EachFrame(c, n, s)[i * Width(c, n)..i * Width(c, n) + Width(c, n)] == Changed(c, s[i * n..i * n + n])
    decreases i
  {
    hide Changed, Width;
    var w := Width(c, n);
    OneAhead(i, f, n);
    OneAhead(i, f, w);
    EachFrameLength(c, n, s, f);
    Product(f, n);
    if i > 0 {
      Product(i, n);
      Product(i, w);
      FrameChanged(c, n, s[n..], f - 1, i - 1);
      var rest := EachFrame(c, n, s[n..]);
      assert EachFrame(c, n, s) == Changed(c, s[..n]) + rest;
      assert s[n..][(i - 1) * n..(i - 1) * n + n] == s[i * n..i * n + n];
    }
  }

  /** Sample k of frame i: that of the same channel, the average of two for mono, mono twice, and zeros in channels that are added. */
  lemma AdjustedSample(n: nat, m: nat, s: seq<int>, f: nat, i: nat, k: nat)
    requires 0 < n && 0 < m && |s| == f * n && i < f && k < m
    ensures i * n + n <= |s| && i * m + m <= |EachFrame(Adjustment(n, m), n, s)|
    ensures EachFrame(Adjustment(n, m), n, s)[i * m + k] ==
      if m == 1 && n > 1 then (s[i * n] + s[i * n + 1]) / 2
      else if k < n then s[i * n + k]
      else if n == 1 && k == 1 then s[i * n]
      else 0
  {
    hide EachFrame;
    FrameChanged(Adjustment(n, m), n, s, f, i);
    var x := s[i * n..i * n + n];
    assert EachFrame(Adjustment(n, m), n, s)[i * m..i * m + m][k] == Changed(Adjustment(n, m), x)[k];
  }

  predicate SampleSize(size: nat): (known: bool)
    ensures known <==> size in {1, 2, 3, 4}
  {
    1 <= size <= 4
  }

  /** adjust_channels, on buffers of samples; the sizes it does not know change nothing. */
  method AdjustChannels(input: array<int>, n: nat, output: array<int>, m: nat, size: nat, numInBytes: nat, ghost f: nat)
    returns (bytes: nat)
    requires 0 < n && 0 < m && (SampleSize(size) || n == m ==> numInBytes == f * n * size)
    requires f * n <= input.Length && f * m <= output.Length && 0 < size
    modifies output
    ensures !SampleSize(size) && n != m ==> bytes == 0 && output[..] == old(output[..])
    ensures SampleSize(size) || n == m ==> bytes == f * m * size
    ensures (SampleSize(size) || n == m) && !(size == 3 && m == 1 && n > 1) ==>
              output[..] == EachFrame(Adjustment(n, m), n, old(input[..f * n])) + old(output[f * m..])
    ensures size == 3 && m == 1 && n > 1 && f == 0 ==> output[..] == old(output[..])
    ensures size == 3 && m == 1 && n > 1 && f > 0 ==>
              output[..] == old(output[..])[0 := LastMix(old(input[..f * n]), n, old(output[0]))]
  {
    hide EachFrame, LastMix;
    if n == m {
      SamesFrames(input[..f * n], n, f);
      ProductExact(f * n, size);
      var samples := numInBytes / size;
      if input != output {
        CopyForward(input, 0, output, 0, samples);
        StoredFirst(old(output[..]), input[..samples]);
      }
      return numInBytes;
    }
    if !SampleSize(size) {
      return 0;
    }
    ProductExact(f * n, size);
    var numIn := numInBytes / size;
    OutSamples(f, n, m);
    var numOut := numIn * m / n;
    AdjustSamples(input, n, output, m, size, numIn, numOut, f);
    bytes := numOut * size;
  }

  /** The macro that adjust_channels picks. */
  method AdjustSamples(input: array<int>, n: nat, output: array<int>, m: nat, size: nat, numIn: nat, numOut: nat, ghost f: nat)
    requires 0 < n && 0 < m && n != m && numIn == f * n <= input.Length && numOut == f * m <= output.Length
    modifies output
    ensures !(size == 3 && m == 1 && n > 1) ==>
              output[..] == EachFrame(Adjustment(n, m), n, old(input[..numIn])) + old(output[numOut..])
    ensures size == 3 && m == 1 && n > 1 && f == 0 ==> output[..] == old(output[..])
    ensures size == 3 && m == 1 && n > 1 && f > 0 ==>
              output[..] == old(output[..])[0 := LastMix(old(input[..numIn]), n, old(output[0]))]
  {
    hide EachFrame, LastMix;
    if m > n {
      ExpandBack(Adjustment(n, m), input, n, output, numIn, numOut, f);
    } else if m == 1 && size == 3 {
      ContractToMono24(input, n, output, numIn, f);
    } else {
      ContractForward(Adjustment(n, m), input, n, output, numIn, numOut, f);
    }
  }

  lemma ProductExact(x: nat, size: nat)
    requires size > 0
    ensures x * size / size == x
  {
    RemainderIs(x * size, size, x, 0);
  }

  lemma {:induction false} SamesFrames(s: seq<int>, n: nat, f: nat)
    requires n > 0 && |s| == f * n
    ensures EachFrame(Keep(n), n, s) == s
    decreases f
  {
    if f > 0 {
      Product(f, n);
      SamesFrames(s[n..], n, f - 1);
    }
  }

  /** Expanding and contracting again gives the frames back, for any numbers of channels. */
  lemma AdjustRoundTrip(n: nat, m: nat, s: seq<int>, f: nat)
    requires 0 < n < m && |s| == f * n
    ensures |EachFrame(Adjustment(n, m), n, s)| == f * m
    ensures EachFrame(Adjustment(m, n), m, EachFrame(Adjustment(n, m), n, s)) == s
  {
    hide EachFrame;
    EachFrameLength(Adjustment(n, m), n, s, f);
    if n == 1 {
      MixUndoesTwice(m);
    } else {
      KeepUndoesPad(n, m);
    }
    RoundTrip(Adjustment(m, n), Adjustment(n, m), n, s, f);
  }

  /** adjust_channels_non_destructive: the same result in place and on separate buffers. */
  method AdjustNonDestructive(input: array<int>, n: nat, output: array<int>, m: nat, size: nat, numInBytes: nat, ghost f: nat)
    returns (bytes: nat)
    requires 0 < n && 0 < m && 0 < size && numInBytes == f * n * size
    requires input.Length == output.Length && f * n <= input.Length && f * m <= input.Length
    modifies output
    ensures !SampleSize(size) && n != m ==> bytes == 0 && output[..] == old(output[..])
    ensures SampleSize(size) || n == m ==> bytes == f * m * size
    ensures SampleSize(size) && m < n ==>
              f * n <= |Contracted(old(input[..]), n, m, f * n)|
              && output[..] == Contracted(old(input[..]), n, m, f * n)[..f * n] + old(output[f * n..])
    ensures SampleSize(size) && n < m ==>
              f * n <= f * m <= |Expanded(old(input[..]), n, m, f * n, f * m)|
              && output[..] == Expanded(old(input[..]), n, m, f * n, f * m)[..f * m] + old(output[f * m..])
    ensures n == m ==> output[..] == old(input[..f * n]) + old(output[f * n..])
  {
    hide EachFrame, Interleaved;
    ProductExact(f * n, size);
    var numIn := numInBytes / size;
    if n == m {
      if input != output {
        CopyForward(input, 0, output, 0, numIn);
        StoredFirst(old(output[..]), input[..numIn]);
      }
      return numInBytes;
    }
    if !SampleSize(size) {
      return 0;
    }
    var numOut;
    if m < n {
      ContractedThenExpanded(input[..], n, m, f);
      ContractedFront(input[..], n, m, f);
      numOut := ContractNonDestructive(input, n, output, m, numIn, f);
    } else {
      ExpandedThenContracted(input[..], n, m, f);
      ExpandedFront(input[..], n, m, f);
      numOut := ExpandNonDestructive(input, n, output, m, numIn, f);
    }
    bytes := numOut * size;
  }

  lemma ContractedFront(buffer: seq<int>, n: nat, m: nat, f: nat)
    requires 0 < m <= n && f * n <= |buffer|
    ensures f * n <= |Contracted(buffer, n, m, f * n)|
    ensures Contracted(buffer, n, m, f * n)[..f * n] == EachFrame(Keep(m), n, buffer[..f * n]) + EachFrame(Drop(m), n, buffer[..f * n])
  {
    hide EachFrame;
    PartLengths(n, m, buffer[..f * n], f);
  }

  lemma ExpandedFront(buffer: seq<int>, n: nat, m: nat, f: nat)
    requires 0 < n <= m && f * n <= f * m <= |buffer|
    ensures f * m <= |Expanded(buffer, n, m, f * n, f * m)|
    ensures Expanded(buffer, n, m, f * n, f * m)[..f * m] == Interleaved(buffer[..f * n], n, buffer[f * n..f * m], m - n)
  {
    hide Interleaved;
    Differences(f, m, n);
    InterleavedLength(buffer[..f * n], n, buffer[f * n..f * m], m - n, f);
  }
}
