/**
 The index arithmetic of the fixed-point FFT (audio_utils/fixedfft.cpp): the loop that puts
 the samples into bit-reversed order, and the subscripts into the table of twiddle factors.
 */
module Fft {
  import opened Bits

  const LOG_FFT_SIZE: nat := 10
  const TABLE_SIZE: int := 256

  /** The lowest k bits of x, in reverse. */
  function Rev(x: nat, k: nat): nat {
    if k == 0 then 0 else (if x % 2 == 1 then Pow2(k - 1) else 0) + Rev(x / 2, k - 1)
  }

  lemma {:induction false} RevBounds(x: nat, k: nat)
    ensures Rev(x, k) < Pow2(k)
  {
    if k > 0 {
      RevBounds(x / 2, k - 1);
    }
  }

  /** The top bit becomes the lowest one. */
  lemma {:induction false} RevTop(x: nat, k: nat)
    requires 0 < k && x < Pow2(k)
    ensures Rev(x, k) == 2 * Rev(x % Pow2(k - 1), k - 1) + x / Pow2(k - 1)
    decreases k
  {
    if k == 1 {
      assert x % 1 == 0 && x / 1 == x;
    } else {
      var m, h := Pow2(k - 2), x / 2;
      RevTop(h, k - 1);
      HalfRemainder(x, m);
      QuotientOfHalf(x, m);
      RevOfPair(h % m, x % 2, k - 1);
      RevOfPair(h, x % 2, k);
      assert x == 2 * h + x % 2;
      hide Rev;
      assert Pow2(k - 1) == 2 * m;
    }
  }

  lemma RevOfPair(high: nat, low: nat, k: nat)
    requires k > 0 && low < 2
    ensures Rev(2 * high + low, k) == (if low == 1 then Pow2(k - 1) else 0) + Rev(high, k - 1)
  {
    assert (2 * high + low) % 2 == low && (2 * high + low) / 2 == high;
  }

  /** Reversing twice gives the index back, so the reversal is a permutation. */
  lemma {:induction false} RevInvolution(x: nat, k: nat)
    requires x < Pow2(k)
    ensures Rev(Rev(x, k), k) == x
    decreases k
  {
    if k > 0 {
      var y := Rev(x, k);
      RevBounds(x, k);
      RevTop(y, k);
      RevBounds(x / 2, k - 1);
      TopBit(y, x % 2, Pow2(k - 1), Rev(x / 2, k - 1));
      RevInvolution(x / 2, k - 1);
    }
  }

  lemma TopBit(y: nat, bit: nat, m: nat, rest: nat)
    requires bit < 2 && rest < m && y == (if bit == 1 then m else 0) + rest
    ensures y / m == bit && y % m == rest
  {
    RemainderIs(y, m, bit, rest);
  }

  // ---- counting with reversed bits

  /** r is above, whose bits lie at 2^j and higher, and the j lowest bits of y reversed. */
  ghost predicate Split(r: nat, above: nat, y: nat, j: nat) {
    r == above + Rev(y, j) && above % Pow2(j + 1) == 0
  }

  /** Toggling the next lower bit, where y is even: the count is done. */
  lemma ToggleEven(r: nat, above: nat, y: nat, j: nat)
    requires j > 0 && Split(r, above, y, j) && y % 2 == 0
    ensures Xor(r, Pow2(j - 1)) == above + Rev(y + 1, j)
    ensures And(Pow2(j - 1), Xor(r, Pow2(j - 1))) != 0
  {
    hide And, Xor, Rev;
    var m := Pow2(j - 1);
    RevOfPair(y / 2, 0, j);
    RevOfPair(y / 2, 1, j);
    assert y == 2 * (y / 2) + 0;
    RevBounds(y / 2, j - 1);
    hide Pow2;
    BitAt(above, 0, Rev(y / 2, j - 1), j);
    BitAt(above, 1, Rev(y / 2, j - 1), j);
    OneBit(r, j - 1);
    OneBit(r + m, j - 1);
  }

  /** Where y is odd, the bit is cleared and the carry goes on to the next. */
  lemma ToggleOdd(r: nat, above: nat, y: nat, j: nat)
    requires j > 0 && Split(r, above, y, j) && y % 2 == 1
    ensures Xor(r, Pow2(j - 1)) == above + Rev(y / 2, j - 1) && Split(above + Rev(y / 2, j - 1), above, y / 2, j - 1)
    ensures And(Pow2(j - 1), Xor(r, Pow2(j - 1))) == 0
    ensures Rev(y + 1, j) == Rev(y / 2 + 1, j - 1)
  {
    hide And, Xor;
    RevBounds(y / 2, j - 1);
    BitAt(above, 0, Rev(y / 2, j - 1), j);
    BitAt(above, 1, Rev(y / 2, j - 1), j);
    OneBit(r, j - 1);
    OneBit(r - Pow2(j - 1), j - 1);
    assert (y + 1) % 2 == 0 && (y + 1) / 2 == y / 2 + 1;
  }

  /** The bit of weight m between the bits above and below it. */
  lemma BitAt(above: nat, bit: nat, below: nat, j: nat)
    requires j > 0 && above % Pow2(j + 1) == 0 && bit < 2 && below < Pow2(j - 1)
    ensures (above + (if bit == 1 then Pow2(j - 1) else 0) + below) / Pow2(j - 1) % 2 == bit
    ensures above % Pow2(j) == 0
  {
    var m := Pow2(j - 1);
    assert Pow2(j + 1) == 2 * Pow2(j) && Pow2(j) == 2 * m;
    hide Pow2;
    MultipleOfHalf(above, Pow2(j));
    BitBetween(above / (4 * m), bit, below, m, above);
  }

  lemma MultipleOfHalf(x: nat, m: int)
    requires m > 0 && x % (2 * m) == 0
    ensures x % m == 0
  {
    var q := x / (2 * m);
    assert x == q * (2 * m) == (2 * q) * m;
    RemainderIs(x, m, 2 * q, 0);
  }

  lemma BitBetween(q: nat, bit: nat, below: nat, m: nat, above: nat)
    requires bit < 2 && below < m && above % (4 * m) == 0 && q == above / (4 * m)
    ensures (above + (if bit == 1 then m else 0) + below) / m % 2 == bit
  {
    assert above == q * (4 * m);
    assert q * (4 * m) == (4 * q) * m;
    assert (4 * q + bit) * m == (4 * q) * m + bit * m;
    assert bit * m == if bit == 1 then m else 0;
    RemainderIs(above + (if bit == 1 then m else 0) + below, m, 4 * q + bit, below);
    assert (4 * q + bit) % 2 == bit;
  }

  /** The condition-only loop: from the reversed x to the reversed x + 1. */
  method NextReversed(r0: nat, n: nat, ghost k: nat, ghost x: nat) returns (r: nat)
    requires n == Pow2(k) && r0 == Rev(x, k) && x + 1 < n
    ensures r == Rev(x + 1, k)
  {
    hide And, Xor, Rev, Pow2;
    r := r0;
    var p := n;
    ghost var j: nat, above: nat, y: nat := k, 0, x;
    StartSplit(r, k, x);
    while And(p, r) == 0
      invariant j <= k && p == Pow2(j)
      invariant And(p, r) == 0 ==> Split(r, above, y, j) && y + 1 < p && Rev(x + 1, k) == above + Rev(y + 1, j)
      invariant And(p, r) != 0 ==> r == Rev(x + 1, k)
      decreases j
    {
      HalfPower(j, y);
      p := p / 2;
      if y % 2 == 0 {
        ToggleEven(r, above, y, j);
      } else {
        ToggleOdd(r, above, y, j);
        y := y / 2;
      }
      r := Xor(r, p);
      j := j - 1;
    }
  }

  lemma StartSplit(r: nat, k: nat, x: nat)
    requires r == Rev(x, k)
    ensures Split(r, 0, x, k) && And(Pow2(k), r) == 0
  {
    hide And, Rev, Pow2;
    RevBounds(x, k);
    OneBit(r, k);
    RemainderIs(r, Pow2(k), 0, r);
    RemainderIs(0, Pow2(k + 1), 0, 0);
  }

  lemma HalfPower(j: nat, y: nat)
    requires y + 1 < Pow2(j)
    ensures j > 0 && Pow2(j) / 2 == Pow2(j - 1)
    ensures y % 2 == 1 ==> y / 2 + 1 < Pow2(j - 1)
  {
  }

  // ---- the permutation

  /** v after the exchanges of all pairs of reversed indices whose lower one is below i. */
  ghost predicate Exchanged(was: seq<int>, v: seq<int>, n: nat, k: nat, i: nat) {
    && n == Pow2(k) && n <= |was| == |v| && v[n..] == was[n..]
    && forall t: nat :: t < n ==> Moved(was, v, n, k, i, t)
  }

  ghost predicate Moved(was: seq<int>, v: seq<int>, n: nat, k: nat, i: nat, t: nat) {
    t < n <= |was| && n <= |v| && Source(t, k, i) < n && v[t] == was[Source(t, k, i)]
  }

  function Source(t: nat, k: nat, i: nat): nat {
    if t < i || Rev(t, k) < i then Rev(t, k) else t
  }

  lemma ExchangeNext(was: seq<int>, v: seq<int>, n: nat, k: nat, i: nat, r: nat)
    requires Exchanged(was, v, n, k, i) && 0 < i < n && r == Rev(i, k) < n
    ensures Exchanged(was, if i < r then v[i := v[r]][r := v[i]] else v, n, k, i + 1)
  {
    hide Rev, Pow2;
    var next, i' := if i < r then v[i := v[r]][r := v[i]] else v, i + 1;
    RevInvolution(i, k);
    assert i < r ==> next[n..] == v[n..];
    forall t: nat | t < n
      ensures Moved(was, next, n, k, i', t)
    {
      RevInvolution(t, k);
      RevBounds(t, k);
      assert Moved(was, v, n, k, i, t) && Moved(was, v, n, k, i, i) && Moved(was, v, n, k, i, r);
    }
  }

  /** The first loop of fixed_fft: v is permuted by bit reversal. */
  method BitReverse(n: nat, v: array<int>, ghost k: nat)
    requires n == Pow2(k) <= v.Length
    modifies v
    ensures forall i: nat :: i < n ==> Rev(i, k) < n && v[i] == old(v[Rev(i, k)])
    ensures v[n..] == old(v[n..])
  {
    hide Rev, Pow2, Exchanged;
    ghost var was := v[..];
    var r, i := 0, 1;
    ExchangeStart(was, n, k);
    while i < n
      invariant 1 <= i <= n && r == Rev(i - 1, k)
      invariant Exchanged(was, v[..], n, k, i)
    {
      r := NextReversed(r, n, k, i - 1);
      RevBounds(i, k);
      ExchangeNext(was, v[..], n, k, i, r);
      if i < r {
        var t := v[i];
        v[i] := v[r];
        v[r] := t;
      }
      i := i + 1;
    }
    ExchangeEnd(was, v[..], n, k);
    assert was[n..] == old(v[n..]) && v[..][n..] == v[n..];
  }

  lemma ExchangeStart(was: seq<int>, n: nat, k: nat)
    requires n == Pow2(k) <= |was|
    ensures Exchanged(was, was, n, k, 1) && Rev(0, k) == 0
  {
    RevZero(k);
    forall t: nat | t < n
      ensures Moved(was, was, n, k, 1, t)
    {
      RevInvolution(t, k);
    }
  }

  lemma {:induction false} RevZero(k: nat)
    ensures Rev(0, k) == 0
  {
    if k > 0 {
      RevZero(k - 1);
    }
  }

  lemma ExchangeEnd(was: seq<int>, v: seq<int>, n: nat, k: nat)
    requires Exchanged(was, v, n, k, n)
    ensures v[n..] == was[n..]
    ensures forall i: nat :: i < n ==> Rev(i, k) < n && v[i] == was[Rev(i, k)]
  {
    hide Rev, Pow2;
    forall i: nat | i < n
      ensures Rev(i, k) < n && v[i] == was[Rev(i, k)]
    {
      RevBounds(i, k);
      assert Moved(was, v, n, k, n, i);
    }
  }

  // ---- the table of twiddle factors

  lemma {:induction false} XorOnes(x: int)
    ensures Xor(x, -1) == -1 - x
    decreases Abs(x)
  {
    if !Flat(x) {
      XorOnes(x / 2);
    }
  }

  /** w >> 31 of a 32-bit word: all bits are the sign. */
  function Sign(w: int): int {
    w / 0x8000_0000
  }

  /** The subscript that a stage of fixed_fft computes for its r-th factor: (w ^ i) - i. */
  function Subscript(r: nat, scale: nat): int {
    var w := TABLE_SIZE - r * Pow2(scale);
    Xor(w, Sign(w)) - Sign(w)
  }

  lemma SubscriptIsDistance(r: nat, scale: nat)
    requires r * Pow2(scale) < 0x8000_0000
    ensures Subscript(r, scale) == Abs(TABLE_SIZE - r * Pow2(scale))
  {
    hide Xor, Pow2;
    var w := TABLE_SIZE - r * Pow2(scale);
    if w >= 0 {
      RemainderIs(w, 0x8000_0000, 0, w);
      XorZero(w);
    } else {
      RemainderIs(w, 0x8000_0000, -1, w + 0x8000_0000);
      XorOnes(w);
    }
  }

  /** Stage s works with p == 2^s and the scale 9 - s; all its subscripts lie in the table. */
  lemma TwiddleInTable(s: nat, r: nat)
    requires s < LOG_FFT_SIZE && 0 < r < Pow2(s)
    ensures 0 <= Subscript(r, LOG_FFT_SIZE - 1 - s) < TABLE_SIZE
  {
    hide Subscript;
    var scale := LOG_FFT_SIZE - 1 - s;
    Pow2Add(s, scale);
    assert Pow2(9) == 512;
    Scaled(r, Pow2(s), Pow2(scale));
    SubscriptIsDistance(r, scale);
  }

  lemma PowerZero()
    ensures Pow2(0) == 1
  {
  }

  /** The loop over the stages of fixed_fft: every subscript of every stage lies in the table,
      and a stage of distance p uses p - 1 of them. */
  method TwiddleSubscripts(n: nat, ghost k: nat) returns (used: seq<int>)
    requires n == Pow2(k) && k <= LOG_FFT_SIZE
    ensures forall u :: u in used ==> 0 <= u < TABLE_SIZE
    ensures |used| == n - 1 - k
  {
    hide Pow2, Xor, Subscript;
    PowerZero();
    var p, scale: int := 1, LOG_FFT_SIZE;
    ghost var s: nat := 0;
    used := [];
    while p < n
      invariant p == Pow2(s) && scale == LOG_FFT_SIZE - s && s <= k
      invariant |used| == p - 1 - s
      invariant forall u :: u in used ==> 0 <= u < TABLE_SIZE
      decreases k - s
    {
      NextStage(s, k);
      scale := scale - 1;
      var r := 1;
      while r < p
        invariant 1 <= r <= p && |used| == p - 1 - s + (r - 1)
        invariant forall u :: u in used ==> 0 <= u < TABLE_SIZE
      {
        var w := TABLE_SIZE - r * Pow2(scale);
        var i := Sign(w);
        TwiddleInTable(s, r);
        SubscriptIs(r, scale);
        used := used + [Xor(w, i) - i];
        r := r + 1;
      }
      p := 2 * p;
      s := s + 1;
    }
    LastStage(s, k);
  }

  lemma SubscriptIs(r: nat, scale: nat)
    ensures Subscript(r, scale) == Xor(TABLE_SIZE - r * Pow2(scale), Sign(TABLE_SIZE - r * Pow2(scale)))
                                   - Sign(TABLE_SIZE - r * Pow2(scale))
  {
  }

  lemma NextStage(s: nat, k: nat)
    requires Pow2(s) < Pow2(k)
    ensures s < k && Pow2(s + 1) == 2 * Pow2(s)
  {
    if s >= k {
      Pow2Monotone(k, s);
    }
  }

  lemma LastStage(s: nat, k: nat)
    requires s <= k && Pow2(s) >= Pow2(k)
    ensures s == k
  {
    if s < k {
      Pow2Monotone(s, k);
    }
  }

  lemma Scaled(r: nat, p: nat, q: nat)
    requires 0 < r < p && q > 0 && p * q == 512
    ensures 0 < r * q < 512
  {
    assert (p - r) * q > 0;
    assert (p - r) * q == p * q - r * q;
    assert r * q > 0;
  }

  /** The scale that fixed_fft_real arrives at: one less for each power of two up to n. */
  method RealScale(n: nat, ghost k: nat) returns (scale: int)
    requires n == Pow2(k)
    ensures scale == LOG_FFT_SIZE - 1 - k
  {
    hide Pow2;
    scale := LOG_FFT_SIZE;
    var i := 1;
    ghost var j: nat := 0;
    assert Pow2(0) == 1 by { PowerZero(); }
    while i <= n
      invariant i == Pow2(j) && j <= k + 1 && scale == LOG_FFT_SIZE - j
      decreases k + 1 - j
    {
      PowerNext(j, k);
      i := 2 * i;
      scale := scale - 1;
      j := j + 1;
    }
    PowerBehind(j, k);
  }

  lemma PowerNext(j: nat, k: nat)
    requires Pow2(j) <= Pow2(k)
    ensures j <= k && Pow2(j + 1) == 2 * Pow2(j)
  {
    if j > k {
      Pow2Monotone(k, j);
    }
  }

  lemma PowerBehind(j: nat, k: nat)
    requires Pow2(k) < Pow2(j) && j <= k + 1
    ensures j == k + 1
  {
    if j <= k {
      Pow2Monotone(j, k);
    }
  }

  /** fixed_fft_real shifts by its scale, which is a shift count for up to 512 samples only. */
  lemma RealScaleIff(k: nat)
    ensures LOG_FFT_SIZE - 1 - k >= 0 <==> Pow2(k) <= 512
  {
    assert Pow2(9) == 512;
    if k <= 9 {
      Pow2Monotone(k, 9);
    } else {
      Pow2Monotone(9, k);
    }
  }

  /** And then all its subscripts i << scale lie in the table. */
  lemma RealTwiddleInTable(k: nat, i: nat)
    requires k < LOG_FFT_SIZE && 0 < i < Pow2(k) / 2
    ensures 0 <= i * Pow2(LOG_FFT_SIZE - 1 - k) < TABLE_SIZE
  {
    assert Pow2(9) == 512;
    Pow2Add(k, 9 - k);
    Scaled(2 * i, Pow2(k), Pow2(9 - k));
    assert (2 * i) * Pow2(9 - k) == 2 * (i * Pow2(9 - k));
  }
}
