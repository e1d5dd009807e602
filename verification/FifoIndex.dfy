/**
 Index arithmetic of the FIFO (audio_utils/fifo.cpp, audio_utils/roundup.c).

 An index is a 32-bit word: a generation count times P2 plus an offset below the frame
 count N, where P2 is N rounded up to a power of two. The P2 - N codes at the end of each
 generation are never used. Index(c) is the word that stands for the unbounded frame
 counter c; the theorems say that Sum and Diff compute on words what plus and minus
 compute on counters.
 */
module FifoIndex {
  import opened Bits

  const WORD: int := 0x1_0000_0000
  const INT32_MAX: int := 0x7FFF_FFFF

  type uint32 = x: int | 0 <= x < WORD

  function Wrap(x: int): uint32 {
    x % WORD
  }

  lemma WrapAdd(x: int, y: int)
    ensures Wrap(x + y) == Wrap(Wrap(x) + y)
  {
    var q, z := x / WORD, x % WORD + y;
    RemainderIs(x + y, WORD, q + z / WORD, z % WORD);
  }

  lemma WrapShift(x: int, e: int)
    ensures Wrap(x + e * WORD) == Wrap(x)
  {
    RemainderIs(x + e * WORD, WORD, x / WORD + e, x % WORD);
  }

  // ---- roundup.c

  /** Count of leading zeros of a non-zero 32-bit word. */
  function Clz(v: uint32): int
    requires v > 0
  {
    31 - Log2(v)
  }

  function Roundup(word: uint32): uint32 {
    var v: uint32 := if word == 0 then 1 else word;
    LogOfWord(v);
    var lz := Clz(v);
    var rounded: uint32 := 0x8000_0000 / Pow2(lz);
    if v > rounded && lz > 0 then Wrap(2 * rounded) else rounded
  }

  lemma WordIsPow2()
    ensures Pow2(16) == 0x1_0000 && Pow2(31) == 0x8000_0000 && Pow2(32) == WORD
  {
    assert Pow2(8) == 256;
    Pow2Add(8, 8);
    Pow2Add(16, 16);
  }

  lemma LogOfWord(v: uint32)
    requires v > 0
    ensures Log2(v) <= 31
    ensures 0x8000_0000 / Pow2(31 - Log2(v)) == Pow2(Log2(v)) <= 0x8000_0000
  {
    var l := Log2(v);
    Log2Bounds(v);
    WordIsPow2();
    if l >= 32 {
      Pow2Monotone(32, l);
    }
    Pow2Monotone(l, 31);
    Pow2Add(l, 31 - l);
    RemainderIs(0x8000_0000, Pow2(31 - l), Pow2(l), 0);
  }

  /** The exponent of the word that Roundup returns. */
  function RoundupLog(word: uint32): nat {
    var v: uint32 := if word == 0 then 1 else word;
    if v > Pow2(Log2(v)) && Log2(v) < 31 then Log2(v) + 1 else Log2(v)
  }

  lemma RoundupIsPowerOfTwo(v: uint32)
    ensures RoundupLog(v) <= 31 && Roundup(v) == Pow2(RoundupLog(v))
    ensures 0 < v <= 0x8000_0000 ==> v <= Roundup(v) < 2 * v
    ensures v == 0 ==> Roundup(v) == 1
    ensures v > 0x8000_0000 ==> Roundup(v) == 0x8000_0000
  {
    hide Log2, Clz, Pow2, Roundup;
    var w: uint32 := if v == 0 then 1 else v;
    LogOfWord(w);
    Log2Bounds(w);
    WordIsPow2();
    LogOfOne();
    RoundupIs(v, w, Pow2(Log2(w)));
    Pow2Step(Log2(w));
    if Log2(w) < 31 {
      Pow2Monotone(Log2(w) + 1, 31);
    }
  }

  lemma LogOfOne()
    ensures Log2(1) == 0 && Pow2(0) == 1
  {
  }

  lemma Pow2Step(l: nat)
    ensures Pow2(l + 1) == 2 * Pow2(l)
  {
  }

  lemma RoundupIs(v: uint32, w: uint32, p: nat)
    requires w > 0 && w == (if v == 0 then 1 else v)
    requires Log2(w) <= 31 && p == Pow2(Log2(w))
    requires 0x8000_0000 / Pow2(31 - Log2(w)) == p <= 0x8000_0000
    ensures Roundup(v) == if w > p && Log2(w) < 31 then Wrap(2 * p) else p
  {
    hide Log2, Pow2;
  }

  /** roundup returns the least power of two that is not below its argument, except that
      words above 2^31 are rounded down to 2^31. */
  lemma RoundupIsLeastPowerOfTwo(v: uint32, j: nat)
    ensures v <= 0x8000_0000 ==> v <= Roundup(v) == Pow2(RoundupLog(v))
    ensures v <= 0x8000_0000 && v <= Pow2(j) ==> Roundup(v) <= Pow2(j)
    ensures v > 0x8000_0000 ==> Roundup(v) == 0x8000_0000
  {
    RoundupIsPowerOfTwo(v);
    var k := RoundupLog(v);
    if j < k {
      Pow2Monotone(j, k);
    } else {
      Pow2Monotone(k, j);
    }
  }

  // ---- products, kept symbolic

  /** k * p, defined by repeated addition so that a product of variables stays one symbol. */
  ghost function Times(k: nat, p: nat): nat {
    if k == 0 then 0 else Times(k - 1, p) + p
  }

  lemma {:induction false} TimesIsProduct(k: nat, p: nat)
    ensures Times(k, p) == k * p
  {
    if k > 0 {
      TimesIsProduct(k - 1, p);
      assert (k - 1) * p + p == k * p;
    }
  }

  lemma {:induction false} TimesPlus(j: nat, k: nat, p: nat)
    ensures Times(j + k, p) == Times(j, p) + Times(k, p)
  {
    if k > 0 {
      TimesPlus(j, k - 1, p);
    }
  }

  lemma TimesFew(p: nat)
    ensures Times(0, p) == 0 && Times(1, p) == p
  {
  }

  lemma {:induction false} TimesGrows(j: nat, k: nat, p: nat)
    requires j < k
    ensures Times(j, p) + p <= Times(k, p)
  {
    if j + 1 < k {
      TimesGrows(j, k - 1, p);
    }
  }

  lemma {:induction false} TimesMinus(k: nat, p: nat, n: nat)
    requires n <= p
    ensures Times(k, p - n) == Times(k, p) - Times(k, n)
  {
    if k > 0 {
      TimesMinus(k - 1, p, n);
    }
  }

  lemma {:induction false} TimesTimes(q: nat, m: nat, n: nat)
    ensures Times(Times(q, m), n) == Times(q, Times(m, n))
  {
    if q > 0 {
      TimesTimes(q - 1, m, n);
      TimesPlus(Times(q - 1, m), m, n);
    }
  }

  lemma TimesSwaps(k: nat, p: nat)
    ensures Times(k, p) == Times(p, k)
  {
    TimesIsProduct(k, p);
    TimesIsProduct(p, k);
  }

  /** Quotient and remainder by repeated addition. */
  lemma DivideIs(x: nat, m: nat, q: nat, r: nat)
    requires r < m && x == Times(q, m) + r
    ensures x / m == q && x % m == r
  {
    TimesIsProduct(q, m);
    RemainderIs(x, m, q, r);
  }

  lemma Divided(x: nat, m: nat)
    requires m > 0
    ensures 0 <= x / m && 0 <= x % m < m && x == Times(x / m, m) + x % m
  {
    DivModBounds(x, m);
    TimesIsProduct(x / m, m);
  }

  // ---- generations and offsets

  /** The constant fields mFrameCount, mFrameCountP2 and mFudgeFactor. */
  datatype Geometry = Geometry(n: nat, p2: nat, fudge: nat) {

    /** What the constructor of audio_utils_fifo_base establishes. */
    ghost predicate Constructed() {
      0 < n <= INT32_MAX && p2 == Roundup(n) && fudge == p2 - n
    }

    /** All that the index arithmetic needs of it. */
    ghost predicate Valid() {
      && 0 < n <= p2 < 2 * n
      && fudge == p2 - n && 2 * p2 <= WORD
      && 2 <= Generations() && Times(Generations(), p2) == WORD
      && p2 == Pow2(Log2(p2))
    }

    /** How many generations a 32-bit word can count. */
    ghost function Generations(): nat {
      if 0 < p2 <= WORD && Log2(p2) <= 32 then Pow2(32 - Log2(p2)) else 0
    }

    /** The word of generation g (counted cyclically) and offset o. */
    ghost function Word(g: nat, o: int): int {
      Times(g, p2) + o
    }

    /** The word that stands for frame counter c. */
    ghost function Index(c: nat): (w: uint32)
      requires Valid()
    {
      Divided(c, n);
      Divided(c / n, Generations());
      WordFits(this, (c / n) % Generations(), c % n);
      Word((c / n) % Generations(), c % n)
    }
  }

  function NewGeometry(frameCount: uint32): (geo: Geometry)
    requires 0 < frameCount <= INT32_MAX
    ensures geo.Constructed()
  {
    RoundupIsPowerOfTwo(frameCount);
    Geometry(frameCount, Roundup(frameCount), Roundup(frameCount) - frameCount)
  }

  lemma {:induction false} LogOfPow2(k: nat)
    ensures Log2(Pow2(k)) == k
  {
    if k > 0 {
      LogOfPow2(k - 1);
    }
  }

  lemma ConstructedIsValid(geo: Geometry)
    requires geo.Constructed()
    ensures geo.Valid()
  {
    hide Times, Pow2, Log2, Roundup, RoundupLog;
    RoundupIsPowerOfTwo(geo.n);
    GenerationsFill(RoundupLog(geo.n));
  }

  /** The generations of 2^k codes take the whole word. */
  lemma GenerationsFill(k: nat)
    requires k <= 31
    ensures Log2(Pow2(k)) == k && 0 < 2 * Pow2(k) <= WORD
    ensures 2 <= Pow2(32 - k) && Times(Pow2(32 - k), Pow2(k)) == WORD
  {
    hide Times, Log2;
    LogOfPow2(k);
    Pow2Add(32 - k, k);
    WordIsPow2();
    TimesIsProduct(Pow2(32 - k), Pow2(k));
    Pow2Monotone(1, 32 - k);
    Pow2Monotone(k, 31);
  }

  lemma WordFits(geo: Geometry, g: nat, o: nat)
    requires geo.Valid()
    requires g < geo.Generations() && o < geo.p2
    ensures 0 <= geo.Word(g, o) < WORD
    ensures geo.Word(g, o) % geo.p2 == o
  {
    TimesGrows(g, geo.Generations(), geo.p2);
    DivideIs(geo.Word(g, o), geo.p2, g, o);
  }

  /** The expression index & mask, which for mask = P2 - 1 is a remainder. */
  function Offset(geo: Geometry, index: uint32): (o: uint32)
    requires geo.Valid()
    ensures o == index % geo.p2
  {
    AndMask(index, Log2(geo.p2));
    And(index, geo.p2 - 1)
  }

  lemma OffsetOfWord(geo: Geometry, g: nat, o: nat)
    requires geo.Valid()
    requires g < geo.Generations() && o < geo.p2
    ensures 0 <= geo.Word(g, o) < WORD
    ensures Offset(geo, geo.Word(g, o)) == o
  {
    WordFits(geo, g, o);
  }

  // ---- audio_utils_fifo_base::sum

  function Sum(geo: Geometry, index: uint32, increment: uint32): uint32
    requires geo.Valid()
  {
    if geo.fudge > 0 then
      SkipWasted(geo, Offset(geo, index), index, increment)
    else
      Wrap(index + increment)
  }

  function SkipWasted(geo: Geometry, offset: uint32, index: uint32, increment: uint32): uint32 {
    var inc := if Wrap(offset + increment) >= geo.n then Wrap(increment + geo.fudge) else increment;
    Wrap(index + inc)
  }

  lemma SkipWastedIs(geo: Geometry, w: uint32, o: nat, increment: nat)
    requires o < geo.n && increment <= geo.n && 2 * (geo.n + geo.fudge) <= WORD
    ensures SkipWasted(geo, o, w, increment) ==
      if o + increment < geo.n then Wrap(w + increment) else Wrap(w + increment + geo.fudge)
  {
  }

  lemma WrapSmall(x: int)
    ensures 0 <= x < WORD ==> Wrap(x) == x
    ensures WORD <= x < 2 * WORD ==> Wrap(x) == x - WORD
    ensures 0 - WORD <= x < 0 ==> Wrap(x) == x + WORD
  {
  }

  lemma SumIs(geo: Geometry, w: uint32, o: nat, increment: nat)
    requires geo.Valid() && Offset(geo, w) == o < geo.n && increment <= geo.n
    ensures Sum(geo, w, increment) ==
      if o + increment < geo.n then Wrap(w + increment) else Wrap(w + increment + geo.fudge)
  {
    hide Offset, Wrap, SkipWasted, Log2, Pow2, Times;
    SkipWastedIs(geo, w, o, increment);
  }

  /** Adding at most one capacity moves the offset, or the generation by one. */
  lemma SumOfWord(geo: Geometry, g: nat, o: nat, increment: nat)
    requires geo.Valid()
    requires g < geo.Generations() && o < geo.n && increment <= geo.n
    ensures 0 <= geo.Word(g, o) < WORD
    ensures Sum(geo, geo.Word(g, o), increment) ==
      if o + increment < geo.n then geo.Word(g, o + increment)
      else geo.Word(if g + 1 == geo.Generations() then 0 else g + 1, o + increment - geo.n)
  {
    hide Offset, Wrap, Sum, Log2, Pow2;
    var w := geo.Word(g, o);
    OffsetOfWord(geo, g, o);
    SumIs(geo, w, o, increment);
    if o + increment < geo.n {
      WrapSmall(w + increment);
      OffsetOfWord(geo, g, o + increment);
    } else {
      WrapSmall(w + increment + geo.fudge);
      if g + 1 < geo.Generations() {
        OffsetOfWord(geo, g + 1, o + increment - geo.n);
      }
    }
  }

  lemma DivModAdd(n: nat, c: nat, k: nat)
    requires k <= n && n > 0
    ensures c % n + k < n ==> (c + k) / n == c / n && (c + k) % n == c % n + k
    ensures c % n + k >= n ==> (c + k) / n == c / n + 1 && (c + k) % n == c % n + k - n
  {
    Divided(c, n);
    if c % n + k < n {
      DivideIs(c + k, n, c / n, c % n + k);
    } else {
      DivideIs(c + k, n, c / n + 1, c % n + k - n);
    }
  }

  /** Sum is exact on words, also across the 32-bit wrap, for increments up to the capacity. */
  lemma SumExact(geo: Geometry, c: nat, increment: nat)
    requires geo.Valid() && increment <= geo.n
    ensures Sum(geo, geo.Index(c), increment) == geo.Index(c + increment)
  {
    var n, m := geo.n, geo.Generations();
    Divided(c, n);
    Divided(c / n, m);
    SumOfWord(geo, (c / n) % m, c % n, increment);
    DivModAdd(n, c, increment);
    DivModAdd(m, c / n, 1);
  }

  /** The assertion in sum admits increments up to P2. Offsets stay below the frame count from
      every valid starting offset exactly for increments up to the frame count. */
  lemma SumStaysValidIff(geo: Geometry, increment: nat)
    requires geo.Valid() && increment <= geo.p2 && geo.fudge > 0
    ensures (forall o: uint32 :: o < geo.n ==> Offset(geo, Sum(geo, o, increment)) < geo.n)
      <==> increment <= geo.n
  {
    hide Log2, Pow2, And, Geometry.Generations, Wrap;
    if increment <= geo.n {
      forall o: uint32 | o < geo.n
        ensures Offset(geo, Sum(geo, o, increment)) < geo.n
      {
        OffsetAfterSum(geo, o, increment);
      }
    } else {
      var o: uint32 := geo.n - 1;
      OffsetOfWord(geo, 0, o);
      OffsetOfWord(geo, 1, increment - 1);
      WrapSmall(o + increment);
      WrapSmall(increment + geo.fudge);
      WrapSmall(o + increment + geo.fudge);
      assert geo.Word(0, o) == o && geo.Word(1, increment - 1) == geo.p2 + increment - 1;
      assert Offset(geo, Sum(geo, o, increment)) == increment - 1;
    }
  }

  lemma OffsetAfterSum(geo: Geometry, o: nat, increment: nat)
    requires geo.Valid() && increment <= geo.n && o < geo.n
    ensures Offset(geo, Sum(geo, o, increment)) < geo.n
  {
    SumOfWord(geo, 0, o, increment);
    if o + increment < geo.n {
      OffsetOfWord(geo, 0, o + increment);
    } else {
      OffsetOfWord(geo, 1, o + increment - geo.n);
    }
  }

  // ---- audio_utils_fifo_base::diff

  /** What diff reports: frames between the indices, an overrun with its loss, or corruption. */
  datatype Difference = Filled(frames: nat) | Overflow(lost: int) | Corrupt

  function Diff(geo: Geometry, rear: uint32, front: uint32, flush: bool): Difference
    requires geo.Valid()
  {
    var raw := Wrap(rear - front);
    if geo.fudge > 0 then
      var rearOffset, frontOffset := Offset(geo, rear), Offset(geo, front);
      if rearOffset >= geo.n || frontOffset >= geo.n then
        Corrupt
      else
        DiffGenerations(geo, raw, Wrap((rear - rearOffset) - (front - frontOffset)), flush)
    else
      Limit(geo, raw, flush)
  }

  function DiffGenerations(geo: Geometry, raw: uint32, genDiff: uint32, flush: bool): Difference
    requires geo.p2 > 0
  {
    if genDiff > geo.p2 then
      Overflow(Wrap(raw - Keep(geo, flush) - geo.fudge * (genDiff / geo.p2)))
    else
      Limit(geo, if genDiff > 0 then Wrap(raw - geo.fudge) else raw, flush)
  }

  /** The frames that an overrun leaves readable. */
  function Keep(geo: Geometry, flush: bool): nat {
    if flush then 0 else geo.n
  }

  /** The last test of diff: the FIFO should not be overfull. */
  function Limit(geo: Geometry, d: uint32, flush: bool): Difference {
    if d > geo.n then Overflow(Wrap(d - Keep(geo, flush))) else Filled(d)
  }

  /** What a caller wants to know of counters that are d frames apart. */
  function Distance(geo: Geometry, d: nat, flush: bool): Difference {
    if d > geo.n then Overflow(d - Keep(geo, flush)) else Filled(d)
  }

  /** Subtraction of generations, counted cyclically. */
  ghost function CyclicMinus(a: nat, b: nat, m: nat): int {
    if a >= b then a - b else a - b + m
  }

  lemma GenDiffOfWords(geo: Geometry, a: nat, b: nat)
    requires geo.Valid() && a < geo.Generations() && b < geo.Generations()
    ensures
      var d := CyclicMinus(a, b, geo.Generations());
      0 <= d && Times(d, geo.p2) + geo.p2 <= WORD
      && Wrap(Times(a, geo.p2) - Times(b, geo.p2)) == Times(d, geo.p2)
  {
    hide Log2, Pow2, Geometry.Generations, Wrap;
    var m, p := geo.Generations(), geo.p2;
    TimesGrows(CyclicMinus(a, b, m), m, p);
    WrapSmall(Times(a, p) - Times(b, p));
    if a >= b {
      TimesPlus(a - b, b, p);
    } else {
      TimesGrows(a, b, p);
      TimesPlus(a, m - b, p);
      TimesPlus(m - b, b, p);
    }
  }

  /** Diff in terms of the cyclic distance of the generations and of the offsets. */
  ghost function ByGeneration(geo: Geometry, d: nat, delta: int, flush: bool): Difference
    requires d == 1 ==> 0 <= geo.n + delta < WORD
  {
    if d >= 2 then Overflow(Times(d, geo.n) + delta - Keep(geo, flush))
    else if d == 1 then Limit(geo, geo.n + delta, flush)
    else if delta >= 0 then Filled(delta)
    else Overflow(WORD + delta - Keep(geo, flush))
  }

  lemma DiffCases(geo: Geometry, raw: uint32, delta: int, d: nat, flush: bool)
    requires geo.Valid() && geo.fudge > 0
    requires 0 - geo.n < delta < geo.n
    requires Times(d, geo.p2) + geo.p2 <= WORD
    requires raw == Wrap(Times(d, geo.p2) + delta)
    ensures d == 1 ==> geo.n + delta < WORD
    ensures DiffGenerations(geo, raw, Times(d, geo.p2), flush) == ByGeneration(geo, d, delta, flush)
  {
    hide DiffGenerations, Wrap, Pow2, Log2, Geometry.Generations;
    var p, n := geo.p2, geo.n;
    if d >= 2 {
      ManyGenerations(geo, raw, delta, d, flush);
    } else {
      FewApart(geo, raw, Times(d, p), flush);
      WrapSmall(p + delta);
      WrapSmall(p + delta - geo.fudge);
      WrapSmall(delta);
      WrapSmall(WORD + delta - Keep(geo, flush));
    }
  }

  lemma FewApart(geo: Geometry, raw: uint32, genDiff: uint32, flush: bool)
    requires 0 < geo.p2 && genDiff <= geo.p2
    ensures DiffGenerations(geo, raw, genDiff, flush) == Limit(geo, if genDiff > 0 then Wrap(raw - geo.fudge) else raw, flush)
  {
    hide Limit, Wrap;
  }

  /** Each generation apart wastes the codes from N to P2. */
  lemma ManyApart(geo: Geometry, raw: uint32, d: nat, flush: bool)
    requires 0 < geo.n <= geo.p2 && geo.fudge == geo.p2 - geo.n && geo.p2 < Times(d, geo.p2) < WORD
    ensures DiffGenerations(geo, raw, Times(d, geo.p2), flush)
      == Overflow(Wrap(raw - Keep(geo, flush) - (Times(d, geo.p2) - Times(d, geo.n))))
  {
    hide Times, Wrap, Keep;
    DivideIs(Times(d, geo.p2), geo.p2, d, 0);
    LossIs(geo, d);
  }

  lemma ManyGenerations(geo: Geometry, raw: uint32, delta: int, d: nat, flush: bool)
    requires geo.Valid() && geo.fudge > 0
    requires 0 - geo.n < delta < geo.n && d >= 2
    requires Times(d, geo.p2) + geo.p2 <= WORD
    requires raw == Wrap(Times(d, geo.p2) + delta)
    ensures DiffGenerations(geo, raw, Times(d, geo.p2), flush) == Overflow(Times(d, geo.n) + delta - Keep(geo, flush))
  {
    hide DiffGenerations, Times, Pow2, Log2, Wrap, Geometry.Generations;
    var p, n := geo.p2, geo.n;
    TimesFew(p);
    TimesFew(n);
    WrapSmall(Times(d, p) + delta);
    TimesGrows(1, d, p);
    TimesGrows(1, d, n);
    TimesMinus(d, p, n);
    ManyApart(geo, raw, d, flush);
    WrapSmall(Times(d, n) + delta - Keep(geo, flush));
  }

  lemma LossIs(geo: Geometry, d: nat)
    requires geo.n <= geo.p2 && geo.fudge == geo.p2 - geo.n
    ensures geo.fudge * d == Times(d, geo.p2) - Times(d, geo.n)
  {
    TimesMinus(d, geo.p2, geo.n);
    TimesIsProduct(d, geo.fudge);
  }

  lemma DiffOfWords(geo: Geometry, a: nat, x: nat, b: nat, y: nat, flush: bool)
    requires geo.Valid() && geo.fudge > 0
    requires a < geo.Generations() && b < geo.Generations()
    requires x < geo.n && y < geo.n
    ensures 0 <= geo.Word(a, x) < WORD && 0 <= geo.Word(b, y) < WORD
    ensures CyclicMinus(a, b, geo.Generations()) >= 0
    ensures Diff(geo, geo.Word(a, x), geo.Word(b, y), flush)
      == ByGeneration(geo, CyclicMinus(a, b, geo.Generations()), x - y, flush)
  {
    hide Offset, Geometry.Generations, CyclicMinus, Wrap, Pow2, Log2, Times, ByGeneration;
    OffsetOfWord(geo, a, x);
    OffsetOfWord(geo, b, y);
    GenDiffOfWords(geo, a, b);
    var rear, front, d := geo.Word(a, x), geo.Word(b, y), CyclicMinus(a, b, geo.Generations());
    WrapAdd(rear - x - (front - y), x - y);
    DiffCases(geo, Wrap(rear - front), x - y, d, flush);
  }

  lemma CyclicDifference(a: nat, b: nat, m: nat)
    requires b <= a && m > 0
    ensures (a - b) % m == CyclicMinus(a % m, b % m, m)
  {
    var q := a / m - b / m;
    assert q * m == (a / m) * m - (b / m) * m;
    if a % m >= b % m {
      RemainderIs(a - b, m, q, a % m - b % m);
    } else {
      assert (q - 1) * m == q * m - m;
      RemainderIs(a - b, m, q - 1, a % m - b % m + m);
    }
  }

  lemma GapByGeneration(n: nat, r: nat, f: nat)
    requires f <= r && n > 0
    ensures r / n >= f / n
    ensures r - f == Times(r / n - f / n, n) + (r % n - f % n)
  {
    Divided(r, n);
    Divided(f, n);
    if r / n < f / n {
      TimesGrows(r / n, f / n, n);
      assert false;
    }
    TimesPlus(r / n - f / n, f / n, n);
  }

  /** The writer is fewer than G generations ahead of the reader. */
  ghost predicate WithinReach(geo: Geometry, r: nat, f: nat)
    requires geo.n > 0
  {
    if geo.fudge > 0 then r / geo.n - f / geo.n < geo.Generations() else r - f < WORD
  }

  /** diff is right about counters exactly when the writer is within reach: it returns the
      distance up to the capacity, reports an overrun beyond it, and the loss to the frame. */
  lemma DiffExactIff(geo: Geometry, r: nat, f: nat, flush: bool)
    requires geo.Valid() && f <= r
    ensures Diff(geo, geo.Index(r), geo.Index(f), flush) == Distance(geo, r - f, flush)
      <==> WithinReach(geo, r, f)
  {
    hide Log2, Pow2, And, Geometry.Generations, Times, Offset, DiffGenerations, Geometry.Index;
    if geo.fudge > 0 {
      DiffExactWithFudge(geo, r, f, flush);
    } else {
      IndexOfPowerOfTwo(geo, r);
      IndexOfPowerOfTwo(geo, f);
      RawOfPowerOfTwo(r, f);
    }
  }

  lemma IndexIs(geo: Geometry, c: nat)
    requires geo.Valid()
    ensures 0 <= (c / geo.n) % geo.Generations() < geo.Generations() && 0 <= c % geo.n < geo.n
    ensures geo.Index(c) == geo.Word((c / geo.n) % geo.Generations(), c % geo.n)
  {
    Divided(c, geo.n);
    Divided(c / geo.n, geo.Generations());
  }

  lemma DiffExactWithFudge(geo: Geometry, r: nat, f: nat, flush: bool)
    requires geo.Valid() && geo.fudge > 0 && f <= r
    ensures Diff(geo, geo.Index(r), geo.Index(f), flush) == Distance(geo, r - f, flush)
      <==> r / geo.n - f / geo.n < geo.Generations()
  {
    hide *;
    var n, m := geo.n, geo.Generations();
    SomeGeometry(geo);
    Divided(r, n);
    Divided(f, n);
    IndexIs(geo, r);
    IndexIs(geo, f);
    DiffOfWords(geo, (r / n) % m, r % n, (f / n) % m, f % n, flush);
    GapByGeneration(n, r, f);
    CyclicDifference(r / n, f / n, m);
    GenerationsDecide(geo, r / n - f / n, r % n - f % n, flush);
  }

  lemma SomeGeometry(geo: Geometry)
    requires geo.Valid()
    ensures geo.n > 0 && geo.Generations() > 0
  {
  }

  lemma RawOfPowerOfTwo(r: nat, f: nat)
    requires f <= r
    ensures Wrap(Wrap(r) - Wrap(f)) == Wrap(r - f)
    ensures r - f < WORD ==> Wrap(r - f) == r - f
  {
    WrapAdd(r, 0 - Wrap(f));
    WrapShift(r - f, f / WORD);
  }

  /** For a power of two no code is wasted and an index is the counter modulo 2^32. */
  lemma IndexOfPowerOfTwo(geo: Geometry, c: nat)
    requires geo.Valid() && geo.fudge == 0
    ensures geo.Index(c) == Wrap(c)
  {
    hide Times, Pow2, Log2;
    var n, m := geo.n, geo.Generations();
    var q := c / n;
    Divided(c, n);
    Divided(q, m);
    WordFits(geo, q % m, c % n);
    TimesPlus(Times(q / m, m), q % m, n);
    TimesTimes(q / m, m, n);
    DivideIs(c, WORD, q / m, geo.Index(c));
  }

  /** The answer of DiffOfWords, with d generations taken modulo G, against the true distance. */
  lemma GenerationsDecide(geo: Geometry, gens: nat, delta: int, flush: bool)
    requires geo.Valid() && geo.fudge > 0
    requires 0 - geo.n < delta < geo.n
    requires Times(gens, geo.n) + delta >= 0
    ensures gens % geo.Generations() >= 0
    ensures gens < geo.Generations() <==>
      ByGeneration(geo, gens % geo.Generations(), delta, flush) == Distance(geo, Times(gens, geo.n) + delta, flush)
  {
    hide Pow2, Log2, Geometry.Generations, ByGeneration, Distance, Wrap;
    var n, m := geo.n, geo.Generations();
    if gens < m {
      DivideIs(gens, m, 0, gens);
      WithinOneCycle(geo, gens, delta, flush);
    } else {
      Divided(gens, m);
      LapsOf(geo, gens, gens / m, gens % m);
      BeyondOneCycle(geo, Times(gens / m, Times(m, n)), gens % m, delta, flush);
    }
  }

  lemma LapsOf(geo: Geometry, gens: nat, q: nat, d: nat)
    requires geo.Valid() && geo.fudge > 0
    requires gens == Times(q, geo.Generations()) + d && d < geo.Generations() <= gens
    ensures
      var laps := Times(q, Times(geo.Generations(), geo.n));
      Times(gens, geo.n) == laps + Times(d, geo.n) && 2 * geo.n <= laps && laps != WORD
  {
    hide Times, Pow2, Log2, Wrap, Geometry.Generations;
    var n, m := geo.n, geo.Generations();
    TimesFew(m);
    TimesFew(n);
    TimesFew(Times(m, n));
    TimesPlus(Times(q, m), d, n);
    TimesTimes(q, m, n);
    if q > 1 {
      TimesGrows(1, q, Times(m, n));
    }
    TimesGrows(1, m, n);
    NeverOneWord(geo, q);
  }

  lemma WithinOneCycle(geo: Geometry, gens: nat, delta: int, flush: bool)
    requires 0 < geo.n && 4 * geo.n <= 2 * WORD && 0 - geo.n < delta < geo.n
    requires Times(gens, geo.n) + delta >= 0
    ensures gens == 1 ==> 0 <= geo.n + delta < WORD
    ensures ByGeneration(geo, gens, delta, flush) == Distance(geo, Times(gens, geo.n) + delta, flush)
  {
    WrapSmall(geo.n + delta - Keep(geo, flush));
    if gens >= 2 {
      TimesGrows(1, gens, geo.n);
    }
  }

  /** Laps that diff cannot see make its answer wrong. */
  lemma BeyondOneCycle(geo: Geometry, laps: nat, d: nat, delta: int, flush: bool)
    requires 0 < geo.n && 4 * geo.n <= 2 * WORD && 0 - geo.n < delta < geo.n
    requires 2 * geo.n <= laps && laps != WORD
    ensures d == 1 ==> 0 <= geo.n + delta < WORD
    ensures ByGeneration(geo, d, delta, flush) != Distance(geo, laps + Times(d, geo.n) + delta, flush)
  {
    WrapSmall(geo.n + delta - Keep(geo, flush));
  }

  /** A wrong loss could only agree if a whole number of laps took 2^32 frames. */
  lemma NeverOneWord(geo: Geometry, q: nat)
    requires geo.Valid() && geo.fudge > 0
    ensures Times(q, Times(geo.Generations(), geo.n)) != WORD
  {
    var n, m, p := geo.n, geo.Generations(), geo.p2;
    TimesMinus(m, p, n);
    TimesGrows(0, m, geo.fudge);
    if q >= 2 {
      TimesMinus(m, 2 * n, p);
      TimesGrows(0, m, 2 * n - p);
      TimesSwaps(m, 2 * n);
      TimesPlus(n, n, m);
      TimesSwaps(m, n);
      if q > 2 {
        TimesGrows(1, q, Times(m, n));
      }
    }
  }
}
