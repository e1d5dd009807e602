/**
 16-bit minifloats for gains and samples (audio_utils/minifloat.c and sample.c), over the real
 numbers. A code has 3 exponent bits over 13 or 12 mantissa bits; h is the hidden bit, 2^13 or
 2^12, so that a code is exponent * h + mantissa. The two parts that frexpf returns are
 parameters, tied to the number by Parts.
 */
module Minifloat {
  import opened Bits

  const EXPONENT_MAX: int := 7
  const EXCESS: int := 6
  const GAIN: nat := 8192
  const SAMPLE: nat := 4096
  const SIGN_MASK: nat := 0x8000

  predicate Hidden(h: nat) {
    h == GAIN || h == SAMPLE
  }

  function MantissaBits(h: nat): nat {
    if h == GAIN then 13 else 12
  }

  /** 2^k */
  function P(k: nat): (p: real)
    ensures p >= 1.0
  {
    if k == 0 then 1.0 else 2.0 * P(k - 1)
  }

  /** ldexp */
  function Scaled(x: real, e: int): real {
    if e >= 0 then x * P(e) else x / P(-e)
  }

  /** frexp: v is r * 2^e with r in [0.5, 1). */
  predicate Parts(v: real, r: real, e: int) {
    0.5 <= r < 1.0 && if e >= 0 then v == r * P(e) else r == v * P(-e)
  }

  /** Every positive number has such parts. */
  lemma {:induction false} PartsExist(v: real) returns (r: real, e: int)
    requires v > 0.0
    ensures Parts(v, r, e)
    decreases v.Floor, (1.0 / v).Floor
  {
    if v >= 1.0 {
      Halved(v);
      r, e := PartsExist(v / 2.0);
      PartsDoubled(v / 2.0, r, e);
      e := e + 1;
    } else if v < 0.5 {
      Doubled(v);
      r, e := PartsExist(v * 2.0);
      PartsHalved(v * 2.0, r, e);
      e := e - 1;
    } else {
      r, e := v, 0;
    }
  }

  lemma Halved(v: real)
    requires v >= 1.0
    ensures 0 <= (v / 2.0).Floor < v.Floor
  {
  }

  lemma Doubled(v: real)
    requires 0.0 < v < 0.5
    ensures (v * 2.0).Floor == v.Floor == 0
    ensures 0 <= (1.0 / (v * 2.0)).Floor < (1.0 / v).Floor
  {
    var w := 1.0 / v;
    assert w * v == 1.0;
    StrictlyBelow(2.0, w, v);
    assert (w / 2.0) * (v * 2.0) == w * v;
    assert 1.0 / (v * 2.0) == w / 2.0 by {
      QuotientIs(v * 2.0, w / 2.0);
    }
  }

  lemma QuotientIs(v: real, w: real)
    requires v > 0.0 && w * v == 1.0
    ensures 1.0 / v == w
  {
    var u := 1.0 / v;
    assert u * v == 1.0;
    assert (u - w) * v == u * v - w * v == 0.0;
  }

  lemma PartsDoubled(v: real, r: real, e: int)
    requires Parts(v, r, e)
    ensures Parts(2.0 * v, r, e + 1)
  {
    if e >= 0 {
      assert P(e + 1) == 2.0 * P(e);
      assert r * (2.0 * P(e)) == 2.0 * (r * P(e));
    } else if e == -1 {
      assert P(1) == 2.0 && P(0) == 1.0;
    } else {
      assert P(-e) == 2.0 * P(-e - 1);
      assert v * (2.0 * P(-e - 1)) == (2.0 * v) * P(-e - 1);
    }
  }

  lemma PartsHalved(v: real, r: real, e: int)
    requires Parts(v, r, e)
    ensures Parts(v / 2.0, r, e - 1)
  {
    if e <= 0 {
      assert P(1 - e) == 2.0 * P(-e);
      assert (v / 2.0) * (2.0 * P(-e)) == v * P(-e);
      assert e == 0 ==> P(0) == 1.0;
    } else {
      assert P(e) == 2.0 * P(e - 1);
      assert r * (2.0 * P(e - 1)) == 2.0 * (r * P(e - 1));
    }
  }

  // ---- decoding

  /** float_from_gain, and float_from_sample without the sign. */
  function Decode(code: nat, h: nat): real
    requires Hidden(h) && code < 8 * h
  {
    var mantissa, exponent := code % h, code / h;
    var significand := if exponent > 0 then Or(h, mantissa) else 2 * mantissa;
    Scaled(significand as real / (2 * h) as real, exponent - EXCESS)
  }

  /** The decoded value in units of the smallest one, 1 / (64 h). */
  function Units(code: nat, h: nat): nat
    requires Hidden(h) && code < 8 * h
  {
    var mantissa, exponent := code % h, code / h;
    if exponent == 0 then mantissa else (h + mantissa) * Pow2(exponent - 1)
  }

  /** The distance to the next code. */
  function Step(code: nat, h: nat): nat
    requires Hidden(h)
  {
    if code / h == 0 then 1 else Pow2(code / h - 1)
  }

  lemma HiddenOr(mantissa: nat, h: nat)
    requires Hidden(h) && mantissa < h
    ensures Or(h, mantissa) == h + mantissa
  {
    var k := MantissaBits(h);
    assert Pow2(12) == 4096;
    assert Pow2(13) == 8192;
    RemainderIs(h, Pow2(k), 1, 0);
    OrDisjoint(h, mantissa, k);
  }

  /** The codes are evenly spaced within an exponent, and without a gap between two. */
  lemma NextUnits(code: nat, h: nat)
    requires Hidden(h) && code + 1 < 8 * h
    ensures Units(code + 1, h) == Units(code, h) + Step(code, h)
  {
    hide Pow2;
    var m, x := code % h, code / h;
    if m + 1 < h {
      RemainderIs(code + 1, h, x, m + 1);
      if x > 0 {
        OneMore(h + m, Pow2(x - 1));
      }
    } else {
      RemainderIs(code + 1, h, x + 1, 0);
      NextExponent(x, h);
    }
  }

  lemma OneMore(a: nat, p: nat)
    ensures (a + 1) * p == a * p + p
  {
  }

  lemma NextExponent(x: nat, h: nat)
    requires Hidden(h)
    ensures x == 0 ==> Pow2(x) == 1
    ensures x > 0 ==> h * Pow2(x) == (2 * h - 1) * Pow2(x - 1) + Pow2(x - 1)
  {
  }

  lemma {:induction false} UnitsIncrease(a: nat, b: nat, h: nat)
    requires Hidden(h) && a < b < 8 * h
    ensures Units(a, h) + Step(a, h) <= Units(b, h)
    decreases b - a
  {
    hide Units, Step;
    NextUnits(b - 1, h);
    if a + 1 < b {
      UnitsIncrease(a, b - 1, h);
      StepPositive(b - 1, h);
    }
  }

  lemma StepPositive(code: nat, h: nat)
    requires Hidden(h)
    ensures Step(code, h) >= 1
  {
  }

  lemma Powers()
    ensures P(0) == 1.0 && P(1) == 2.0 && P(2) == 4.0 && P(3) == 8.0 && P(4) == 16.0 && P(5) == 32.0 && P(6) == 64.0
    ensures Pow2(0) == 1 && Pow2(1) == 2 && Pow2(2) == 4 && Pow2(3) == 8 && Pow2(4) == 16 && Pow2(5) == 32 && Pow2(6) == 64
  {
    assert P(3) == 8.0 && Pow2(3) == 8;
  }

  /** 2^(x - 6) scaled up by 64. */
  lemma ScaledBy64(y: real, x: nat)
    requires x <= 7
    ensures 64.0 * Scaled(y, x - EXCESS) == if x == 0 then y else 2.0 * (y * Pow2(x - 1) as real)
  {
    Powers();
    hide P, Pow2;
    if x == 0 {
    } else if x == 1 {
    } else if x == 2 {
    } else if x == 3 {
    } else if x == 4 {
    } else if x == 5 {
    } else if x == 6 {
    }
  }

  /** A code stands for its number of units. */
  lemma DecodeIs(code: nat, h: nat)
    requires Hidden(h) && code < 8 * h
    ensures Decode(code, h) * (64 * h) as real == Units(code, h) as real
  {
    hide Scaled, Or, Pow2;
    var m, x := code % h, code / h;
    HiddenOr(m, h);
    var significand: nat := if x > 0 then h + m else 2 * m;
    var y := significand as real / (2 * h) as real;
    assert y * (2 * h) as real == significand as real;
    ScaledBy64(y, x);
    if x > 0 {
      var p := Pow2(x - 1);
      assert (y * p as real) * (2 * h) as real == (y * (2 * h) as real) * p as real;
    }
  }

  // ---- encoding

  /** gain_from_float, and sample_from_float of a positive number. */
  function Encode(v: real, r: real, e: int, h: nat): nat
    requires Hidden(h) && (v > 0.0 ==> Parts(v, r, e))
  {
    if v <= 0.0 then 0
    else if v >= 2.0 then 8 * h - 1
    else
      var exp := e + EXCESS;
      if exp > EXPONENT_MAX then 8 * h - 1
      else if -exp >= MantissaBits(h) then 0
      else
        var mantissa: nat := Significand(r, h);
        if exp > 0 then Joined(exp, mantissa, h)
        else mantissa / Pow2(1 - exp) % h
  }

  /** (int) (r * ONE_FLOAT) */
  function Significand(r: real, h: nat): (m: nat)
    requires Hidden(h) && 0.5 <= r < 1.0
    ensures h <= m < 2 * h
  {
    (r * (2 * h) as real).Floor
  }

  /** The exponent and the significand without its hidden bit. */
  function Joined(exp: nat, mantissa: nat, h: nat): (code: nat)
    requires Hidden(h) && h <= mantissa < 2 * h
    ensures code == exp * h + (mantissa - h)
  {
    WithoutHidden(exp, mantissa, h);
    Or(exp * h, And(mantissa, -1 - h))
  }

  lemma WithoutHidden(exp: nat, mantissa: nat, h: nat)
    requires Hidden(h) && h <= mantissa < 2 * h
    ensures Or(exp * h, And(mantissa, -1 - h)) == exp * h + (mantissa - h)
  {
    hide And, Or;
    var k := MantissaBits(h);
    assert Pow2(12) == 4096;
    assert Pow2(13) == 8192;
    hide Pow2;
    AndNot(mantissa, h);
    OneBit(mantissa, k);
    RemainderIs(mantissa, h, 1, mantissa - h);
    AndCommutes(mantissa, h);
    RemainderIs(exp * h, h, exp, 0);
    OrDisjoint(exp * h, mantissa - h, k);
  }

  lemma {:induction false} AndNot(x: int, y: int)
    ensures And(x, -1 - y) == x - And(x, y)
    decreases Abs(x) + Abs(y)
  {
    if !(Flat(x) && Flat(y)) {
      AndNot(x / 2, y / 2);
      assert (-1 - y) / 2 == -1 - y / 2 && (-1 - y) % 2 == 1 - y % 2;
    }
  }

  lemma {:induction false} PIsPow2(k: nat)
    ensures P(k) == Pow2(k) as real
  {
    if k > 0 {
      PIsPow2(k - 1);
    }
  }

  lemma {:induction false} PAdd(j: nat, k: nat)
    ensures P(j + k) == P(j) * P(k)
  {
    if j > 0 {
      PAdd(j - 1, k);
      assert 2.0 * (P(j - 1) * P(k)) == (2.0 * P(j - 1)) * P(k);
    }
  }

  lemma {:induction false} PMonotone(j: nat, k: nat)
    requires j <= k
    ensures P(j) <= P(k)
    decreases k
  {
    if j < k {
      PMonotone(j, k - 1);
    }
  }

  /** The number in units, v * 64 h, from its parts: for the normal exponents. */
  lemma NormalUnits(v: real, r: real, e: int, h: nat)
    requires Hidden(h) && Parts(v, r, e) && -5 <= e <= 1
    ensures v * (64 * h) as real == (r * (2 * h) as real) * P(e + 5)
  {
    Powers();
    hide P;
    if e == -5 {
    } else if e == -4 {
    } else if e == -3 {
    } else if e == -2 {
    } else if e == -1 {
    } else if e == 0 {
    }
  }

  /** And for the others. */
  lemma DenormalUnits(v: real, r: real, e: int, h: nat)
    requires Hidden(h) && Parts(v, r, e) && e <= -6
    ensures (v * (64 * h) as real) * P(-5 - e) == r * (2 * h) as real
  {
    Powers();
    PAdd(5, -5 - e);
    hide P;
    var q := P(-5 - e);
    assert v * (32.0 * q) == 32.0 * (v * q);
    if h == GAIN {
      assert (v * 524288.0) * q == 524288.0 * (v * q);
    } else {
      assert (v * 262144.0) * q == 262144.0 * (v * q);
    }
  }

  lemma ExponentBelowTwo(v: real, r: real, e: int)
    requires Parts(v, r, e) && v < 2.0
    ensures e <= 1
  {
    if e >= 2 {
      LargeParts(v, r, e);
    }
  }

  lemma LargeParts(v: real, r: real, e: int)
    requires Parts(v, r, e) && e >= 2
    ensures v >= 2.0
  {
    Powers();
    PMonotone(2, e);
    assert (r - 0.5) * P(e) >= 0.0;
    assert (r - 0.5) * P(e) == r * P(e) - 0.5 * P(e);
  }

  /** code is the greatest code whose value is not above v: the next one is. */
  ghost predicate Brackets(code: nat, v: real, h: nat)
    requires Hidden(h)
  {
    && code < 8 * h && Units(code, h) as real <= v * (64 * h) as real
    && (code + 1 < 8 * h ==> v * (64 * h) as real < (Units(code, h) + Step(code, h)) as real)
  }

  lemma ScaleBounds(m: nat, x: real, p: real)
    requires m as real <= x < (m + 1) as real && p > 0.0
    ensures m as real * p <= x * p < (m + 1) as real * p
  {
    assert (x - m as real) * p >= 0.0 && ((m + 1) as real - x) * p > 0.0;
    assert (x - m as real) * p == x * p - m as real * p;
    assert ((m + 1) as real - x) * p == (m + 1) as real * p - x * p;
  }

  lemma NormalBounds(m: nat, x: real, p: nat, w: real)
    requires m as real <= x < (m + 1) as real && p > 0 && w == x * p as real
    ensures (m * p) as real <= w < (m * p + p) as real
  {
    ScaleBounds(m, x, p as real);
    RealProduct(m, p);
    RealProduct(m + 1, p);
    assert (m + 1) * p == m * p + p;
  }

  lemma NormalBrackets(v: real, r: real, e: int, h: nat)
    requires Hidden(h) && Parts(v, r, e) && -5 <= e <= 1
    ensures Brackets(Joined(e + EXCESS, Significand(r, h), h), v, h)
  {
    hide P, Pow2, Units, Step, Joined, Brackets, Parts, Significand;
    SignificandBounds(v, r, e, h);
    NormalUnits(v, r, e, h);
    var m, exp := Significand(r, h), e + EXCESS;
    JoinedParts(Joined(exp, m, h), m, exp, h);
    NormalInside(Joined(exp, m, h), m, exp, h, r * (2 * h) as real, v * (64 * h) as real);
    BracketsIs(Joined(exp, m, h), v, h);
  }

  lemma NormalInside(code: nat, m: nat, exp: nat, h: nat, x: real, w: real)
    requires Hidden(h) && 1 <= exp <= 7 && h <= m < 2 * h && code / h == exp && code % h == m - h
    requires m as real <= x < (m + 1) as real && w == x * P(exp - 1)
    ensures code < 8 * h && Units(code, h) as real <= w < (Units(code, h) + Step(code, h)) as real
  {
    hide P, Pow2, Units, Step;
    NormalCode(code, m, exp, h);
    PIsPow2(exp - 1);
    NormalBounds(m, x, Pow2(exp - 1), w);
  }

  lemma SignificandBounds(v: real, r: real, e: int, h: nat)
    requires Hidden(h) && Parts(v, r, e)
    ensures 0.5 <= r < 1.0
    ensures Significand(r, h) as real <= r * (2 * h) as real < (Significand(r, h) + 1) as real
  {
  }

  lemma BracketsIs(code: nat, v: real, h: nat)
    requires Hidden(h) && code < 8 * h && Units(code, h) as real <= v * (64 * h) as real < (Units(code, h) + Step(code, h)) as real
    ensures Brackets(code, v, h)
  {
    hide Units, Step;
  }

  lemma JoinedParts(code: nat, m: nat, exp: nat, h: nat)
    requires Hidden(h) && h <= m < 2 * h && code == exp * h + (m - h)
    ensures code / h == exp && code % h == m - h
  {
    RemainderIs(code, h, exp, m - h);
  }

  lemma RealProduct(a: nat, b: nat)
    ensures (a * b) as real == a as real * b as real
  {
  }

  lemma NormalCode(code: nat, m: nat, exp: nat, h: nat)
    requires Hidden(h) && 1 <= exp <= 7 && h <= m < 2 * h && code / h == exp && code % h == m - h
    ensures code < 8 * h && Units(code, h) == m * Pow2(exp - 1) && Step(code, h) == Pow2(exp - 1)
  {
    hide Pow2;
    assert code == exp * h + (m - h);
  }

  lemma DenormalBrackets(v: real, r: real, e: int, h: nat)
    requires Hidden(h) && Parts(v, r, e) && e <= -6
    ensures Brackets(Significand(r, h) / Pow2(-5 - e) % h, v, h)
  {
    var m, q := Significand(r, h), Pow2(-5 - e);
    assert q >= 2;
    DenormalUnits(v, r, e, h);
    PIsPow2(-5 - e);
    var n, w := m / q, v * (64 * h) as real;
    Quotient(m, q, h);
    assert n % h == n by { RemainderIs(n, h, 0, n); }
    DenormalCode(n, h);
    hide P, Pow2, Units, Step;
    QuotientBounds(m, q, r * (2 * h) as real, w);
  }

  lemma Quotient(m: nat, q: nat, h: nat)
    requires q >= 2 && m < 2 * h
    ensures m / q < h && (m / q) * q <= m < (m / q) * q + q
  {
    var n := m / q;
    assert n * q <= m < n * q + q;
    if n >= h {
      ProductAtLeast(n, q, h);
    }
  }

  lemma ProductAtLeast(n: nat, q: nat, h: nat)
    requires q >= 2 && n >= h
    ensures n * q >= 2 * h
  {
    assert (n - h) * q >= 0 && h * (q - 2) >= 0;
    assert (n - h) * q == n * q - h * q && h * (q - 2) == h * q - 2 * h;
  }

  lemma DenormalCode(code: nat, h: nat)
    requires Hidden(h) && code < h
    ensures Units(code, h) == code && Step(code, h) == 1
  {
    RemainderIs(code, h, 0, code);
  }

  /** Dividing the truncated significand truncates the number. */
  lemma QuotientBounds(m: nat, q: nat, x: real, w: real)
    requires q > 0 && m as real <= x < (m + 1) as real && w * q as real == x
    ensures (m / q) as real <= w < (m / q) as real + 1.0
  {
    var n := m / q;
    var k := n * q;
    RealProduct(n, q);
    assert k <= m < k + q;
    TruncatedBounds(n as real, q as real, k, m, q, x, w);
  }

  lemma TruncatedBounds(n: real, t: real, k: int, m: int, q: int, x: real, w: real)
    requires k as real == n * t && t == q as real && t > 0.0 && k <= m < k + q
    requires m as real <= x < (m + 1) as real && w * t == x
    ensures n <= w < n + 1.0
  {
    var low, high := n * t, (n + 1.0) * t;
    assert high == low + t;
    assert low <= m as real;
    assert (m + 1) as real <= high;
    assert low <= x < high;
    Below(n, w, t);
    StrictlyBelow(w, n + 1.0, t);
  }

  lemma Below(a: real, b: real, t: real)
    requires t > 0.0 && a * t <= b * t
    ensures a <= b
  {
    assert (b - a) * t == b * t - a * t;
    Positive(b - a, t);
  }

  lemma StrictlyBelow(a: real, b: real, t: real)
    requires t > 0.0 && a * t < b * t
    ensures a < b
  {
    assert (b - a) * t == b * t - a * t;
    StrictlyPositive(b - a, t);
  }

  lemma Positive(a: real, t: real)
    requires t > 0.0 && a * t >= 0.0
    ensures a >= 0.0
  {
  }

  lemma StrictlyPositive(a: real, t: real)
    requires t > 0.0 && a * t > 0.0
    ensures a > 0.0
  {
  }

  /** Numbers below one unit. */
  lemma UnderflowBrackets(v: real, r: real, e: int, h: nat)
    requires Hidden(h) && v > 0.0 && Parts(v, r, e) && -(e + EXCESS) >= MantissaBits(h)
    ensures Brackets(0, v, h)
  {
    DenormalUnits(v, r, e, h);
    var q, w := P(-5 - e), v * (64 * h) as real;
    PMonotone(MantissaBits(h) + 1, -5 - e);
    LargePowers();
    DenormalCode(0, h);
    hide P;
    assert q >= (2 * h) as real;
    assert w * q < (2 * h) as real <= 1.0 * q;
    StrictlyBelow(w, 1.0, q);
  }

  lemma LargePowers()
    ensures P(13) == 8192.0 && P(14) == 16384.0
  {
    assert P(7) == 128.0 && P(10) == 1024.0;
    assert P(13) == 8192.0;
  }

  lemma GreatestUnits(h: nat)
    requires Hidden(h)
    ensures Units(8 * h - 1, h) <= 128 * h
  {
    Powers();
    RemainderIs(8 * h - 1, h, 7, h - 1);
  }

  /** Any positive number is bracketed by its code. */
  lemma EncodeBrackets(v: real, r: real, e: int, h: nat)
    requires Hidden(h) && v > 0.0 && Parts(v, r, e)
    ensures Brackets(Encode(v, r, e, h), v, h)
  {
    hide Parts, Units, Step, Joined, Significand, Pow2;
    if v >= 2.0 {
      GreatestUnits(h);
    } else {
      ExponentBelowTwo(v, r, e);
      if -(e + EXCESS) >= MantissaBits(h) {
        UnderflowBrackets(v, r, e, h);
      } else if e + EXCESS > 0 {
        NormalBrackets(v, r, e, h);
      } else {
        DenormalBrackets(v, r, e, h);
      }
    }
  }

  // ---- the main results

  lemma UnitsCompare(b: nat, v: real, h: nat)
    requires Hidden(h) && b < 8 * h
    ensures Decode(b, h) <= v <==> Units(b, h) as real <= v * (64 * h) as real
  {
    hide Decode, Units;
    DecodeIs(b, h);
  }

  lemma BracketsDecide(code: nat, v: real, h: nat, b: nat)
    requires Hidden(h) && Brackets(code, v, h) && b < 8 * h
    ensures Units(b, h) as real <= v * (64 * h) as real <==> b <= code
  {
    hide Units, Step;
    if b < code {
      UnitsIncrease(b, code, h);
      StepPositive(b, h);
    } else if b > code {
      UnitsIncrease(code, b, h);
    }
  }

  lemma ZeroDecides(v: real, h: nat, b: nat)
    requires Hidden(h) && b < 8 * h && v == 0.0
    ensures Decode(b, h) <= v <==> b == 0
  {
    UnitsCompare(b, v, h);
    hide Decode, Units, Step;
    DenormalCode(0, h);
    if b > 0 {
      UnitsIncrease(0, b, h);
    }
  }

  /** Encoding gives the greatest code whose decoded value is not above v. */
  lemma EncodeIsGreatest(v: real, r: real, e: int, h: nat, b: nat)
    requires Hidden(h) && v >= 0.0 && (v > 0.0 ==> Parts(v, r, e)) && b < 8 * h
    ensures Encode(v, r, e, h) < 8 * h
    ensures Decode(b, h) <= v <==> b <= Encode(v, r, e, h)
  {
    hide Decode, Units, Step, Parts;
    if v == 0.0 {
      ZeroDecides(v, h, b);
    } else {
      EncodeBrackets(v, r, e, h);
      hide Encode;
      UnitsCompare(b, v, h);
      BracketsDecide(Encode(v, r, e, h), v, h, b);
    }
  }

  /** So it keeps the order, */
  lemma EncodeMonotone(v: real, r: real, e: int, w: real, r': real, e': int, h: nat)
    requires Hidden(h) && v <= w && (v > 0.0 ==> Parts(v, r, e)) && (w > 0.0 ==> Parts(w, r', e'))
    ensures Encode(v, r, e, h) <= Encode(w, r', e', h)
  {
    if v > 0.0 {
      hide Encode, Decode, Parts;
      EncodeIsGreatest(v, r, e, h, 0);
      EncodeIsGreatest(v, r, e, h, Encode(v, r, e, h));
      EncodeIsGreatest(w, r', e', h, Encode(v, r, e, h));
    }
  }

  /** and gives every code back from its value. */
  lemma EncodeDecode(code: nat, r: real, e: int, h: nat)
    requires Hidden(h) && code < 8 * h && (Decode(code, h) > 0.0 ==> Parts(Decode(code, h), r, e))
    ensures Decode(code, h) >= 0.0 && Encode(Decode(code, h), r, e, h) == code
  {
    hide Encode, Decode, Parts;
    var v := Decode(code, h);
    DecodeNonnegative(code, h);
    EncodeIsGreatest(v, r, e, h, code);
    var back := Encode(v, r, e, h);
    EncodeIsGreatest(v, r, e, h, back);
    if code < back {
      DecodeIncreases(code, back, h);
    }
  }

  lemma DecodeNonnegative(code: nat, h: nat)
    requires Hidden(h) && code < 8 * h
    ensures Decode(code, h) >= 0.0 && (Decode(code, h) == 0.0 <==> code == 0)
  {
    DecodeIs(code, h);
    hide Decode, Units, Step;
    DenormalCode(0, h);
    if code > 0 {
      UnitsIncrease(0, code, h);
    }
  }

  /** Codes are ordered as their values are. */
  lemma DecodeIncreases(a: nat, b: nat, h: nat)
    requires Hidden(h) && a < b < 8 * h
    ensures Decode(a, h) < Decode(b, h)
  {
    hide Decode, Units, Step;
    DecodeIs(a, h);
    DecodeIs(b, h);
    UnitsIncrease(a, b, h);
    StepPositive(a, h);
  }

  /** GAIN_MINIFLOAT_UNITY */
  lemma UnityIsOne()
    ensures Decode(0xE000, GAIN) == 1.0
  {
    DecodeIs(0xE000, GAIN);
    hide Decode;
    RemainderIs(0xE000, GAIN, 7, 0);
    Powers();
  }

  // ---- samples

  /** frexp of the magnitude. */
  predicate SampleParts(v: real, r: real, e: int) {
    v != 0.0 ==> Parts(if v < 0.0 then -v else v, r, e)
  }

  /** sample_from_float of a number that is not zero, whose magnitude is w; the sign is put on
      without a test whether the code is zero. */
  function SignedSample(w: real, negative: bool, r: real, e: int): int
    requires w > 0.0 && Parts(w, r, e)
  {
    if w < 2.0 && Underflows(e) then 0
    else
      var code := Encode(w, r, e, SAMPLE);
      if negative then Or(code, SIGN_MASK) else code
  }

  /** The test that returns 0 for magnitudes below the smallest sample. */
  predicate Underflows(e: int) {
    -(e + EXCESS) >= MantissaBits(SAMPLE)
  }

  /** sample_from_float; the code is the 16-bit pattern. */
  function SampleFromFloat(v: real, r: real, e: int): int
    requires SampleParts(v, r, e)
  {
    if v == 0.0 then 0 else SignedSample(if v < 0.0 then -v else v, v < 0.0, r, e)
  }

  /** Behind that test the code is not zero, so that the sign makes no negative zero of it. */
  lemma EncodePositive(v: real, r: real, e: int)
    requires v > 0.0 && Parts(v, r, e)
    ensures Encode(v, r, e, SAMPLE) > 0 <==> v >= 2.0 || !Underflows(e)
  {
    hide Parts, Joined, Significand, Pow2;
    if v < 2.0 && !Underflows(e) {
      ExponentBelowTwo(v, r, e);
      SignificandBounds(v, r, e, SAMPLE);
      if e + EXCESS <= 0 {
        DenormalPositive(Significand(r, SAMPLE), -5 - e);
      }
    }
  }

  lemma DenormalPositive(m: nat, k: nat)
    requires SAMPLE <= m < 2 * SAMPLE && 1 <= k <= 12
    ensures m / Pow2(k) % SAMPLE > 0
  {
    PowerRange(k);
    hide Pow2;
    LargeQuotient(m, Pow2(k), SAMPLE);
  }

  lemma PowerRange(k: nat)
    requires 1 <= k <= 12
    ensures 2 <= Pow2(k) <= 4096
  {
    assert Pow2(12) == 4096;
    Pow2Monotone(k, 12);
    Pow2Monotone(1, k);
  }

  lemma LargeQuotient(m: nat, q: nat, h: nat)
    requires 2 <= q <= h <= m < 2 * h
    ensures m / q % h > 0
  {
    Quotient(m, q, h);
    RemainderIs(m / q, h, 0, m / q);
  }

  /** float_from_sample */
  function FloatFromSample(a: nat): real
    requires a < 0x1_0000
  {
    if a < SIGN_MASK then Decode(a, SAMPLE) else -Decode(a - SIGN_MASK, SAMPLE)
  }

  lemma SignOr(code: nat)
    requires code < SIGN_MASK
    ensures Or(code, SIGN_MASK) == SIGN_MASK + code
  {
    hide Or;
    assert Pow2(15) == 0x8000;
    RemainderIs(SIGN_MASK, Pow2(15), 1, 0);
    OrDisjoint(SIGN_MASK, code, 15);
    OrCommutes(code, SIGN_MASK);
  }

  /** The magnitude is that of the greatest sample not above it, the sign is kept, and there is no negative zero. */
  lemma SampleKeepsSign(v: real, r: real, e: int, b: nat)
    requires SampleParts(v, r, e) && b < SIGN_MASK
    ensures SampleFromFloat(v, r, e) < 0x1_0000 && SampleFromFloat(v, r, e) != SIGN_MASK
    ensures v >= 0.0 ==> SampleFromFloat(v, r, e) < SIGN_MASK && (FloatFromSample(b) <= v <==> b <= SampleFromFloat(v, r, e))
    ensures v < 0.0 && SampleFromFloat(v, r, e) != 0 ==>
              SampleFromFloat(v, r, e) > SIGN_MASK && (-FloatFromSample(b) >= v <==> b <= SampleFromFloat(v, r, e) - SIGN_MASK)
    ensures v < 0.0 && SampleFromFloat(v, r, e) == 0 ==> (-FloatFromSample(b) >= v <==> b == 0)
  {
    hide Encode, Decode, Parts, Or, Underflows;
    var w := if v < 0.0 then -v else v;
    EncodeIsGreatest(w, r, e, SAMPLE, b);
    if v != 0.0 {
      EncodePositive(w, r, e);
      SignOr(Encode(w, r, e, SAMPLE));
    } else {
      ZeroDecides(v, SAMPLE, b);
    }
  }

  /** Decoding and encoding gives every pattern back but negative zero. */
  lemma SampleRoundTripIff(a: nat, r: real, e: int)
    requires a < 0x1_0000
    requires SampleParts(FloatFromSample(a), r, e)
    ensures SampleFromFloat(FloatFromSample(a), r, e) == a <==> a != SIGN_MASK
  {
    hide Encode, Decode, Parts, Or, Underflows;
    var code := a % SIGN_MASK;
    DecodeNonnegative(code, SAMPLE);
    EncodeDecode(code, r, e, SAMPLE);
    if code > 0 {
      EncodePositive(Decode(code, SAMPLE), r, e);
    }
    SignOr(code);
    NegativeZero(r, e);
  }

  lemma NegativeZero(r: real, e: int)
    ensures FloatFromSample(SIGN_MASK) == 0.0 && SampleFromFloat(0.0, r, e) == 0
  {
    hide Decode;
    DecodeNonnegative(0, SAMPLE);
  }
}
