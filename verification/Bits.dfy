/**
 The C bit operators on two's-complement integers of any width, defined one bit at a time,
 and the arithmetic facts about them that the other modules rest on.
 */
module Bits {

  function Abs(x: int): nat {
    if x < 0 then -x else x
  }

  /** The sign-extended words 0 and -1: all their bits are equal. */
  predicate Flat(x: int) {
    x == 0 || x == -1
  }

  function And(x: int, y: int): int
    decreases Abs(x) + Abs(y)
  {
    if Flat(x) && Flat(y) then
      if x == -1 && y == -1 then -1 else 0
    else
      2 * And(x / 2, y / 2) + (if x % 2 == 1 && y % 2 == 1 then 1 else 0)
  }

  function Or(x: int, y: int): int
    decreases Abs(x) + Abs(y)
  {
    if Flat(x) && Flat(y) then
      if x == -1 || y == -1 then -1 else 0
    else
      2 * Or(x / 2, y / 2) + (if x % 2 == 1 || y % 2 == 1 then 1 else 0)
  }

  function Xor(x: int, y: int): int
    decreases Abs(x) + Abs(y)
  {
    if Flat(x) && Flat(y) then
      if x != y then -1 else 0
    else
      2 * Xor(x / 2, y / 2) + (if x % 2 != y % 2 then 1 else 0)
  }

  function Pow2(k: nat): (p: int)
    ensures p >= 1
    ensures k > 0 ==> p % 2 == 0
  {
    if k == 0 then 1 else 2 * Pow2(k - 1)
  }

  /** Position of the most significant set bit. */
  function Log2(v: int): nat
    requires v > 0
  {
    if v == 1 then 0 else 1 + Log2(v / 2)
  }

  // ---- facts about powers of two

  lemma {:induction false} Pow2Add(j: nat, k: nat)
    ensures Pow2(j + k) == Pow2(j) * Pow2(k)
  {
    if j > 0 {
      Pow2Add(j - 1, k);
    }
  }

  lemma {:induction false} Pow2Monotone(j: nat, k: nat)
    requires j <= k
    ensures Pow2(j) <= Pow2(k)
    ensures j < k ==> 2 * Pow2(j) <= Pow2(k)
    decreases k - j
  {
    if j < k {
      Pow2Monotone(j, k - 1);
    }
  }

  lemma {:induction false} Log2Bounds(v: int)
    requires v > 0
    ensures Pow2(Log2(v)) <= v < 2 * Pow2(Log2(v))
  {
    if v > 1 {
      Log2Bounds(v / 2);
    }
  }

  // ---- facts about the operators

  lemma {:induction false} AndZero(x: int)
    ensures And(x, 0) == 0 && And(0, x) == 0
    decreases Abs(x)
  {
    if !Flat(x) {
      AndZero(x / 2);
    }
  }

  lemma {:induction false} OrZero(x: int)
    ensures Or(x, 0) == x && Or(0, x) == x
    decreases Abs(x)
  {
    if !Flat(x) {
      OrZero(x / 2);
    }
  }

  lemma {:induction false} XorZero(x: int)
    ensures Xor(x, 0) == x && Xor(0, x) == x
    decreases Abs(x)
  {
    if !Flat(x) {
      XorZero(x / 2);
    }
  }

  /** Masking with 2^k - 1 is the remainder by 2^k, for negative words too. */
  lemma {:induction false} AndMask(x: int, k: nat)
    ensures And(x, Pow2(k) - 1) == x % Pow2(k)
    decreases k
  {
    if k == 0 {
      AndZero(x);
    } else {
      AndMask(x / 2, k - 1);
      HalfRemainder(x, Pow2(k - 1));
      assert (Pow2(k) - 1) / 2 == Pow2(k - 1) - 1;
      assert (Pow2(k) - 1) % 2 == 1;
      if Flat(x) {
        assert Pow2(k) - 1 >= 1;
      }
    }
  }

  lemma HalfRemainder(x: int, m: int)
    requires m > 0
    ensures x % (2 * m) == 2 * ((x / 2) % m) + x % 2
  {
    var q := (x / 2) / m;
    var r := (x / 2) % m;
    assert x == 2 * (q * m + r) + x % 2;
    assert x == q * (2 * m) + (2 * r + x % 2);
    RemainderIs(x, 2 * m, q, 2 * r + x % 2);
  }

  lemma MulLarge(e: int, m: int)
    requires e != 0 && m > 0
    ensures e * m >= m || e * m <= -m
  {
    if e >= 1 {
      assert (e - 1) * m >= 0;
    } else {
      assert (-e - 1) * m >= 0;
    }
  }

  /** Uniqueness of quotient and remainder. */
  lemma RemainderIs(x: int, m: int, q: int, r: int)
    requires 0 <= r < m
    requires x == q * m + r
    ensures x % m == r && x / m == q
  {
    var e := x / m - q;
    assert e * m == (x / m) * m - q * m;
    if e != 0 {
      MulLarge(e, m);
      assert false;
    }
  }

  lemma DivModBounds(c: nat, n: int)
    requires n > 0
    ensures 0 <= c / n && 0 <= c % n < n && c == (c / n) * n + c % n
  {
  }

  /** The first k of f blocks of n, and one more. */
  lemma OneAhead(k: nat, f: nat, n: nat)
    requires k < f
    ensures k * n + n == (k + 1) * n <= f * n
  {
    assert (f - k - 1) * n >= 0;
    assert (f - k - 1) * n == f * n - (k + 1) * n;
  }

  /** A half adder: the carries count twice. */
  lemma {:induction false} SumIsCarriesPlusXor(x: int, y: int)
    ensures x + y == 2 * And(x, y) + Xor(x, y)
    decreases Abs(x) + Abs(y)
  {
    if !(Flat(x) && Flat(y)) {
      SumIsCarriesPlusXor(x / 2, y / 2);
    }
  }

  /** Testing one bit, and toggling it. */
  lemma {:induction false} OneBit(x: nat, k: nat)
    ensures And(Pow2(k), x) == (if (x / Pow2(k)) % 2 == 1 then Pow2(k) else 0)
    ensures Xor(x, Pow2(k)) == (if (x / Pow2(k)) % 2 == 1 then x - Pow2(k) else x + Pow2(k))
    decreases k
  {
    if k == 0 {
      AndZero(x / 2);
      XorZero(x / 2);
    } else {
      OneBit(x / 2, k - 1);
      QuotientOfHalf(x, Pow2(k - 1));
    }
  }

  lemma QuotientOfHalf(x: nat, m: int)
    requires m > 0
    ensures x / (2 * m) == (x / 2) / m
  {
    var q := (x / 2) / m;
    var r := (x / 2) % m;
    assert x == q * (2 * m) + (2 * r + x % 2);
    RemainderIs(x, 2 * m, q, 2 * r + x % 2);
  }

  /** Or of words that share no set bit is their sum. */
  lemma {:induction false} OrDisjoint(x: nat, l: nat, k: nat)
    requires x % Pow2(k) == 0 && l < Pow2(k)
    ensures Or(x, l) == x + l
    decreases k
  {
    if k == 0 {
      OrZero(x);
    } else {
      HalfRemainder(x, Pow2(k - 1));
      OrDisjoint(x / 2, l / 2, k - 1);
    }
  }

  lemma {:induction false} OrCommutes(x: nat, y: nat)
    ensures Or(x, y) == Or(y, x)
    decreases x + y
  {
    if x != 0 || y != 0 {
      OrCommutes(x / 2, y / 2);
    }
  }

  lemma {:induction false} AndCommutes(x: int, y: int)
    ensures And(x, y) == And(y, x)
    decreases Abs(x) + Abs(y)
  {
    if !(Flat(x) && Flat(y)) {
      AndCommutes(x / 2, y / 2);
    }
  }
}
