/**
 Bit operations on machine words.  A word is a natural number below 2^64; `And` and `Or` are
 the bitwise operators, defined bit by bit, `Shr` is `>>` and `Low(x, k)` keeps the low `k` bits.
 The lemmas turn the masks that the kernel uses into quotients and remainders.
 */
module Bits {

  const WORD: nat := 0x1_0000_0000_0000_0000

  function And(x: nat, y: nat): nat {
    if x == 0 || y == 0 then 0
    else 2 * And(x / 2, y / 2) + (if x % 2 == 1 && y % 2 == 1 then 1 else 0)
  }

  function Or(x: nat, y: nat): nat {
    if x == 0 && y == 0 then 0
    else 2 * Or(x / 2, y / 2) + (if x % 2 == 1 || y % 2 == 1 then 1 else 0)
  }

  function Shr(x: nat, k: nat): nat
    decreases k, x
  {
    if k == 0 then x else Shr(x / 2, k - 1)
  }

  function Shl(x: nat, k: nat): nat
    decreases k, x
  {
    if k == 0 then x else 2 * Shl(x, k - 1)
  }

  function Low(x: nat, k: nat): nat
    decreases k, x
  {
    if k == 0 then 0 else 2 * Low(x / 2, k - 1) + x % 2
  }

  function Pow2(n: nat): nat {
    if n == 0 then 1 else 2 * Pow2(n - 1)
  }

  /** A mask of the `len` bits from bit `lo` upward. */
  function Mask(lo: nat, len: nat): nat
    decreases lo + len
  {
    if lo > 0 then 2 * Mask(lo - 1, len)
    else if len > 0 then 2 * Mask(0, len - 1) + 1
    else 0
  }

  // ---------- `Or` ----------

  lemma {:induction false} OrZero(x: nat)
    ensures Or(x, 0) == x && Or(0, x) == x
  {
    if x > 0 { OrZero(x / 2); }
  }

  lemma OrUnfold(x: nat, y: nat)
    ensures Or(x, y) == 2 * Or(x / 2, y / 2) + (if x % 2 == 1 || y % 2 == 1 then 1 else 0)
  {
  }

  /** Shifting distributes over `Or`. */
  lemma {:induction false} OrShr(x: nat, y: nat, k: nat)
    ensures Shr(Or(x, y), k) == Or(Shr(x, k), Shr(y, k))
    decreases k
  {
    if k > 0 {
      OrUnfold(x, y);
      OrShr(x / 2, y / 2, k - 1);
    }
  }

  /** Truncating to the low bits distributes over `Or`. */
  lemma {:induction false} OrLow(x: nat, y: nat, k: nat)
    ensures Low(Or(x, y), k) == Or(Low(x, k), Low(y, k))
    decreases k
  {
    if k > 0 {
      OrUnfold(x, y);
      OrLow(x / 2, y / 2, k - 1);
      OrUnfold(Low(x, k), Low(y, k));
    }
  }

  /** Bits `lo .. lo+len` of an `Or` are the `Or` of those bits. */
  lemma OrField(x: nat, y: nat, lo: nat, len: nat)
    ensures Low(Shr(Or(x, y), lo), len) == Or(Low(Shr(x, lo), len), Low(Shr(y, lo), len))
  {
    OrShr(x, y, lo);
    OrLow(Shr(x, lo), Shr(y, lo), len);
  }

  predicate Bit(x: nat, k: nat) {
    Shr(x, k) % 2 == 1
  }

  lemma OrBit(x: nat, y: nat, k: nat)
    ensures Bit(Or(x, y), k) <==> Bit(x, k) || Bit(y, k)
  {
    OrShr(x, y, k);
    OrUnfold(Shr(x, k), Shr(y, k));
  }

  lemma {:induction false} ShrBelow(x: nat, k: nat)
    requires x < Pow2(k)
    ensures Shr(x, k) == 0
    decreases k
  {
    if k > 0 { ShrBelow(x / 2, k - 1); }
  }

  lemma {:induction false} ZeroBit(k: nat)
    ensures Shr(0, k) == 0 && !Bit(0, k)
    decreases k
  {
    if k > 0 { ZeroBit(k - 1); }
  }

  /** A power of two has one bit. */
  lemma {:induction false} Pow2Bit(n: nat, k: nat)
    ensures Bit(Pow2(n), k) <==> k == n
    decreases k
  {
    if k == 0 {
    } else if n == 0 {
      ZeroBit(k - 1);
    } else {
      Pow2Bit(n - 1, k - 1);
    }
  }

  /** A word is determined by its bits. */
  lemma {:induction false} BitsDetermine(x: nat, y: nat)
    requires forall k: nat :: Bit(x, k) <==> Bit(y, k)
    ensures x == y
    decreases x + y
  {
    assert Bit(x, 0) <==> Bit(y, 0);
    if x > 0 || y > 0 {
      forall k: nat
        ensures Bit(x / 2, k) <==> Bit(y / 2, k)
      {
        assert Bit(x, k + 1) <==> Bit(y, k + 1);
      }
      BitsDetermine(x / 2, y / 2);
    }
  }

  // ---------- `And` with a mask ----------

  /** Masking keeps exactly the masked field, in place. */
  lemma {:induction false} AndMask(x: nat, lo: nat, len: nat)
    ensures And(x, Mask(lo, len)) == Shl(Low(Shr(x, lo), len), lo)
    decreases lo + len
  {
    if lo > 0 {
      AndMask(x / 2, lo - 1, len);
      if x == 0 || Mask(lo - 1, len) == 0 { AndZero(x / 2); }
    } else if len > 0 {
      AndMask(x / 2, 0, len - 1);
    }
  }

  /** Testing one bit: `x & (1 << k) != 0`. */
  lemma AndBit(x: nat, k: nat)
    ensures And(x, Pow2(k)) != 0 <==> Bit(x, k)
  {
  }

  lemma {:induction false} MaskOne(k: nat)
    ensures Mask(k, 1) == Pow2(k)
  {
    if k > 0 { MaskOne(k - 1); } else { assert Mask(0, 0) == 0; }
  }

  /** Truncating twice is truncating to the shorter length. */
  lemma {:induction false} LowLow(x: nat, a: nat, b: nat)
    requires b <= a
    ensures Low(Low(x, a), b) == Low(x, b)
    decreases b
  {
    if b > 0 { LowLow(x / 2, a - 1, b - 1); }
  }

  lemma {:induction false} ShrShl(x: nat, k: nat)
    ensures Shr(Shl(x, k), k) == x && Low(Shl(x, k), k) == 0
    decreases k
  {
    if k > 0 { ShrShl(x, k - 1); }
  }

  lemma AndZero(x: nat)
    ensures And(x, 0) == 0 && And(0, x) == 0
  {
  }

  // ---------- shifts as division ----------

  lemma {:induction false} ShrAdd(x: nat, a: nat, b: nat)
    ensures Shr(x, a + b) == Shr(Shr(x, a), b)
    decreases a
  {
    if a > 0 { ShrAdd(x / 2, a - 1, b); }
  }

  lemma {:induction false} SplitAt(x: nat, k: nat)
    ensures x == Shl(Shr(x, k), k) + Low(x, k)
    ensures Low(x, k) < Pow2(k)
    decreases k
  {
    if k > 0 { SplitAt(x / 2, k - 1); }
  }

  lemma {:induction false} ShlMul(x: nat, k: nat)
    ensures Shl(x, k) == x * Pow2(k)
    ensures Pow2(k) > 0
    decreases k
  {
    if k > 0 {
      ShlMul(x, k - 1);
      var p := Pow2(k - 1);
      assert 2 * (x * p) == x * (2 * p);
    }
  }

  /** `Shr` and `Low` are the quotient and remainder by a power of two. */
  lemma ShrIsDiv(x: nat, k: nat)
    ensures Pow2(k) > 0 && Shr(x, k) == x / Pow2(k) && Low(x, k) == x % Pow2(k)
  {
    SplitAt(x, k);
    ShlMul(Shr(x, k), k);
    DivUnique(x, Pow2(k), Shr(x, k), Low(x, k));
  }

  lemma DivUnique(x: nat, d: nat, q: nat, r: nat)
    requires r < d && x == q * d + r
    ensures x / d == q && x % d == r
  {
    var p, s := x / d, x % d;
    assert x == d * p + s;
    assert (p - q) * d == r - s;
    if p > q { MulAtLeast(p - q, d); } else if p < q { MulAtLeast(q - p, d); }
  }

  lemma MulAtLeast(k: nat, d: nat)
    requires k >= 1
    ensures k * d >= d
  {
  }

  lemma Pow2Plus8(k: nat)
    ensures Pow2(k + 8) == 0x100 * Pow2(k)
  {
    Pow2Plus4(k);
    Pow2Plus4(k + 4);
  }

  lemma Pow2Plus4(k: nat)
    ensures Pow2(k + 4) == 16 * Pow2(k)
  {
    assert Pow2(k + 4) == 2 * Pow2(k + 3);
    assert Pow2(k + 3) == 2 * Pow2(k + 2);
    assert Pow2(k + 2) == 2 * Pow2(k + 1);
    assert Pow2(k + 1) == 2 * Pow2(k);
  }

  lemma Pow2Small(r: nat)
    requires r < 8
    ensures r == 0 ==> Pow2(r) == 1
    ensures r == 4 ==> Pow2(r) == 0x10
    ensures r == 5 ==> Pow2(r) == 0x20
    ensures r == 6 ==> Pow2(r) == 0x40
    ensures r == 7 ==> Pow2(r) == 0x80
  {
    if r >= 4 {
      Pow2Plus4(r - 4);
      if r > 4 { assert Pow2(r - 4) == 2 * Pow2(r - 5); }
      if r > 5 { assert Pow2(r - 5) == 2 * Pow2(r - 6); }
      if r > 6 { assert Pow2(r - 6) == 2 * Pow2(r - 7); }
    }
  }

  /** Eight more bits at a time. */
  lemma Pow2Bytes(r: nat)
    ensures Pow2(r + 16) == 0x1_0000 * Pow2(r)
    ensures Pow2(r + 24) == 0x100_0000 * Pow2(r)
    ensures Pow2(r + 32) == 0x1_0000_0000 * Pow2(r)
    ensures Pow2(r + 40) == 0x100_0000_0000 * Pow2(r)
    ensures Pow2(r + 48) == 0x1_0000_0000_0000 * Pow2(r)
    ensures Pow2(r + 64) == WORD * Pow2(r)
  {
    hide Pow2;
    Pow2Plus8(r); Pow2Plus8(r + 8); Pow2Plus8(r + 16); Pow2Plus8(r + 24);
    Pow2Plus8(r + 32); Pow2Plus8(r + 40); Pow2Plus8(r + 48); Pow2Plus8(r + 56);
  }

  /** The powers of two that occur as shift amounts in the kernel. */
  lemma Pow2Value(k: nat)
    ensures k == 21 ==> Pow2(k) == 0x20_0000
    ensures k == 22 ==> Pow2(k) == 0x40_0000
    ensures k == 23 ==> Pow2(k) == 0x80_0000
    ensures k == 24 ==> Pow2(k) == 0x100_0000
    ensures k == 30 ==> Pow2(k) == 0x4000_0000
    ensures k == 32 ==> Pow2(k) == 0x1_0000_0000
    ensures k == 36 ==> Pow2(k) == 0x10_0000_0000
    ensures k == 39 ==> Pow2(k) == 0x80_0000_0000
    ensures k == 40 ==> Pow2(k) == 0x100_0000_0000
    ensures k == 47 ==> Pow2(k) == 0x8000_0000_0000
    ensures k == 48 ==> Pow2(k) == 0x1_0000_0000_0000
    ensures k == 52 ==> Pow2(k) == 0x10_0000_0000_0000
    ensures k == 64 ==> Pow2(k) == WORD
  {
    hide Pow2;
    var r := k % 8;
    Pow2Small(r);
    Pow2Bytes(r);
    assert k / 8 == 2 ==> k == r + 16;
    assert k / 8 == 3 ==> k == r + 24;
    assert k / 8 == 4 ==> k == r + 32;
    assert k / 8 == 5 ==> k == r + 40;
    assert k / 8 == 6 ==> k == r + 48;
    assert k / 8 == 8 ==> k == r + 64;
  }

  // ---------- rounding up ----------

  predicate IsPow2(a: nat) {
    exists k: nat :: k < 64 && a == Pow2(k)
  }

  /** A round-up to a power of two, as the kernel writes it: `(v + a - 1) & !(a - 1)`. */
  function AlignUp(v: nat, a: nat): nat
    requires 0 < a < WORD
  {
    And(v + a - 1, WORD - a)
  }

  lemma {:induction false} MaskTop(k: nat, n: nat)
    requires k <= n
    ensures Mask(k, n - k) == Pow2(n) - Pow2(k)
    decreases n
  {
    if k > 0 { MaskTop(k - 1, n - 1); } else if n > 0 { MaskTop(0, n - 1); }
  }

  lemma {:induction false} LowSmall(x: nat, k: nat)
    requires x < Pow2(k)
    ensures Low(x, k) == x
    decreases k
  {
    if k > 0 { LowSmall(x / 2, k - 1); }
  }

  lemma {:induction false} ShrSmall(x: nat, a: nat, b: nat)
    requires x < Pow2(a + b)
    ensures Shr(x, a) < Pow2(b)
    decreases a
  {
    if a > 0 { ShrSmall(x / 2, a - 1, b); }
  }

  lemma AlignUpShift(v: nat, k: nat)
    requires k < 64 && 0 < Pow2(k) < WORD && v + Pow2(k) <= WORD
    ensures AlignUp(v, Pow2(k)) == Shl(Shr(v + Pow2(k) - 1, k), k)
  {
    hide Shr, Low, Shl, Mask;
    var y := v + Pow2(k) - 1;
    Pow2Value(64);
    MaskTop(k, 64);
    AndMask(y, k, 64 - k);
    ShrSmall(y, k, 64 - k);
    LowSmall(Shr(y, k), 64 - k);
  }

  lemma RoundUpExact(v: nat, a: nat, q: nat, r: nat)
    requires r < a && v + a - 1 == q * a + r
    ensures q * a % a == 0 && v <= q * a < v + a
    ensures v % a == 0 ==> q * a == v
  {
    DivUnique(q * a, a, q, 0);
    if v % a == 0 {
      var p := v / a;
      assert v == p * a + 0;
      assert (q - p) * a == a - 1 - r;
      if q > p { MulAtLeast(q - p, a); }
    }
  }

  /** `AlignUp` is the least multiple of `a` that is at least `v`. */
  lemma AlignUpExact(v: nat, a: nat)
    requires IsPow2(a) && 0 < a < WORD && v + a <= WORD
    ensures AlignUp(v, a) % a == 0
    ensures v <= AlignUp(v, a) < v + a
    ensures v % a == 0 ==> AlignUp(v, a) == v
  {
    var k: nat :| k < 64 && a == Pow2(k);
    var y := v + a - 1;
    AlignUpShift(v, k);
    SplitAt(y, k);
    ShlMul(Shr(y, k), k);
    RoundUpExact(v, a, Shr(y, k), Low(y, k));
  }

  /** No multiple of `a` lies between `v` and the least multiple of `a` from `v` on. */
  lemma NoMultipleBetween(v: nat, p: nat, q: nat, a: nat)
    requires a > 0 && p % a == 0 && q % a == 0 && v <= p < v + a && v <= q
    ensures p <= q
  {
    ScaledOrder(p / a, q / a, a);
    assert p == (p / a) * a && q == (q / a) * a;
  }

  lemma ScaledOrder(i: nat, j: nat, a: nat)
    ensures i <= j || i * a >= j * a + a
  {
    if i > j {
      MulAtLeast(i - j, a);
      assert (i - j) * a == i * a - j * a;
    }
  }
}
