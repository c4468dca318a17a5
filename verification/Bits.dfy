/**
 Machine words as natural numbers: powers of two, the C bitwise operators, and the
 arithmetic meaning of the masks and shifts the boot code uses.
 */
module Bits {

  type Byte = x: int | 0 <= x < 0x100
  type Word = x: int | 0 <= x < 0x1_0000_0000

  function Pow2(n: nat): (p: nat)
    ensures p >= 1
  {
    if n == 0 then 1 else 2 * Pow2(n - 1)
  }

  /** Bitwise `x & y`. */
  function And(x: nat, y: nat): nat {
    if x == 0 || y == 0 then 0
    else 2 * And(x / 2, y / 2) + (if x % 2 == 1 && y % 2 == 1 then 1 else 0)
  }

  /** Bitwise `x | y`. */
  function Or(x: nat, y: nat): nat {
    if x == 0 then y else if y == 0 then x
    else 2 * Or(x / 2, y / 2) + (if x % 2 == 1 || y % 2 == 1 then 1 else 0)
  }

  /** The low n bits of x, bit by bit. */
  function Low(x: nat, n: nat): nat {
    if n == 0 then 0 else 2 * Low(x / 2, n - 1) + x % 2
  }

  /** Bitwise complement of a 32-bit word. */
  function Not(x: Word): Word { 0x1_0000_0000 - 1 - x }

  /** x without its low n bits, as an integer. */
  function Shr(x: nat, n: nat): nat {
    if n == 0 then x else Shr(x / 2, n - 1)
  }

  /** Bits hi..lo of x, the lowest being bit 0. */
  function Field(x: nat, hi: nat, lo: nat): nat
    requires lo <= hi
  {
    Low(Shr(x, lo), hi - lo + 1)
  }

  /** Unsigned 32-bit addition and left shift, which drop what leaves the word. */
  function Add(x: nat, y: nat): Word { (x + y) % 0x1_0000_0000 }

  function Shl(x: nat, n: nat): Word
    decreases n
  {
    if n == 0 then x % 0x1_0000_0000 else Shl(2 * x, n - 1)
  }

  /** The value of a word read as a two's complement signed integer. */
  function Signed(x: Word): int { if x >= 0x8000_0000 then x - 0x1_0000_0000 else x }

  /** A word without its sign bit. */
  function Unsign(x: Word): Word { if x >= 0x8000_0000 then x - 0x8000_0000 else x }

  /** Arithmetic right shift of a signed word: copies of the sign bit move in. */
  function Sar(x: Word, n: nat): Word {
    ShrAtMost(x, n);
    ShrAtMost(Not(x), n);
    if Signed(x) < 0 then Not(Shr(Not(x), n)) else Shr(x, n)
  }

  lemma ShrAtMost(x: nat, n: nat)
    ensures Shr(x, n) <= x
  {
    if n > 0 {
      ShrAtMost(x / 2, n - 1);
    }
  }

  lemma AddAdd(x: nat, y: nat, z: nat)
    ensures Add(Add(x, y), z) == Add(x, y + z)
  {
  }

  // ---------- powers of two ----------

  lemma {:induction false} Pow2Add(a: nat, b: nat)
    ensures Pow2(a + b) == Pow2(a) * Pow2(b)
  {
    if a == 0 {
    } else {
      Pow2Add(a - 1, b);
      assert Pow2(a + b) == 2 * (Pow2(a - 1) * Pow2(b));
      assert Pow2(a) == 2 * Pow2(a - 1);
    }
  }

  lemma {:induction false} Pow2Monotone(a: nat, b: nat)
    requires a <= b
    ensures Pow2(a) <= Pow2(b)
  {
    if a < b {
      Pow2Monotone(a, b - 1);
    }
  }

  lemma Pow2Word()
    ensures Pow2(31) == 0x8000_0000 && Pow2(32) == 0x1_0000_0000
  {
    assert Pow2(8) == 0x100;
    Pow2Add(8, 8);
    Pow2Add(16, 8);
    Pow2Add(24, 7);
  }

  lemma Pow2AtMostWord(k: nat)
    requires k <= 32
    ensures k <= 31 ==> Pow2(k) <= 0x8000_0000
    ensures Pow2(k) <= 0x1_0000_0000
  {
    Pow2Word();
    Pow2Monotone(k, if k <= 31 then 31 else 32);
  }

  // ---------- division ----------

  lemma DivMod(x: nat, d: nat)
    requires d > 0
    ensures x == (x / d) * d + x % d && 0 <= x % d < d && x / d >= 0
  {
  }

  lemma MulLess(x: int, y: int, d: int)
    requires x < y && d > 0
    ensures x * d < y * d
  {
    assert (y - x) * d > 0;
    assert (y - x) * d == y * d - x * d;
  }

  lemma MulAtMost(x: int, y: int, d: nat)
    requires x <= y
    ensures x * d <= y * d
  {
    assert (y - x) * d >= 0;
    assert (y - x) * d == y * d - x * d;
  }

  lemma Distribute(x: int, y: int, d: int)
    ensures (x + y) * d == x * d + y * d
  {
  }

  lemma Associate(x: int, y: int, z: int)
    ensures x * (y * z) == (x * y) * z
  {
  }

  lemma MulAtLeast(a: int, d: nat)
    ensures a >= 1 ==> a * d >= d
    ensures a <= -1 ==> a * d + d <= 0
  {
    if a >= 1 {
      assert a * d == (a - 1) * d + d;
    } else if a <= -1 {
      assert a * d == (a + 1) * d - d;
      assert -(a + 1) * d >= 0;
    }
  }

  /** The quotient and remainder are the only pair that recompose the dividend. */
  lemma DivModUnique(x: int, d: nat, q: int, r: int)
    requires d > 0 && x == q * d + r && 0 <= r < d
    ensures x / d == q && x % d == r
  {
    var q1, r1 := x / d, x % d;
    DivModPair(d, q, r, q1, r1);
  }

  lemma DivModPair(d: nat, q: int, r: int, q1: int, r1: int)
    requires d > 0 && q * d + r == q1 * d + r1 && 0 <= r < d && 0 <= r1 < d
    ensures q == q1 && r == r1
  {
    MulAtLeast(q - q1, d);
    assert (q - q1) * d == q * d - q1 * d;
  }

  /** Dividing twice is dividing by the product. */
  lemma DivDiv(x: nat, a: nat, b: nat)
    requires a > 0 && b > 0
    ensures a * b > 0 && x / a / b == x / (a * b)
    ensures x % (a * b) == x / a % b * a + x % a
  {
    DivMod(x, a);
    DivMod(x / a, b);
    NestedDivision(x, a, b, x / a, x % a, x / a / b, x / a % b);
  }

  lemma NestedDivision(x: nat, a: nat, b: nat, q: nat, r: nat, q2: nat, r2: nat)
    requires a > 0 && b > 0 && r < a && r2 < b
    requires x == q * a + r && q == q2 * b + r2
    ensures a * b > 0 && x / (a * b) == q2 && x % (a * b) == r2 * a + r
  {
    MulLess(0, a, b);
    Distribute(q2 * b, r2, a);
    Associate(q2, b, a);
    Distribute(r2, 1, a);
    MulAtMost(r2 + 1, b, a);
    MulAtMost(0, r2, a);
    DivModUnique(x, a * b, q2, r2 * a + r);
  }

  /** A remainder by a larger power of two keeps the remainder by a smaller one. */
  lemma ModMod(x: nat, k: nat, n: nat)
    requires k <= n
    ensures x % Pow2(n) % Pow2(k) == x % Pow2(k)
    ensures x % Pow2(n) / Pow2(k) == x / Pow2(k) % Pow2(n - k)
    ensures x % Pow2(k) <= x % Pow2(n)
  {
    Pow2Add(k, n - k);
    DivDiv(x, Pow2(k), Pow2(n - k));
    var hi, lo := x / Pow2(k) % Pow2(n - k), x % Pow2(k);
    DivModUnique(x % Pow2(n), Pow2(k), hi, lo);
  }

  // ---------- masks ----------

  lemma {:induction false} LowIsMod(x: nat, n: nat)
    ensures Low(x, n) == x % Pow2(n)
  {
    if n > 0 {
      LowIsMod(x / 2, n - 1);
      HalveMod(x, n);
    }
  }

  lemma {:induction false} AndFieldLow(x: nat, k: nat, n: nat)
    requires k <= n
    ensures Pow2(k) <= Pow2(n)
    ensures And(x, Pow2(n) - Pow2(k)) == Low(x, n) - Low(x, k)
    decreases n
  {
    Pow2Monotone(k, n);
    if n == k {
    } else if k == 0 {
      AndFieldLow(x / 2, 0, n - 1);
      AndStep(x, Pow2(n) - 1, Pow2(n - 1) - 1, 1);
    } else {
      AndFieldLow(x / 2, k - 1, n - 1);
      AndStep(x, Pow2(n) - Pow2(k), Pow2(n - 1) - Pow2(k - 1), 0);
    }
  }

  lemma AndStep(x: nat, y: nat, m: nat, b: nat)
    requires b <= 1 && y == 2 * m + b
    ensures And(x, y) == 2 * And(x / 2, m) + if b == 1 then x % 2 else 0
  {
    assert y / 2 == m && y % 2 == b;
  }

  lemma HalveMod(x: nat, n: nat)
    requires n > 0
    ensures x % Pow2(n) == 2 * (x / 2 % Pow2(n - 1)) + x % 2
  {
    DivDiv(x, 2, Pow2(n - 1));
  }

  lemma AndLowMask(x: nat, k: nat)
    ensures And(x, Pow2(k) - 1) == Low(x, k)
  {
    AndFieldLow(x, 0, k);
  }

  /** `x & ~(2^k - 1)` on a 32-bit word clears its low k bits. */
  lemma AndNotLowMask(x: Word, k: nat)
    requires k <= 32
    ensures Pow2(k) <= 0x1_0000_0000
    ensures And(x, Not(Pow2(k) - 1)) == x - Low(x, k) <= x
  {
    Pow2Word();
    AndFieldLow(x, k, 32);
    LowSmall(x, 32);
    LowBound(x, k);
  }

  lemma LowBound(x: nat, k: nat)
    ensures Low(x, k) < Pow2(k) && Low(x, k) <= x
  {
    LowIsMod(x, k);
    DivMod(x, Pow2(k));
    MulAtMost(0, x / Pow2(k), Pow2(k));
  }

  lemma LowSmall(x: nat, k: nat)
    requires x < Pow2(k)
    ensures Low(x, k) == x
  {
    LowIsMod(x, k);
    DivModUnique(x, Pow2(k), 0, x);
  }

  /** Adding a multiple of 2^k does not touch the low k bits. */
  lemma LowPlus(x: nat, m: nat, k: nat)
    ensures m * Pow2(k) >= 0
    ensures Low(m * Pow2(k) + x, k) == Low(x, k)
  {
    var K := Pow2(k);
    MulAtMost(0, m, K);
    DivMod(x, K);
    Distribute(m, x / K, K);
    DivModUnique(m * K + x, K, m + x / K, x % K);
    LowIsMod(x, k);
    LowIsMod(m * K + x, k);
  }

  lemma LowPlusOne(x: nat, k: nat)
    ensures Low(x + Pow2(k), k) == Low(x, k)
  {
    LowPlus(x, 1, k);
    assert 1 * Pow2(k) + x == x + Pow2(k);
  }

  lemma LowLow(x: nat, k: nat, n: nat)
    requires k <= n
    ensures Low(x % Pow2(n), k) == Low(x, k)
  {
    ModMod(x, k, n);
    LowIsMod(x, k);
    LowIsMod(x % Pow2(n), k);
  }

  lemma LowWrap(x: nat, k: nat)
    requires k <= 32
    ensures Low(x % 0x1_0000_0000, k) == Low(x, k)
  {
    Pow2Word();
    LowLow(x, k, 32);
  }

  lemma LowUnsign(x: Word, k: nat)
    requires k <= 31
    ensures Low(Unsign(x), k) == Low(x, k)
  {
    if x >= 0x8000_0000 {
      Pow2Word();
      Pow2Add(31 - k, k);
      LowPlus(Unsign(x), Pow2(31 - k), k);
    }
  }

  /** The low bits of two words joined at bit n. */
  lemma {:induction false} LowJoin(hi: nat, lo: nat, k: nat, n: nat)
    requires lo < Pow2(n)
    ensures hi * Pow2(n) >= 0
    ensures Low(hi * Pow2(n) + lo, n + k) == Low(hi, k) * Pow2(n) + lo
  {
    var N, K := Pow2(n), Pow2(k);
    MulAtMost(0, hi, N);
    Pow2Add(n, k);
    DivDiv(hi * N + lo, N, K);
    DivModUnique(hi * N + lo, N, hi, lo);
    LowIsMod(hi, k);
    LowIsMod(hi * N + lo, n + k);
  }

  lemma {:induction false} ShrIsDiv(x: nat, n: nat)
    ensures Shr(x, n) == x / Pow2(n)
  {
    if n > 0 {
      ShrIsDiv(x / 2, n - 1);
      DivDiv(x, 2, Pow2(n - 1));
    }
  }

  lemma {:induction false} ShrAdd(x: nat, a: nat, b: nat)
    ensures Shr(x, a + b) == Shr(Shr(x, a), b)
  {
    if a > 0 {
      ShrAdd(x / 2, a - 1, b);
    }
  }

  /** A field of k bits, n bits up in the low word of a pair, or in the part above it. */
  lemma PairFields(hi: nat, lo: Word, n: nat, k: nat)
    ensures n + k <= 32 ==> Low(Shr(hi * 0x1_0000_0000 + lo, n), k) == Low(Shr(lo, n), k)
    ensures Shr(hi * 0x1_0000_0000 + lo, 32 + n) == Shr(hi, n)
  {
    ShrJoin(hi, lo, 32);
    ShrSmall(lo);
    assert Pow2(0) == 1;
    ShrAdd(hi * 0x1_0000_0000 + lo, 32, n);
    if n + k <= 32 {
      ShrJoin(hi, lo, n);
      Pow2Add(32 - n - k, k);
      Associate(hi, Pow2(32 - n - k), Pow2(k));
      MulAtMost(0, hi, Pow2(32 - n - k));
      LowPlus(Shr(lo, n), hi * Pow2(32 - n - k), k);
    }
  }

  lemma ShrSmall(w: Word)
    ensures Shr(w, 32) == 0
  {
    Pow2Word();
    ShrIsDiv(w, 32);
    DivModUnique(w, 0x1_0000_0000, 0, w);
  }

  /** Shifting out part or all of the low word of a pair. */
  lemma ShrJoin(hi: nat, lo: Word, n: nat)
    requires n <= 32
    ensures hi * Pow2(32 - n) >= 0
    ensures Shr(hi * 0x1_0000_0000 + lo, n) == hi * Pow2(32 - n) + Shr(lo, n)
  {
    Pow2Word();
    Pow2Add(32 - n, n);
    Associate(hi, Pow2(32 - n), Pow2(n));
    MulAtMost(0, hi, Pow2(32 - n));
    ShrIsDiv(lo, n);
    ShrIsDiv(hi * 0x1_0000_0000 + lo, n);
    DivMod(lo, Pow2(n));
    Distribute(hi * Pow2(32 - n), lo / Pow2(n), Pow2(n));
    DivModUnique(hi * 0x1_0000_0000 + lo, Pow2(n), hi * Pow2(32 - n) + lo / Pow2(n), lo % Pow2(n));
  }

  /** Masking a field in place and shifting it down. */
  lemma FieldShift(x: nat, lo: nat, w: nat)
    ensures Pow2(lo) <= Pow2(lo + w)
    ensures Shr(And(x, Pow2(lo + w) - Pow2(lo)), lo) == Low(Shr(x, lo), w)
  {
    AndFieldLow(x, lo, lo + w);
    FieldInPlace(x, lo, w);
    ShrIsDiv(x, lo);
    LowIsMod(Shr(x, lo), w);
    DivModUnique(Low(Shr(x, lo), w) * Pow2(lo), Pow2(lo), Low(Shr(x, lo), w), 0);
    ShrIsDiv(Low(Shr(x, lo), w) * Pow2(lo), lo);
  }

  lemma {:induction false} ShlIsMul(x: nat, n: nat)
    ensures x * Pow2(n) >= 0 && Shl(x, n) == x * Pow2(n) % 0x1_0000_0000
    decreases n
  {
    MulAtMost(0, x, Pow2(n));
    if n > 0 {
      ShlIsMul(2 * x, n - 1);
      Associate(x, 2, Pow2(n - 1));
    }
  }

  lemma LowJoinWord(hi: nat, lo: Word, k: nat)
    ensures Low(hi * 0x1_0000_0000 + lo, 32 + k) == Low(hi, k) * 0x1_0000_0000 + lo
    ensures k <= 32 ==> Low(hi * 0x1_0000_0000 + lo, k) == Low(lo, k)
  {
    Pow2Word();
    LowJoin(hi, lo, k, 32);
    if k <= 32 {
      LowWrap(hi * 0x1_0000_0000 + lo, k);
      DivModUnique(hi * 0x1_0000_0000 + lo, 0x1_0000_0000, hi, lo);
    }
  }

  /** Shifting one into place; adding it to a word and then clearing the bits below. */
  lemma ShlOne(k: nat)
    requires k <= 31
    ensures Shl(1, k) == Pow2(k) < 0x1_0000_0000
  {
    Pow2AtMostWord(k);
    ShlIsMul(1, k);
  }

  lemma AddAndClear(w: Word, k: nat)
    requires k <= 31
    ensures Pow2(k) <= 0x8000_0000
    ensures And(Add(w, Pow2(k)), Not(Pow2(k) - 1)) == Add(w, Pow2(k)) - Low(w, k) >= 0
  {
    Pow2AtMostWord(k);
    AndNotLowMask(Add(w, Pow2(k)), k);
    assert Low(Add(w, Pow2(k)), k) == Low(w, k) by {
      LowWrap(w + Pow2(k), k);
      LowPlusOne(w, k);
    }
  }

  /** Shifting a mask of ones right leaves a shorter mask of ones. */
  lemma ShrOnes(n: nat, j: nat)
    requires j <= n
    ensures Shr(Pow2(n) - 1, j) == Pow2(n - j) - 1
    ensures Shr(Pow2(n), j) == Pow2(n - j)
  {
    ShrIsDiv(Pow2(n), j);
    ShrIsDiv(Pow2(n) - 1, j);
    Pow2Add(n - j, j);
    Distribute(Pow2(n - j) - 1, 1, Pow2(j));
    DivModUnique(Pow2(n), Pow2(j), Pow2(n - j), 0);
    DivModUnique(Pow2(n) - 1, Pow2(j), Pow2(n - j) - 1, Pow2(j) - 1);
  }

  // ---------- writing a bit field ----------

  lemma AndRec(x: nat, y: nat)
    ensures And(x, y) == 2 * And(x / 2, y / 2) + (if x % 2 == 1 && y % 2 == 1 then 1 else 0)
  {
  }

  lemma OrRec(x: nat, y: nat)
    ensures Or(x, y) == 2 * Or(x / 2, y / 2) + (if x % 2 == 1 || y % 2 == 1 then 1 else 0)
  {
  }

  lemma {:induction false} OrPlusAnd(x: nat, y: nat)
    ensures Or(x, y) + And(x, y) == x + y
  {
    if x > 0 && y > 0 {
      OrPlusAnd(x / 2, y / 2);
    }
  }

  lemma {:induction false} AndComplement(x: nat, m: nat, n: nat)
    requires x < Pow2(n) && m < Pow2(n)
    ensures And(x, Pow2(n) - 1 - m) + And(x, m) == x
  {
    if n > 0 {
      HalfComplement(m, n);
      AndComplement(x / 2, m / 2, n - 1);
      AndRec(x, m);
      AndRec(x, Pow2(n) - 1 - m);
    }
  }

  lemma {:induction false} ComplementDisjoint(x: nat, m: nat, y: nat, n: nat)
    requires m < Pow2(n) && And(y, m) == y
    ensures And(And(x, Pow2(n) - 1 - m), y) == 0
  {
    AndRec(y, m);
    if n > 0 && x > 0 && y > 0 {
      HalfComplement(m, n);
      ComplementDisjoint(x / 2, m / 2, y / 2, n - 1);
      AndRec(x, Pow2(n) - 1 - m);
      AndRec(And(x, Pow2(n) - 1 - m), y);
    }
  }

  /** Clearing the bits of a mask and then setting some of them. */
  lemma SetBits(x: nat, m: nat, y: nat, n: nat)
    requires x < Pow2(n) && m < Pow2(n) && And(y, m) == y
    ensures And(x, Pow2(n) - 1 - m) == x - And(x, m) >= 0
    ensures Or(And(x, Pow2(n) - 1 - m), y) == x - And(x, m) + y
  {
    AndComplement(x, m, n);
    ComplementDisjoint(x, m, y, n);
    OrPlusAnd(And(x, Pow2(n) - 1 - m), y);
  }

  lemma HalfComplement(m: nat, n: nat)
    requires n > 0 && m < Pow2(n)
    ensures m / 2 < Pow2(n - 1)
    ensures (Pow2(n) - 1 - m) / 2 == Pow2(n - 1) - 1 - m / 2 && (Pow2(n) - 1 - m) % 2 == 1 - m % 2
  {
  }

  /** A field as a division and a remainder. */
  lemma FieldIsDiv(x: nat, hi: nat, lo: nat, d: nat, m: nat)
    requires lo <= hi && Pow2(lo) == d && Pow2(hi - lo + 1) == m
    ensures Field(x, hi, lo) == x / d % m
  {
    ShrIsDiv(x, lo);
    LowIsMod(Shr(x, lo), hi - lo + 1);
  }

  /** One bit, likewise, and by a mask. */
  lemma BitIsDiv(x: nat, n: nat, d: nat)
    requires Pow2(n) == d
    ensures Field(x, n, n) == x / d % 2
    ensures And(x, d) != 0 <==> Field(x, n, n) == 1
  {
    assert Pow2(1) == 2;
    FieldIsDiv(x, n, n, d, 2);
    assert Pow2(n + 1) == 2 * d;
    MaskIsField(x, n, n);
  }

  /** A word with a mask of ones in bits hi..lo. */
  lemma MaskIsField(r: nat, hi: nat, lo: nat)
    requires lo <= hi
    ensures Pow2(lo) <= Pow2(hi + 1)
    ensures And(r, Pow2(hi + 1) - Pow2(lo)) == Field(r, hi, lo) * Pow2(lo)
  {
    FieldMasked(r, lo, hi - lo + 1);
    FieldIsDiv(r, hi, lo, Pow2(lo), Pow2(hi - lo + 1));
  }

  /** Such a mask tests whether the field is zero. */
  lemma MaskTests(r: nat, hi: nat, lo: nat, m: nat)
    requires lo <= hi && Pow2(hi + 1) - Pow2(lo) == m
    ensures And(r, m) > 0 <==> Field(r, hi, lo) > 0
  {
    MaskIsField(r, hi, lo);
    MulAtLeast(Field(r, hi, lo), Pow2(lo));
  }

  /** Masks that share no bit add up. */
  lemma {:induction false} AndSum(r: nat, a: nat, b: nat)
    requires And(a, b) == 0
    ensures And(r, a + b) == And(r, a) + And(r, b)
  {
    if r > 0 && a > 0 && b > 0 {
      AndRec(a, b);
      assert (a + b) / 2 == a / 2 + b / 2 && (a + b) % 2 == a % 2 + b % 2;
      AndSum(r / 2, a / 2, b / 2);
      AndRec(r, a);
      AndRec(r, b);
      AndRec(r, a + b);
    }
  }

  /** A mask is the sum of its parts above and below a bit. */
  lemma AndSplit(r: nat, hi: nat, k: nat, lo: nat)
    requires lo < Pow2(k)
    ensures hi * Pow2(k) >= 0
    ensures And(r, hi * Pow2(k) + lo) == And(r, hi * Pow2(k)) + And(r, lo)
  {
    MulAtMost(0, hi, Pow2(k));
    OrDisjoint(hi, lo, k);
    OrPlusAnd(hi * Pow2(k), lo);
    AndSum(r, hi * Pow2(k), lo);
  }

  /** A field between a part above it and a part below it. */
  lemma FieldPlaced(x: nat, hi: nat, lo: nat, d: nat, m: nat, above: nat, v: nat, below: nat)
    requires lo <= hi && Pow2(lo) == d && Pow2(hi - lo + 1) == m && v < m && below < d
    requires x == (above * m + v) * d + below
    ensures Field(x, hi, lo) == v
  {
    FieldIsDiv(x, hi, lo, d, m);
    MulAtMost(0, above, m);
    DivModUnique(x, d, above * m + v, below);
    DivModUnique(above * m + v, m, above, v);
  }

  /** The w bits of r from bit lo on, in place. */
  lemma FieldInPlace(r: nat, lo: nat, w: nat)
    ensures r / Pow2(lo) % Pow2(w) * Pow2(lo) == Low(r, lo + w) - Low(r, lo)
  {
    Pow2Add(lo, w);
    DivDiv(r, Pow2(lo), Pow2(w));
    LowIsMod(r, lo);
    LowIsMod(r, lo + w);
  }

  lemma FieldMasked(r: nat, lo: nat, w: nat)
    ensures Pow2(lo) <= Pow2(lo + w)
    ensures And(r, Pow2(lo + w) - Pow2(lo)) == r / Pow2(lo) % Pow2(w) * Pow2(lo)
  {
    Pow2Monotone(lo, lo + w);
    FieldInPlace(r, lo, w);
    AndFieldLow(r, lo, lo + w);
  }

  /**
   The read-modify-write idiom `(r & ~(ones(w) << lo)) | (v << lo)` for v below 2^w: the old
   field goes, the new one comes, nothing else changes.
   */
  lemma WriteField(r: Word, lo: nat, w: nat, v: nat)
    requires lo + w <= 32 && v < Pow2(w)
    ensures Pow2(lo) <= Pow2(lo + w) <= 0x1_0000_0000 && v * Pow2(lo) >= 0
    ensures var m := Pow2(lo + w) - Pow2(lo);
      && m < 0x1_0000_0000
      && And(r, Not(m)) == r - r / Pow2(lo) % Pow2(w) * Pow2(lo)
      && Or(And(r, Not(m)), v * Pow2(lo)) == r - r / Pow2(lo) % Pow2(w) * Pow2(lo) + v * Pow2(lo)
  {
    Pow2Monotone(lo, lo + w);
    Pow2AtMostWord(lo + w);
    ValueInPlace(lo, w, v);
    var m := Pow2(lo + w) - Pow2(lo);
    FieldMasked(r, lo, w);
    SetBitsWord(r, m, v * Pow2(lo));
  }

  lemma SetBitsWord(x: Word, m: nat, y: nat)
    requires m < 0x1_0000_0000 && And(y, m) == y
    ensures And(x, Not(m)) == x - And(x, m) >= 0
    ensures Or(And(x, Not(m)), y) == x - And(x, m) + y
  {
    Pow2Word();
    SetBits(x, m, y, 32);
  }

  lemma ValueInPlace(lo: nat, w: nat, v: nat)
    requires v < Pow2(w)
    ensures Pow2(lo) <= Pow2(lo + w) && v * Pow2(lo) >= 0
    ensures And(v * Pow2(lo), Pow2(lo + w) - Pow2(lo)) == v * Pow2(lo)
  {
    var y := v * Pow2(lo);
    MulAtMost(0, v, Pow2(lo));
    Pow2Add(w, lo);
    MulLess(v, Pow2(w), Pow2(lo));
    AndFieldLow(y, lo, lo + w);
    LowSmall(y, lo + w);
    LowPlus(0, v, lo);
    LowBound(0, lo);
  }

  /** Or-ing a value into a clear field between a high part and a low part. */
  lemma OrBetween(hi: nat, low: nat, lo: nat, w: nat, v: nat)
    requires lo + w <= 32 && v < Pow2(w) && low < Pow2(lo) && 0 <= hi * Pow2(lo + w) + low < 0x1_0000_0000
    ensures v * Pow2(lo) >= 0
    ensures Or(hi * Pow2(lo + w) + low, v * Pow2(lo)) == hi * Pow2(lo + w) + low + v * Pow2(lo)
  {
    var x, L, W := hi * Pow2(lo + w) + low, Pow2(lo), Pow2(w);
    Pow2Add(w, lo);
    Associate(hi, W, L);
    DivModUnique(x, L, hi * W, low);
    DivModUnique(hi * W, W, hi, 0);
    WriteField(x, lo, w, v);
  }

  /** Setting the top bit of an n+1 bit number. */
  lemma {:induction false} OrTop(x: nat, n: nat)
    requires x < Pow2(n + 1)
    ensures Or(x, Pow2(n)) == Low(x, n) + Pow2(n)
  {
    OrRec(x, Pow2(n));
    if n == 0 {
      OrRec(x / 2, 0);
    } else {
      OrTop(x / 2, n - 1);
    }
  }

  lemma OrZero(x: nat, y: nat)
    ensures Or(x, y) == 0 <==> x == 0 && y == 0
  {
    if x != 0 && y != 0 {
      OrZero(x / 2, y / 2);
    }
  }

  /** Or-ing words that share no bit is adding them: hi is a multiple of 2^k, lo below it. */
  lemma {:induction false} OrDisjoint(hi: nat, lo: nat, k: nat)
    requires lo < Pow2(k)
    ensures Or(hi * Pow2(k), lo) == hi * Pow2(k) + lo
    decreases k
  {
    var h := hi * Pow2(k);
    if h == 0 || lo == 0 {
    } else if k == 0 {
    } else {
      assert h == 2 * (hi * Pow2(k - 1));
      OrDisjoint(hi, lo / 2, k - 1);
      assert Or(h, lo) == 2 * Or(h / 2, lo / 2) + lo % 2;
    }
  }
}
