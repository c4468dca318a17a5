/** ceil and ceilf on the words of their argument (boot1/apps/BootQC/Common/libm). */
module Ceil {
  import opened Bits
  import opened Ieee754

  /** The double held in a high and a low word, the float held in one word. */
  function DoubleOf(hi: Word, lo: Word): Float {
    Float(Signed(hi) < 0, Unsign(hi) * 0x1_0000_0000 + lo)
  }

  function SingleOf(w: Word): Float {
    Float(Signed(w) < 0, Unsign(w))
  }

  lemma FormatsValid()
    ensures DOUBLE.Valid() && DOUBLE.Bias() == 0x3ff && DOUBLE.Special() == 0x7ff
    ensures SINGLE.Valid() && SINGLE.Bias() == 0x7f && SINGLE.Special() == 0xff
  {
    assert Pow2(7) == 0x80;
    assert Pow2(8) == 0x100;
    Pow2Add(8, 2);
    Pow2Add(8, 3);
  }

  lemma Pow2Fractions()
    ensures Pow2(20) == 0x10_0000 && Pow2(23) == 0x80_0000 && Pow2(52) == 0x10_0000_0000_0000
  {
    Pow2Word();
    assert Pow2(8) == 0x100;
    Pow2Add(8, 8);
    Pow2Add(16, 4);
    Pow2Add(16, 7);
    Pow2Add(20, 32);
  }

  lemma {:induction false} ComplementShr(x: nat, m: nat, n: nat)
    requires x < Pow2(m) && n <= m
    ensures Shr(Pow2(m) - 1 - x, n) == Pow2(m - n) - 1 - Shr(x, n)
  {
    if n > 0 {
      assert (Pow2(m) - 1 - x) / 2 == Pow2(m - 1) - 1 - x / 2;
      ComplementShr(x / 2, m - 1, n - 1);
    }
  }

  lemma SarLow(w: Word, n: nat, k: nat)
    requires n + k == 31
    ensures Low(Sar(w, n), k) == Low(Shr(w, n), k)
  {
    if Signed(w) < 0 {
      Pow2Word();
      ComplementShr(w, 32, n);
      Pow2Add(n + 1, k);
      Distribute(Pow2(n + 1) - 2, 2, Pow2(k));
      LowPlus(Shr(w, n), Pow2(n + 1) - 2, k);
    }
  }

  lemma ShrUnsign(w: Word, n: nat, k: nat)
    requires n + k == 31
    ensures Low(Shr(w, n), k) == Unsign(w) / Pow2(n)
  {
    Pow2Word();
    LowIsMod(Shr(w, n), k);
    ShrIsDiv(w, n);
    ModMod(w, n, 31);
    if w >= 0x8000_0000 {
      DivModUnique(w, 0x8000_0000, 1, Unsign(w));
    } else {
      DivModUnique(w, 0x8000_0000, 0, Unsign(w));
    }
  }

  /** The high bits of a word, signed or not, where the copies of the sign bit are cut off. */
  lemma SarField(w: Word, n: nat, k: nat)
    requires n + k == 31
    ensures And(Sar(w, n), Pow2(k) - 1) == Unsign(w) / Pow2(n)
  {
    AndLowMask(Sar(w, n), k);
    SarLow(w, n, k);
    ShrUnsign(w, n, k);
  }

  /** The exponent field as the code extracts it: arithmetic shift, then mask. */
  lemma ExponentField(w: Word)
    ensures And(Sar(w, 20), 0x7ff) == Unsign(w) / 0x10_0000
    ensures And(Sar(w, 23), 0xff) == Unsign(w) / 0x80_0000
  {
    FormatsValid();
    Pow2Fractions();
    SarField(w, 20, 11);
    SarField(w, 23, 8);
  }

  lemma DoubleExp(hi: Word, lo: Word)
    ensures Exp(DOUBLE, DoubleOf(hi, lo)) == Unsign(hi) / 0x10_0000
  {
    Pow2Fractions();
  }

  /** The bits below the unit place when it lies in the high word, or in the low word. */
  lemma BelowUnit(hi: Word, lo: Word, k: nat)
    ensures k <= 32 ==> Low(DoubleOf(hi, lo).mag, k) == Low(lo, k)
    ensures k <= 31 ==> Low(DoubleOf(hi, lo).mag, 32 + k) == Low(hi, k) * 0x1_0000_0000 + lo
  {
    LowJoinWord(Unsign(hi), lo, k);
    if k <= 31 {
      LowUnsign(hi, k);
    }
  }

  /** x + x on an infinity or a NaN: an infinity is unchanged, a NaN comes back quiet. */
  function DoubleSelfSum(hi: Word, lo: Word): (Word, Word) {
    if IsNaN(DOUBLE, DoubleOf(hi, lo)) && hi / 0x8_0000 % 2 == 0 then (Add(hi, 0x8_0000), lo)
    else (hi, lo)
  }

  function SingleSelfSum(w: Word): Word {
    if IsNaN(SINGLE, SingleOf(w)) && w / 0x40_0000 % 2 == 0 then Add(w, 0x40_0000) else w
  }

  lemma SelfSumSpecial(hi: Word, lo: Word)
    requires Exp(DOUBLE, DoubleOf(hi, lo)) == 0x7ff
    ensures var (r0, r1) := DoubleSelfSum(hi, lo);
      && Exp(DOUBLE, DoubleOf(r0, r1)) == 0x7ff
      && (IsNaN(DOUBLE, DoubleOf(hi, lo)) <==> IsNaN(DOUBLE, DoubleOf(r0, r1)))
  {
    DoubleExp(hi, lo);
    Pow2Fractions();
    var (r0, r1) := DoubleSelfSum(hi, lo);
    DoubleExp(r0, r1);
    assert Unsign(r0) / 0x10_0000 == Unsign(hi) / 0x10_0000 by {
      if r0 != hi { QuietBit(hi); }
    }
  }

  /** Setting the top fraction bit of a double: no carry, and the sign stays. */
  lemma QuietBit(hi: Word)
    requires hi / 0x8_0000 % 2 == 0
    ensures Unsign(Add(hi, 0x8_0000)) == Unsign(hi) + 0x8_0000
    ensures Unsign(Add(hi, 0x8_0000)) / 0x10_0000 == Unsign(hi) / 0x10_0000
  {
  }

  /** RoundUp between 1 and 2^52: `low` is what lies below the unit place, `unit` its weight. */
  function StepUp(x: Float, low: nat, unit: nat): Float
    requires low <= x.mag
  {
    if low == 0 then x else Float(x.neg, x.mag - low + if x.neg then 0 else unit)
  }

  lemma RoundUpMiddle(x: Float, j0: nat)
    requires DOUBLE.Valid() && j0 <= 51 && Exp(DOUBLE, x) == 0x3ff + j0
    ensures Low(x.mag, 52 - j0) <= x.mag
    ensures RoundUp(DOUBLE, x) == StepUp(x, Low(x.mag, 52 - j0), Pow2(52 - j0))
  {
    FormatsValid();
    LowBound(x.mag, 52 - j0);
  }

  lemma RoundUpOuter(hi: Word, lo: Word)
    requires DOUBLE.Valid()
    ensures var x, e := DoubleOf(hi, lo), Exp(DOUBLE, DoubleOf(hi, lo));
      && (e < 0x3ff && Signed(hi) < 0 ==> RoundUp(DOUBLE, x) == DoubleOf(0x8000_0000, 0))
      && (e < 0x3ff && Signed(hi) >= 0 ==>
            RoundUp(DOUBLE, x) == if hi == 0 && lo == 0 then DoubleOf(hi, lo) else DoubleOf(0x3ff0_0000, 0))
      && (e >= 0x3ff + 52 ==> RoundUp(DOUBLE, x) == x)
  {
    FormatsValid();
    Pow2Fractions();
  }

  lemma HighMasks(j0: nat)
    requires j0 < 20
    ensures Shr(0xf_ffff, j0) == Pow2(20 - j0) - 1 && Shr(0x10_0000, j0) == Pow2(20 - j0) <= 0x10_0000
  {
    Pow2Fractions();
    ShrOnes(20, j0);
    Pow2Monotone(20 - j0, 20);
  }

  /** The unit place lies in the high word: the operators used there. */
  lemma HighOperators(hi: Word, j0: nat)
    requires j0 < 20
    ensures Shr(0xf_ffff, j0) == Pow2(20 - j0) - 1 && Shr(0x10_0000, j0) == Pow2(20 - j0) <= 0x10_0000
    ensures And(hi, Pow2(20 - j0) - 1) == Low(hi, 20 - j0)
    ensures And(hi, Not(Pow2(20 - j0) - 1)) == hi - Low(hi, 20 - j0) >= 0
    ensures hi < 0x7ff0_0000 ==>
      And(Add(hi, Pow2(20 - j0)), Not(Pow2(20 - j0) - 1)) == hi + Pow2(20 - j0) - Low(hi, 20 - j0)
  {
    HighMasks(j0);
    AndLowMask(hi, 20 - j0);
    AndNotLowMask(hi, 20 - j0);
    AddAndClear(hi, 20 - j0);
    SmallAdd(hi, Pow2(20 - j0));
  }

  lemma SmallAdd(x: Word, y: nat)
    ensures x + y < 0x1_0000_0000 ==> Add(x, y) == x + y
  {
  }

  lemma HighSum(hi: Word, lo: Word, low: nat, K: nat)
    requires Unsign(hi) < 0x7ff0_0000 && low <= Unsign(hi) && K <= 0x10_0000
    ensures var x, step := DoubleOf(hi, lo), if Signed(hi) < 0 then 0 else K;
      && 0 <= hi - low + step < 0x1_0000_0000 && hi + step < 0x1_0000_0000 && low * 0x1_0000_0000 + lo <= x.mag
      && StepUp(x, low * 0x1_0000_0000 + lo, K * 0x1_0000_0000) ==
        if low == 0 && lo == 0 then DoubleOf(hi, lo) else DoubleOf(hi - low + step, 0)
  {
  }

  lemma HighBits(hi: Word, k: nat)
    requires 1 <= k <= 20
    ensures Low(hi, k) <= Unsign(hi)
    ensures Pow2(k) <= 0x10_0000 && Pow2(32 + k) == Pow2(k) * 0x1_0000_0000
  {
    LowUnsign(hi, k);
    LowBound(Unsign(hi), k);
    assert Pow2(k) <= 0x10_0000 by {
      Pow2Fractions();
      Pow2Monotone(k, 20);
    }
    Pow2Word();
    Pow2Add(k, 32);
  }

  lemma HighStepUp(hi: Word, lo: Word, k: nat)
    requires 1 <= k <= 20 && Unsign(hi) < 0x7ff0_0000
    ensures var x, low := DoubleOf(hi, lo), Low(hi, k);
      var step := if Signed(hi) < 0 then 0 else Pow2(k);
      && 0 <= hi - low + step < 0x1_0000_0000 && hi + step < 0x1_0000_0000
      && Low(x.mag, 32 + k) <= x.mag
      && StepUp(x, Low(x.mag, 32 + k), Pow2(32 + k)) ==
        if low == 0 && lo == 0 then x else DoubleOf(hi - low + step, 0)
  {
    BelowUnit(hi, lo, k);
    HighBits(hi, k);
    HighSum(hi, lo, Low(hi, k), Pow2(k));
  }

  /** The unit place lies in the high word: the rounding step. */
  lemma HighCase(hi: Word, lo: Word, j0: nat)
    requires DOUBLE.Valid() && j0 < 20 && Exp(DOUBLE, DoubleOf(hi, lo)) == 0x3ff + j0
    ensures var step, low := if Signed(hi) < 0 then 0 else Pow2(20 - j0), Low(hi, 20 - j0);
      && 0 <= hi - low + step < 0x1_0000_0000 && hi + step < 0x1_0000_0000
      && RoundUp(DOUBLE, DoubleOf(hi, lo)) ==
        if low == 0 && lo == 0 then DoubleOf(hi, lo) else DoubleOf(hi - low + step, 0)
  {
    DoubleExp(hi, lo);
    HighStepUp(hi, lo, 20 - j0);
    RoundUpMiddle(DoubleOf(hi, lo), j0);
  }

  lemma LowMasks(j0: nat)
    requires 20 <= j0 <= 51
    ensures Shr(0xffff_ffff, j0 - 20) == Pow2(52 - j0) - 1 < 0x1_0000_0000
    ensures j0 > 20 ==> Shl(1, 52 - j0) == Pow2(52 - j0) <= 0x8000_0000
  {
    Pow2Word();
    ShrOnes(32, j0 - 20);
    Pow2AtMostWord(52 - j0);
    if j0 > 20 {
      ShlOne(52 - j0);
    }
  }

  /** The unit place lies in the low word: the operators used there. */
  lemma LowOperators(lo: Word, j0: nat)
    requires 20 <= j0 <= 51
    ensures Shr(0xffff_ffff, j0 - 20) == Pow2(52 - j0) - 1 < 0x1_0000_0000
    ensures And(lo, Pow2(52 - j0) - 1) == Low(lo, 52 - j0)
    ensures And(lo, Not(Pow2(52 - j0) - 1)) == lo - Low(lo, 52 - j0) >= 0
    ensures j0 > 20 ==>
      && Shl(1, 52 - j0) == Pow2(52 - j0) <= 0x8000_0000
      && And(Add(lo, Pow2(52 - j0)), Not(Pow2(52 - j0) - 1)) == Add(lo, Pow2(52 - j0)) - Low(lo, 52 - j0) >= 0
  {
    LowMasks(j0);
    AndLowMask(lo, 52 - j0);
    AndNotLowMask(lo, 52 - j0);
    if j0 > 20 {
      AddAndClear(lo, 52 - j0);
    }
  }

  lemma LowSum(hi: Word, lo: Word, low: nat, K: nat)
    requires Unsign(hi) < 0x7ff0_0000
    requires low <= lo && low < K <= 0x1_0000_0000 && (K == 0x1_0000_0000 ==> low == lo) && (K < 0x1_0000_0000 ==>
      low <= Add(lo, K))
    ensures var x, j := DoubleOf(hi, lo), Add(lo, K);
      && low <= x.mag
      && StepUp(x, low, K) ==
        if low == 0 then DoubleOf(hi, lo)
        else if Signed(hi) < 0 then DoubleOf(hi, lo - low)
        else if K == 0x1_0000_0000 then DoubleOf(Add(hi, 1), 0)
        else DoubleOf(if j < lo then Add(hi, 1) else hi, j - low)
  {
    if low == 0 {
    } else if Signed(hi) < 0 {
    } else if Add(lo, K) < lo {
    } else {
    }
  }

  lemma LowBits(lo: Word, k: nat)
    requires 1 <= k <= 32
    ensures Low(lo, k) <= lo && Low(lo, k) < Pow2(k) <= 0x1_0000_0000
    ensures k == 32 ==> Pow2(k) == 0x1_0000_0000 && Low(lo, k) == lo
    ensures k < 32 ==> Pow2(k) < 0x1_0000_0000 && Low(lo, k) <= Add(lo, Pow2(k))
  {
    LowBound(lo, k);
    Pow2AtMostWord(k);
    if k == 32 {
      Pow2Word();
      LowSmall(lo, 32);
    } else {
      AddAndClear(lo, k);
    }
  }

  lemma LowStepUp(hi: Word, lo: Word, k: nat)
    requires 1 <= k <= 32 && Unsign(hi) < 0x7ff0_0000
    ensures var x, low, j := DoubleOf(hi, lo), Low(lo, k), Add(lo, Pow2(k));
      && low <= lo && (k == 32 ==> low == lo) && (k < 32 ==> low <= j)
      && Low(x.mag, k) <= x.mag
      && StepUp(x, Low(x.mag, k), Pow2(k)) ==
        if low == 0 then x
        else if Signed(hi) < 0 then DoubleOf(hi, lo - low)
        else if k == 32 then DoubleOf(Add(hi, 1), 0)
        else DoubleOf(if j < lo then Add(hi, 1) else hi, j - low)
  {
    BelowUnit(hi, lo, k);
    LowBits(lo, k);
    LowSum(hi, lo, Low(lo, k), Pow2(k));
  }

  /** The unit place lies in the low word: the rounding step, which may carry into the high one. */
  lemma LowCase(hi: Word, lo: Word, j0: nat)
    requires DOUBLE.Valid() && 20 <= j0 <= 51 && Exp(DOUBLE, DoubleOf(hi, lo)) == 0x3ff + j0
    ensures var low, j := Low(lo, 52 - j0), Add(lo, Pow2(52 - j0));
      && low <= lo && (j0 == 20 ==> low == lo) && (j0 > 20 ==> low <= j)
      && RoundUp(DOUBLE, DoubleOf(hi, lo)) ==
        if low == 0 then DoubleOf(hi, lo)
        else if Signed(hi) < 0 then DoubleOf(hi, lo - low)
        else if j0 == 20 then DoubleOf(Add(hi, 1), 0)
        else DoubleOf(if j < lo then Add(hi, 1) else hi, j - low)
  {
    DoubleExp(hi, lo);
    LowStepUp(hi, lo, 52 - j0);
    RoundUpMiddle(DoubleOf(hi, lo), j0);
  }

  /** The high-word branch of ceil, operator by operator, rounds up. */
  lemma HighBranch(hi: Word, lo: Word, j0: nat)
    requires DOUBLE.Valid() && j0 < 20 && Exp(DOUBLE, DoubleOf(hi, lo)) == 0x3ff + j0
    ensures Shr(0xf_ffff, j0) < 0x1_0000_0000
    ensures var i := Shr(0xf_ffff, j0);
      var n := if Signed(hi) > 0 then Add(hi, Shr(0x10_0000, j0)) else hi;
      && And(n, Not(i)) < 0x1_0000_0000
      && RoundUp(DOUBLE, DoubleOf(hi, lo)) ==
        if Or(And(hi, i), lo) == 0 then DoubleOf(hi, lo) else DoubleOf(And(n, Not(i)), 0)
  {
    var low, K, i := Low(hi, 20 - j0), Pow2(20 - j0), Shr(0xf_ffff, j0);
    HighCase(hi, lo, j0);
    HighOperators(hi, j0);
    assert Signed(hi) >= 0 ==> 0 < hi < 0x7ff0_0000 by {
      DoubleExp(hi, lo);
    }
    assert Or(And(hi, i), lo) == 0 <==> low == 0 && lo == 0 by {
      OrZero(low, lo);
    }
  }

  /** The low-word branch of ceil, operator by operator, rounds up. */
  lemma LowBranch(hi: Word, lo: Word, j0: nat)
    requires DOUBLE.Valid() && 20 <= j0 <= 51 && Exp(DOUBLE, DoubleOf(hi, lo)) == 0x3ff + j0
    ensures Shr(0xffff_ffff, j0 - 20) < 0x1_0000_0000
    ensures var i := Shr(0xffff_ffff, j0 - 20);
      var j := if j0 == 20 || Signed(hi) <= 0 then lo else Add(lo, Shl(1, 52 - j0));
      var h := if Signed(hi) > 0 && (j0 == 20 || j < lo) then Add(hi, 1) else hi;
      && And(j, Not(i)) < 0x1_0000_0000
      && RoundUp(DOUBLE, DoubleOf(hi, lo)) ==
        if And(lo, i) == 0 then DoubleOf(hi, lo) else DoubleOf(h, And(j, Not(i)))
  {
    DoubleExp(hi, lo);
    LowCase(hi, lo, j0);
    LowOperators(lo, j0);
  }

  /**
   ceil: the word pair of the least integer not below a finite x, with x's sign. The
   comparison of huge + x with zero, made to raise the inexact flag, is always true here.
   */
  method Ceil(x0: Word, x1: Word) returns (r0: Word, r1: Word)
    ensures DOUBLE.Valid()
    ensures IsFinite(DOUBLE, DoubleOf(x0, x1)) ==>
      var x, r := DoubleOf(x0, x1), DoubleOf(r0, r1);
      && r == RoundUp(DOUBLE, x)
      && IsFinite(DOUBLE, r) && r.neg == x.neg
      && Value(DOUBLE, r) == Ceiling(Value(DOUBLE, x)) as real
    ensures IsNaN(DOUBLE, DoubleOf(x0, x1)) ==> IsNaN(DOUBLE, DoubleOf(r0, r1))
    ensures !IsFinite(DOUBLE, DoubleOf(x0, x1)) && !IsNaN(DOUBLE, DoubleOf(x0, x1)) ==> r0 == x0 && r1 == x1
  {
    FormatsValid();
    ExponentField(x0);
    DoubleExp(x0, x1);
    RoundUpOuter(x0, x1);
    if IsFinite(DOUBLE, DoubleOf(x0, x1)) {
      RoundUpIsCeiling(DOUBLE, DoubleOf(x0, x1));
    }

    var i0, i1 := x0, x1;
    var j0 := And(Sar(i0, 20), 0x7ff) - 0x3ff;
    if j0 < 20 {
      if j0 < 0 {
        OrZero(i0, i1);
        if Signed(i0) < 0 {
          i0, i1 := 0x8000_0000, 0;
        } else if Or(i0, i1) != 0 {
          i0, i1 := 0x3ff0_0000, 0;
        }
      } else {
        HighBranch(i0, i1, j0);
        var i := Shr(0xf_ffff, j0);
        if Or(And(i0, i), i1) == 0 {
          return x0, x1;
        }
        if Signed(i0) > 0 {
          i0 := Add(i0, Shr(0x10_0000, j0));
        }
        i0, i1 := And(i0, Not(i)), 0;
      }
    } else if j0 > 51 {
      if j0 == 0x400 {
        SelfSumSpecial(x0, x1);
        var sum := DoubleSelfSum(x0, x1);
        return sum.0, sum.1;
      } else {
        return x0, x1;
      }
    } else {
      LowBranch(i0, i1, j0);
      var i := Shr(0xffff_ffff, j0 - 20);
      if And(i1, i) == 0 {
        return x0, x1;
      }
      if Signed(i0) > 0 {
        if j0 == 20 {
          i0 := Add(i0, 1);
        } else {
          var j := Add(i1, Shl(1, 52 - j0));
          if j < i1 {
            i0 := Add(i0, 1);
          }
          i1 := j;
        }
      }
      i1 := And(i1, Not(i));
    }
    return i0, i1;
  }

  // ---------- ceilf ----------

  lemma SingleExp(w: Word)
    ensures Exp(SINGLE, SingleOf(w)) == Unsign(w) / 0x80_0000
  {
    Pow2Fractions();
  }

  lemma SingleSumSpecial(w: Word)
    requires Exp(SINGLE, SingleOf(w)) == 0xff
    ensures var r := SingleSelfSum(w);
      && Exp(SINGLE, SingleOf(r)) == 0xff
      && (IsNaN(SINGLE, SingleOf(w)) <==> IsNaN(SINGLE, SingleOf(r)))
  {
    var r := SingleSelfSum(w);
    SingleExp(w);
    SingleExp(r);
    Pow2Fractions();
    if r == w {
    } else {
      assert r == w + 0x40_0000;
    }
  }

  lemma SingleMasks(j0: nat)
    requires j0 < 23
    ensures Shr(0x7f_ffff, j0) == Pow2(23 - j0) - 1 && Shr(0x80_0000, j0) == Pow2(23 - j0) <= 0x80_0000
  {
    Pow2Fractions();
    ShrOnes(23, j0);
    Pow2Monotone(23 - j0, 23);
  }

  lemma SingleOperators(w: Word, j0: nat)
    requires j0 < 23
    ensures Shr(0x7f_ffff, j0) == Pow2(23 - j0) - 1 && Shr(0x80_0000, j0) == Pow2(23 - j0) <= 0x80_0000
    ensures And(w, Pow2(23 - j0) - 1) == Low(w, 23 - j0)
    ensures And(w, Not(Pow2(23 - j0) - 1)) == w - Low(w, 23 - j0) >= 0
    ensures w < 0x7f80_0000 ==>
      And(Add(w, Pow2(23 - j0)), Not(Pow2(23 - j0) - 1)) == w + Pow2(23 - j0) - Low(w, 23 - j0)
  {
    SingleMasks(j0);
    AndLowMask(w, 23 - j0);
    AndNotLowMask(w, 23 - j0);
    AddAndClear(w, 23 - j0);
    SmallAdd(w, Pow2(23 - j0));
  }

  lemma SingleStepUp(w: Word, k: nat)
    requires 1 <= k <= 23 && Unsign(w) < 0x7f80_0000
    ensures var x, low, step := SingleOf(w), Low(w, k), if Signed(w) < 0 then 0 else Pow2(k);
      && 0 <= w - low + step < 0x1_0000_0000
      && Low(x.mag, k) <= x.mag
      && StepUp(x, Low(x.mag, k), Pow2(k)) == if low == 0 then x else SingleOf(w - low + step)
  {
    LowUnsign(w, k);
    LowBound(Unsign(w), k);
    assert Pow2(k) <= 0x80_0000 by {
      Pow2Fractions();
      Pow2Monotone(k, 23);
    }
  }

  lemma SingleMiddle(x: Float, j0: nat)
    requires SINGLE.Valid() && j0 <= 22 && Exp(SINGLE, x) == 0x7f + j0
    ensures Low(x.mag, 23 - j0) <= x.mag
    ensures RoundUp(SINGLE, x) == StepUp(x, Low(x.mag, 23 - j0), Pow2(23 - j0))
  {
    FormatsValid();
    LowBound(x.mag, 23 - j0);
  }

  lemma SingleCase(w: Word, j0: nat)
    requires SINGLE.Valid() && j0 < 23 && Exp(SINGLE, SingleOf(w)) == 0x7f + j0
    ensures Signed(w) >= 0 ==> 0 < w < 0x7f80_0000
    ensures var step, low := if Signed(w) < 0 then 0 else Pow2(23 - j0), Low(w, 23 - j0);
      && 0 <= w - low + step < 0x1_0000_0000
      && RoundUp(SINGLE, SingleOf(w)) == if low == 0 then SingleOf(w) else SingleOf(w - low + step)
  {
    SingleExp(w);
    SingleStepUp(w, 23 - j0);
    SingleMiddle(SingleOf(w), j0);
  }

  lemma SingleOuter(w: Word)
    requires SINGLE.Valid()
    ensures var x, e := SingleOf(w), Exp(SINGLE, SingleOf(w));
      && (e < 0x7f && Signed(w) < 0 ==> RoundUp(SINGLE, x) == SingleOf(0x8000_0000))
      && (e < 0x7f && Signed(w) >= 0 ==>
            RoundUp(SINGLE, x) == if w == 0 then SingleOf(w) else SingleOf(0x3f80_0000))
      && (e >= 0x7f + 23 ==> RoundUp(SINGLE, x) == x)
  {
    FormatsValid();
    Pow2Fractions();
  }

  /** The middle branch of ceilf, operator by operator, rounds up. */
  lemma SingleBranch(w: Word, j0: nat)
    requires SINGLE.Valid() && j0 < 23 && Exp(SINGLE, SingleOf(w)) == 0x7f + j0
    ensures Shr(0x7f_ffff, j0) < 0x1_0000_0000
    ensures var i := Shr(0x7f_ffff, j0);
      var n := if Signed(w) > 0 then Add(w, Shr(0x80_0000, j0)) else w;
      && And(n, Not(i)) < 0x1_0000_0000
      && RoundUp(SINGLE, SingleOf(w)) == if And(w, i) == 0 then SingleOf(w) else SingleOf(And(n, Not(i)))
  {
    SingleCase(w, j0);
    SingleOperators(w, j0);
  }

  /** ceilf: the word of the least integer not below a finite x, with x's sign. */
  method Ceilf(x: Word) returns (r: Word)
    ensures SINGLE.Valid()
    ensures IsFinite(SINGLE, SingleOf(x)) ==>
      && SingleOf(r) == RoundUp(SINGLE, SingleOf(x))
      && IsFinite(SINGLE, SingleOf(r)) && SingleOf(r).neg == SingleOf(x).neg
      && Value(SINGLE, SingleOf(r)) == Ceiling(Value(SINGLE, SingleOf(x))) as real
    ensures IsNaN(SINGLE, SingleOf(x)) ==> IsNaN(SINGLE, SingleOf(r))
    ensures !IsFinite(SINGLE, SingleOf(x)) && !IsNaN(SINGLE, SingleOf(x)) ==> r == x
  {
    FormatsValid();
    ExponentField(x);
    SingleExp(x);
    SingleOuter(x);
    if IsFinite(SINGLE, SingleOf(x)) {
      RoundUpIsCeiling(SINGLE, SingleOf(x));
    }

    var i0 := x;
    var j0 := And(Sar(i0, 23), 0xff) - 0x7f;
    if j0 < 23 {
      if j0 < 0 {
        if Signed(i0) < 0 {
          i0 := 0x8000_0000;
        } else if i0 != 0 {
          i0 := 0x3f80_0000;
        }
      } else {
        SingleBranch(i0, j0);
        var i := Shr(0x7f_ffff, j0);
        if And(i0, i) == 0 {
          return x;
        }
        if Signed(i0) > 0 {
          i0 := Add(i0, Shr(0x80_0000, j0));
        }
        i0 := And(i0, Not(i));
      }
    } else {
      if j0 == 0x80 {
        SingleSumSpecial(x);
        return SingleSelfSum(x);
      } else {
        return x;
      }
    }
    return i0;
  }

  /** Widening the result of ceilf gives, bit for bit, ceil of the widened argument. */
  lemma CeilfWidens(x: Word, hi: Word, lo: Word, rhi: Word, rlo: Word, r: Word)
    requires DOUBLE.Valid() && SINGLE.Valid()
    requires Converts(SINGLE, SingleOf(x), DOUBLE, DoubleOf(hi, lo))
    requires SingleOf(r) == RoundUp(SINGLE, SingleOf(x))
    requires Converts(SINGLE, SingleOf(r), DOUBLE, DoubleOf(rhi, rlo))
    ensures DoubleOf(rhi, rlo) == RoundUp(DOUBLE, DoubleOf(hi, lo))
  {
    RoundUpConverts(SINGLE, SingleOf(x), DOUBLE, DoubleOf(hi, lo));
    EncodingUnique(DOUBLE, DoubleOf(rhi, rlo), RoundUp(DOUBLE, DoubleOf(hi, lo)));
  }

  lemma RealScale(a: real, b: real, c: real)
    requires b > 0.0 && c > 0.0
    ensures b * c > 0.0 && (a * c) / (b * c) == a / b
  {
    var v := a / b;
    assert v * b == a;
    assert v * (b * c) == a * c;
  }

  lemma {:induction false} HighestBit(n: nat) returns (h: nat)
    requires n > 0
    ensures Pow2(h) <= n < Pow2(h + 1)
  {
    h := 0;
    if n > 1 {
      h := HighestBit(n / 2);
      h := h + 1;
    }
  }

  /** A significand brought to p bits below its highest one. */
  lemma Aligned(p: nat, sig: nat, h: nat)
    requires Pow2(h) <= sig < Pow2(h + 1) && h <= p
    ensures Pow2(p) <= sig * Pow2(p - h) < 2 * Pow2(p)
  {
    Pow2Add(h, p - h);
    MulAtMost(Pow2(h), sig, Pow2(p - h));
    MulLess(sig, Pow2(h + 1), Pow2(p - h));
    Associate(2, Pow2(h), Pow2(p - h));
  }

  /** The encoding of an exponent and a significand of p bits below the highest one. */
  lemma Encoded(P: nat, s: nat, e: nat) returns (mag: nat)
    requires P <= s < 2 * P && e > 0
    ensures mag / P == e && mag % P == s - P
  {
    MulAtMost(0, e, P);
    mag := e * P + (s - P);
    DivModUnique(mag, P, e, s - P);
  }

  /** A double for sig * 2^t smallest subnormals, given the highest bit h of sig. */
  lemma NormalDouble(sig: nat, h: nat, t: nat) returns (mag: nat)
    requires Pow2(h) <= sig < Pow2(h + 1) && h <= 52 <= t + h && t + h < 2046 + 52 - 1
    ensures Scaled(DOUBLE, mag) == sig * Pow2(t) && ExpOf(DOUBLE, mag) < 2047
  {
    var s, e := sig * Pow2(52 - h), t + h - 52 + 1;
    Aligned(52, sig, h);
    mag := Encoded(Pow2(52), s, e);
    assert s * Pow2(e - 1) == sig * Pow2(t) by {
      Pow2Add(52 - h, e - 1);
      Associate(sig, Pow2(52 - h), Pow2(e - 1));
    }
  }

  /** Every finite float is a double, so the conversions above exist. */
  lemma WideningExists(x: Float) returns (y: Float)
    requires SINGLE.Valid() && DOUBLE.Valid() && IsFinite(SINGLE, x)
    ensures Converts(SINGLE, x, DOUBLE, y)
  {
    FormatsValid();
    var d := (DOUBLE.Bias() + DOUBLE.p) - (SINGLE.Bias() + SINGLE.p);
    var mag := WidenScaled(x.mag, d);
    y := Float(x.neg, mag);
    SameValue(x, y, d);
  }

  lemma SameValue(x: Float, y: Float, d: nat)
    requires SINGLE.Valid() && DOUBLE.Valid() && x.neg == y.neg
    requires DOUBLE.Bias() + DOUBLE.p == SINGLE.Bias() + SINGLE.p + d
    requires Scaled(DOUBLE, y.mag) == Scaled(SINGLE, x.mag) * Pow2(d)
    ensures Value(SINGLE, x) == Value(DOUBLE, y)
  {
    var n: int, c: int := Scaled(SINGLE, x.mag), Pow2(d);
    var a := if x.neg then -n else n;
    assert Unit(DOUBLE) == Unit(SINGLE) * c by {
      Pow2Add(SINGLE.Bias() - 1 + SINGLE.p, d);
    }
    assert (if x.neg then -(n * c) else n * c) == a * c by {
      Distribute(-n, n, c);
    }
    SameQuotient(a, Unit(SINGLE), c);
  }

  lemma SameQuotient(n: int, u: nat, c: nat)
    requires u > 0 && c > 0
    ensures u * c > 0 && (n * c) as real / (u * c) as real == n as real / u as real
  {
    assert (n * c) as real == n as real * c as real;
    assert (u * c) as real == u as real * c as real;
    RealScale(n as real, u as real, c as real);
  }

  lemma WidenSubnormal(m: nat, d: nat) returns (mag: nat)
    requires 0 < m && m / Pow2(23) == 0 && d == 925
    ensures Scaled(DOUBLE, mag) == m * Pow2(d) && ExpOf(DOUBLE, mag) < 2047
  {
    DivMod(m, Pow2(23));
    var h := HighestBit(m);
    if h > 23 {
      Pow2Monotone(23, h);
    }
    mag := NormalDouble(m, h, d);
  }

  lemma WidenNormal(m: nat, d: nat) returns (mag: nat)
    requires 0 < ExpOf(SINGLE, m) < 0xff && d == 925
    ensures Scaled(DOUBLE, mag) == Scaled(SINGLE, m) * Pow2(d) && ExpOf(DOUBLE, mag) < 2047
  {
    var e, sig := ExpOf(SINGLE, m), Pow2(23) + m % Pow2(23);
    assert Pow2(24) == 2 * Pow2(23);
    mag := NormalDouble(sig, 23, e - 1 + d);
    Pow2Add(e - 1, d);
    Associate(sig, Pow2(e - 1), Pow2(d));
  }

  lemma WidenScaled(m: nat, d: nat) returns (mag: nat)
    requires ExpOf(SINGLE, m) < 0xff && d == 925
    ensures Scaled(DOUBLE, mag) == Scaled(SINGLE, m) * Pow2(d) && ExpOf(DOUBLE, mag) < 2047
  {
    if m == 0 {
      mag := 0;
    } else if ExpOf(SINGLE, m) == 0 {
      mag := WidenSubnormal(m, d);
    } else {
      mag := WidenNormal(m, d);
    }
  }
}
