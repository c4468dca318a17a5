/** Programming the card clock (boot1/driver/drv_sd/mmc_bsp.c:164-257) in 32-bit unsigned arithmetic. */
module CardClock {
  import opened Bits

  /** Unsigned 32-bit product and sum, as the machine computes them. */
  function Mul32(x: Word, y: Word): Word { x * y % 0x1_0000_0000 }

  function Add32(x: Word, y: Word): Word { (x + y) % 0x1_0000_0000 }

  /** The PLL6 frequency in hertz for a register value: half of 24 MHz, times bits 12..8, times bits 5..4 plus one. */
  function Pll6(rval: Word): int { 12_000_000 * Field(rval, 12, 8) * (Field(rval, 5, 4) + 1) }

  lemma Pll6Bound(rval: Word)
    ensures 0 <= Pll6(rval) <= 1_488_000_000
    ensures 24_000_000 * (rval / 0x100 % 0x20) * (rval / 0x10 % 4 + 1) == 2 * Pll6(rval)
  {
    Pll6Fields(rval);
    var n, k := rval / 0x100 % 0x20, rval / 0x10 % 4 + 1;
    MulAtMost(0, n, k);
    MulAtMost(k, 4, 12_000_000 * n);
  }

  lemma Pll6Fields(rval: Word)
    ensures Field(rval, 12, 8) == rval / 0x100 % 0x20 && Field(rval, 5, 4) == rval / 0x10 % 4
  {
    assert Pow2(8) == 0x100 && Pow2(5) == 0x20 && Pow2(4) == 0x10 && Pow2(2) == 4;
    FieldIsDiv(rval, 12, 8, 0x100, 0x20);
    FieldIsDiv(rval, 5, 4, 0x10, 4);
  }

  /** The product does not wrap. */
  lemma ProductExact(n: nat, k: nat)
    requires n < 0x20 && k <= 4
    ensures Mul32(Mul32(24_000_000, n), k) == 24_000_000 * n * k
  {
    MulAtMost(0, n, k);
    MulAtMost(k, 4, 24_000_000 * n);
  }

  /** ccm_get_pll6_dev_clk. */
  method GetPll6(rval: Word) returns (hz: Word)
    ensures hz == Pll6(rval) <= 1_488_000_000
  {
    Pll6Bound(rval);
    var n, k := rval / 0x100 % 0x20, rval / 0x10 % 4 + 1;
    ProductExact(n, k);
    hz := Mul32(Mul32(24_000_000, n), k) / 2;
  }

  /** The rounded ratio the divider aims at. */
  function Ratio(sclk: nat, cclk: nat): nat
    requires cclk > 0
  {
    var d := (2 * sclk + cclk) / (2 * cclk);
    if d == 0 then 1 else d
  }

  /** Two to the n, for the four pre-dividers. */
  function PreDiv(n: nat): nat
    requires n <= 3
  {
    if n == 0 then 1 else if n == 1 then 2 else if n == 2 then 4 else 8
  }

  /** It is a nearest whole ratio, but at least one. */
  lemma RatioNearest(sclk: nat, cclk: nat)
    requires cclk > 0
    ensures var d := Ratio(sclk, cclk);
      && d >= 1 && (d > 1 ==> 2 * (d * cclk) <= 2 * sclk + cclk) && 2 * sclk < 2 * (d * cclk) + cclk
  {
    var d := (2 * sclk + cclk) / (2 * cclk);
    DivMod(2 * sclk + cclk, 2 * cclk);
    Associate(2, d, cclk);
    assert d * (2 * cclk) == 2 * (d * cclk);
  }

  // ---------- what the module clock register makes of it ----------

  /** The clock bit 24 of the register selects: PLL6, or the 24 MHz oscillator. */
  function SourceOf(reg: Word, pll6: Word): int { if Field(reg, 24, 24) == 1 then Pll6(pll6) else 24_000_000 }

  /** What bits 17..16 and 3..0 divide it by. */
  function DividerOf(reg: Word): int { Pow2(Field(reg, 17, 16)) * (Field(reg, 3, 0) + 1) }

  /** The fields of a register that is put together from them. */
  lemma RegisterFields(src: nat, n: nat, m: nat)
    requires src <= 1 && n <= 3 && 1 <= m <= 16
    ensures var reg: Word := 0x8000_0000 + src * 0x100_0000 + n * 0x1_0000 + (m - 1);
      && Field(reg, 31, 31) == 1 && Field(reg, 24, 24) == src
      && Field(reg, 17, 16) == n && Field(reg, 3, 0) == m - 1 && DividerOf(reg) == PreDiv(n) * m
  {
    var reg: Word := 0x8000_0000 + src * 0x100_0000 + n * 0x1_0000 + (m - 1);
    Powers();
    FieldPlaced(reg, 31, 31, 0x8000_0000, 2, 0, 1, src * 0x100_0000 + n * 0x1_0000 + (m - 1));
    FieldPlaced(reg, 24, 24, 0x100_0000, 2, 0x40, src, n * 0x1_0000 + (m - 1));
    FieldPlaced(reg, 17, 16, 0x1_0000, 4, 0x2000 + src * 0x40, n, m - 1);
    FieldPlaced(reg, 3, 0, 1, 0x10, 0x800_0000 + src * 0x10_0000 + n * 0x1000, m - 1, 0);
  }

  lemma Powers()
    ensures Pow2(0) == 1 && Pow2(1) == 2 && Pow2(2) == 4 && Pow2(3) == 8 && Pow2(4) == 0x10
    ensures Pow2(16) == 0x1_0000 && Pow2(24) == 0x100_0000 && Pow2(31) == 0x8000_0000
  {
    Pow2Word();
    assert Pow2(8) == 0x100;
    Pow2Add(8, 8);
    Pow2Add(16, 8);
  }

  class Host {
    var mclk: nat     // the resulting frequency
    var modReg: Word  // the module clock register

    constructor ()
      ensures mclk == 0 && modReg == 0
    {
      mclk, modReg := 0, 0;
    }

    /**
     smc_set_card_clk over the host's range of clocks. The stored frequency is the one the module
     clock register makes. Up to a ratio of 128 the divider is at most the ratio and at least eight
     ninths of it, and the card clock exceeds the request by at most one half exactly there.
     */
    method SetCardClk(cclk: Word, pll6: Word)
      requires 400_000 <= cclk <= 52_000_000
      modifies this
      ensures Field(modReg, 31, 31) == 1 && (Field(modReg, 24, 24) == 1 <==> cclk > 400_000)
      ensures modReg ==
        0x8000_0000 + Field(modReg, 24, 24) * 0x100_0000 + Field(modReg, 17, 16) * 0x1_0000 + Field(modReg, 3, 0)
      ensures SourceOf(modReg, pll6) >= 0 && DividerOf(modReg) > 0
      ensures mclk == SourceOf(modReg, pll6) / DividerOf(modReg)
      ensures var div := Ratio(SourceOf(modReg, pll6), cclk);
        && (div <= 128 ==> DividerOf(modReg) <= div && 8 * div <= 9 * DividerOf(modReg))
        && (div > 128 ==> DividerOf(modReg) == 1)
        && (2 * mclk <= 3 * cclk <==> div <= 128)
    {
      var sclk: Word, src := 24_000_000, 0;
      if cclk > 400_000 {
        src := 1;
        sclk := GetPll6(pll6);
      }
      RatioExact(sclk, cclk);
      var div := Add32(Mul32(2, sclk), cclk) / Mul32(2, cclk);
      div := if div == 0 then 1 else div;
      var m, n := ChooseDivider(div);
      modReg := 0x8000_0000 + src * 0x100_0000 + n * 0x1_0000 + (m - 1);
      RegisterFields(src, n, m);
      mclk := Divide(sclk, n, m);
      Overshoot(sclk, cclk, div, PreDiv(n) * m, mclk);
    }
  }

  /** No 32-bit step of the ratio wraps. */
  lemma RatioExact(sclk: Word, cclk: Word)
    requires sclk <= 1_488_000_000 && 0 < cclk <= 52_000_000
    ensures Mul32(2, sclk) == 2 * sclk && Mul32(2, cclk) == 2 * cclk
    ensures Add32(Mul32(2, sclk), cclk) == 2 * sclk + cclk
    ensures (2 * sclk + cclk) / (2 * cclk) >= 0
  {
    DivMod(2 * sclk + cclk, 2 * cclk);
  }

  /** The divider for a ratio, as a factor m and a power of two. */
  method ChooseDivider(div: nat) returns (m: nat, n: nat)
    requires div > 0
    ensures n <= 3 && 1 <= m <= 16
    ensures div <= 128 ==> PreDiv(n) * m <= div && 8 * div <= 9 * (PreDiv(n) * m)
    ensures div > 128 ==> n == 0 && m == 1
  {
    if div > 128 {
      m, n := 1, 0;
    } else if div > 64 {
      n, m := 3, div / 8;
    } else if div > 32 {
      n, m := 2, div / 4;
    } else if div > 16 {
      n, m := 1, div / 2;
    } else {
      n, m := 0, div;
    }
  }

  /** The divided frequency: dividing twice is dividing by the product. */
  method Divide(sclk: nat, n: nat, m: nat) returns (hz: nat)
    requires n <= 3 && m > 0
    ensures PreDiv(n) * m > 0 && hz == sclk / (PreDiv(n) * m)
  {
    DivDiv(sclk, PreDiv(n), m);
    if n == 0 {
      hz := sclk / 1 / m;
    } else if n == 1 {
      hz := sclk / 2 / m;
    } else if n == 2 {
      hz := sclk / 4 / m;
    } else {
      hz := sclk / 8 / m;
    }
  }

  lemma Overshoot(sclk: nat, cclk: nat, div: nat, p: nat, mclk: nat)
    requires cclk > 0 && div == Ratio(sclk, cclk) && p > 0 && mclk == sclk / p
    requires div <= 128 ==> p <= div && 8 * div <= 9 * p
    requires div > 128 ==> p == 1
    ensures 2 * mclk <= 3 * cclk <==> div <= 128
  {
    var d := (2 * sclk + cclk) / (2 * cclk);
    DivMod(2 * sclk + cclk, 2 * cclk);
    DivMod(sclk, p);
    assert d * (2 * cclk) == 2 * (d * cclk) by { Associate(2, d, cclk); }
    if div <= 128 {
      MulAtMost(d, div, cclk);
      MulAtMost(mclk * p, sclk, 1);
      WithinHalf(sclk, cclk, div, p, mclk);
    } else {
      MulAtMost(129, d, cclk);
    }
  }

  /** 2 * mclk * p <= 2 * sclk < (2 * div + 1) * cclk <= 3 * p * cclk. */
  lemma WithinHalf(sclk: nat, cclk: nat, div: nat, p: nat, mclk: nat)
    requires p > 0 && mclk * p <= sclk && 2 * sclk < 2 * (div * cclk) + cclk
    requires div > 0 && p <= div && 8 * div <= 9 * p
    ensures 2 * mclk <= 3 * cclk
  {
    assert 2 * div + 1 <= 3 * p;
    MulAtMost(2 * div + 1, 3 * p, cclk);
    Distribute(2 * div, 1, cclk);
    Associate(2, div, cclk);
    assert 3 * p * cclk == 3 * cclk * p;
    if 2 * mclk > 3 * cclk {
      MulLess(3 * cclk, 2 * mclk, p);
      Associate(2, mclk, p);
    }
  }
}
