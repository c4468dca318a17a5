/** Card capacity from the card-specific data register (boot1/driver/drv_sd/mmc.c:889-913, 1038-1040). */
module Csd {
  import opened Bits

  /** The register as four words, bits 127..96 first, as the response words deliver it. */
  datatype Csd = Csd(c0: Word, c1: Word, c2: Word, c3: Word)

  // ---------- the code's decoding ----------

  /** 1 << READ_BL_LEN, before it is limited to 512. */
  function RawReadBlLen(c: Csd): Word { Shl(1, And(Shr(c.c1, 16), 0xf)) }

  function ReadBlLen(c: Csd): Word {
    if RawReadBlLen(c) > 512 then 512 else RawReadBlLen(c)
  }

  /** The write block length of an MMC card, limited likewise. */
  function WriteBlLen(c: Csd): Word {
    var len := Shl(1, And(Shr(c.c3, 22), 0xf));
    if len > 512 then 512 else len
  }

  function DeviceSize(c: Csd, highCapacity: bool): nat {
    if highCapacity then Or(Shl(And(c.c1, 0x3f), 16), Shr(And(c.c2, 0xffff_0000), 16))
    else Or(Shl(And(c.c1, 0x3ff), 2), Shr(And(c.c2, 0xc000_0000), 30))
  }

  function SizeMult(c: Csd, highCapacity: bool): nat {
    if highCapacity then 8 else Shr(And(c.c2, 0x3_8000), 15)
  }

  /** mmc->capacity, a 64-bit unsigned integer. */
  function Capacity(c: Csd, highCapacity: bool): nat {
    (DeviceSize(c, highCapacity) + 1) * Pow2(SizeMult(c, highCapacity) + 2) % 0x1_0000_0000_0000_0000
      * RawReadBlLen(c) % 0x1_0000_0000_0000_0000
  }

  /** mmc->lba, a 32-bit unsigned integer: boot1 shifts, boot0 divides. */
  function LbaBoot1(c: Csd, highCapacity: bool): Word { Shifted(Capacity(c, highCapacity)) }

  function Shifted(capacity: nat): Word { Shr(capacity, 9) % 0x1_0000_0000 }

  function LbaBoot0(c: Csd, highCapacity: bool): Word
    requires ReadBlLen(c) > 0
  {
    Capacity(c, highCapacity) / ReadBlLen(c) % 0x1_0000_0000
  }

  // ---------- the register as the standard numbers it ----------

  /** The 128-bit register. */
  function Register(c: Csd): nat {
    ((c.c0 * 0x1_0000_0000 + c.c1) * 0x1_0000_0000 + c.c2) * 0x1_0000_0000 + c.c3
  }

  /** Memory capacity of sections 5.3.2 (version 1) and 5.3.3 (version 2), in bytes. */
  function SpecCapacity(r: nat, version2: bool): nat {
    if version2 then (Field(r, 69, 48) + 1) * 0x8_0000
    else (Field(r, 73, 62) + 1) * Pow2(Field(r, 49, 47) + 2) * Pow2(Field(r, 83, 80))
  }

  // ---------- the decoding meets the standard ----------

  lemma UpperWords(c: Csd)
    ensures var a := c.c0 * 0x1_0000_0000 + c.c1;
      && Shr(Register(c), 64) == a
      && Shr(Register(c), 32) == a * 0x1_0000_0000 + c.c2
  {
    var a := c.c0 * 0x1_0000_0000 + c.c1;
    PairFields(a * 0x1_0000_0000 + c.c2, c.c3, 0, 0);
    PairFields(a, c.c2, 0, 0);
    ShrAdd(Register(c), 32, 32);
  }

  lemma ReadBlLenField(c: Csd)
    ensures Field(Register(c), 83, 80) == Low(Shr(c.c1, 16), 4) <= 15
    ensures RawReadBlLen(c) == Pow2(Field(Register(c), 83, 80))
  {
    UpperField(c, 16, 4);
    assert Pow2(4) == 16;
    AndLowMask(Shr(c.c1, 16), 4);
    LowBound(Shr(c.c1, 16), 4);
    ShlOne(Low(Shr(c.c1, 16), 4));
  }

  /** A field of k bits inside c1, n bits up. */
  lemma UpperField(c: Csd, n: nat, k: nat)
    requires n + k <= 32
    ensures Low(Shr(Register(c), 64 + n), k) == Low(Shr(c.c1, n), k)
  {
    UpperWords(c);
    ShrAdd(Register(c), 64, n);
    PairFields(c.c0, c.c1, n, k);
  }

  /** A field of k bits inside c0, n bits up. */
  lemma TopField(c: Csd, n: nat, k: nat)
    ensures Low(Shr(Register(c), 96 + n), k) == Low(Shr(c.c0, n), k)
  {
    UpperWords(c);
    ShrAdd(Register(c), 64, 32 + n);
    PairFields(c.c0, c.c1, n, k);
  }

  /** A field of k bits inside c3, n bits up. */
  lemma BottomField(c: Csd, n: nat, k: nat)
    requires n + k <= 32
    ensures Low(Shr(Register(c), n), k) == Low(Shr(c.c3, n), k)
  {
    PairFields((c.c0 * 0x1_0000_0000 + c.c1) * 0x1_0000_0000 + c.c2, c.c3, n, k);
  }

  /** WRITE_BL_LEN is bits 25..22; the driver's write length is two to it, at most 512. */
  lemma WriteBlLenField(c: Csd)
    ensures var f := Field(Register(c), 25, 22); WriteBlLen(c) == if f >= 9 then 512 else Pow2(f)
  {
    var f := Field(Register(c), 25, 22);
    BottomField(c, 22, 4);
    assert Pow2(4) == 16 && Pow2(9) == 512;
    AndLowMask(Shr(c.c3, 22), 4);
    LowBound(Shr(c.c3, 22), 4);
    ShlOne(f);
    Pow2Monotone(if f >= 9 then 9 else f, if f >= 9 then f else 9);
  }

  /** SPEC_VERS, bits 125..122, by the division of the driver. */
  lemma SpecVersField(c: Csd)
    ensures Field(Register(c), 125, 122) == c.c0 / 0x400_0000 % 0x10
  {
    TopField(c, 26, 4);
    assert Pow2(4) == 0x10 && Pow2(10) == 0x400;
    Pow2Add(16, 10);
    Pow2Add(8, 8);
    assert Pow2(8) == 0x100;
    FieldIsDiv(c.c0, 29, 26, 0x400_0000, 0x10);
  }

  /** A field that starts in c2, n bits up, and runs k bits into c1. */
  lemma StraddlingField(c: Csd, n: nat, k: nat)
    requires n <= 32 && 1 <= k <= 32
    ensures Low(Shr(Register(c), 32 + n), 32 - n + k) == Low(c.c1, k) * Pow2(32 - n) + Shr(c.c2, n)
  {
    var a, s, m := c.c0 * 0x1_0000_0000 + c.c1, Shr(c.c2, n), 32 - n;
    assert Shr(Register(c), 32 + n) == a * Pow2(m) + s by {
      ShrC2(c, n);
    }
    assert Low(a, k) == Low(c.c1, k) by {
      LowJoinWord(c.c0, c.c1, k);
    }
    assert Low(a * Pow2(m) + s, m + k) == Low(a, k) * Pow2(m) + s by {
      ShrBound(c.c2, n);
      LowJoin(a, s, k, m);
    }
  }

  lemma ShrBound(w: Word, n: nat)
    requires n <= 32
    ensures Shr(w, n) < Pow2(32 - n)
  {
    Pow2Word();
    Pow2Add(32 - n, n);
    ShrIsDiv(w, n);
    DivMod(w, Pow2(n));
    if Shr(w, n) >= Pow2(32 - n) {
      MulAtMost(Pow2(32 - n), Shr(w, n), Pow2(n));
    }
  }

  lemma DeviceSizeField(c: Csd)
    ensures DeviceSize(c, false) == Field(Register(c), 73, 62) < 0x1000
    ensures DeviceSize(c, true) == Field(Register(c), 69, 48) < 0x40_0000
  {
    SmallSize(c);
    LargeSize(c);
  }

  lemma Masks()
    ensures Pow2(2) == 4 && Pow2(6) == 0x40 && Pow2(10) == 0x400 && Pow2(16) == 0x1_0000 && Pow2(30) == 0x4000_0000
  {
    Pow2Word();
    assert Pow2(31) == 2 * Pow2(30);
    Pow2Add(10, 6);
  }

  lemma SmallSize(c: Csd)
    ensures DeviceSize(c, false) == Field(Register(c), 73, 62) < 0x1000
  {
    Masks();
    StraddlingField(c, 30, 10);
    LowBound(c.c1, 10);
    ShrBound(c.c2, 30);
    assert And(c.c1, 0x3ff) == Low(c.c1, 10) by {
      AndLowMask(c.c1, 10);
    }
    assert Shr(And(c.c2, 0xc000_0000), 30) == Shr(c.c2, 30) by {
      TopBits(c.c2, 30);
    }
    assert Or(Shl(Low(c.c1, 10), 2), Shr(c.c2, 30)) == Low(c.c1, 10) * 4 + Shr(c.c2, 30) by {
      JoinFields(Low(c.c1, 10), Shr(c.c2, 30), 2);
    }
  }

  lemma LargeSize(c: Csd)
    ensures DeviceSize(c, true) == Field(Register(c), 69, 48) < 0x40_0000
  {
    Masks();
    StraddlingField(c, 16, 6);
    LowBound(c.c1, 6);
    ShrBound(c.c2, 16);
    assert And(c.c1, 0x3f) == Low(c.c1, 6) by {
      AndLowMask(c.c1, 6);
    }
    assert Shr(And(c.c2, 0xffff_0000), 16) == Shr(c.c2, 16) by {
      TopBits(c.c2, 16);
    }
    JoinFields(Low(c.c1, 6), Shr(c.c2, 16), 16);
  }

  /** Masking the bits of a word from n up, and shifting them down. */
  lemma TopBits(w: Word, n: nat)
    requires n <= 32
    ensures Pow2(n) <= 0x1_0000_0000
    ensures Shr(And(w, 0x1_0000_0000 - Pow2(n)), n) == Shr(w, n)
  {
    Pow2Word();
    Pow2AtMostWord(n);
    FieldShift(w, n, 32 - n);
    ShrBound(w, n);
    LowSmall(Shr(w, n), 32 - n);
  }

  lemma JoinFields(hi: nat, lo: nat, n: nat)
    requires lo < Pow2(n) && 0 <= hi * Pow2(n) < 0x1_0000_0000
    ensures Or(Shl(hi, n), lo) == hi * Pow2(n) + lo
  {
    ShlIsMul(hi, n);
    DivModUnique(hi * Pow2(n), 0x1_0000_0000, 0, hi * Pow2(n));
    OrDisjoint(hi, lo, n);
  }

  lemma SizeMultField(c: Csd)
    ensures SizeMult(c, false) == Field(Register(c), 49, 47) <= 7
  {
    var f := Low(Shr(c.c2, 15), 3);
    assert SizeMult(c, false) == f <= 7 by {
      assert Pow2(3) == 8 && Pow2(15) == 0x8000 && Pow2(18) == 0x4_0000;
      FieldShift(c.c2, 15, 3);
      LowBound(Shr(c.c2, 15), 3);
    }
    InnerField(c, 15, 3);
  }

  /** A field of k bits inside c2, n bits up. */
  lemma InnerField(c: Csd, n: nat, k: nat)
    requires n + k <= 32
    ensures Low(Shr(Register(c), 32 + n), k) == Low(Shr(c.c2, n), k)
  {
    UpperWords(c);
    ShrAdd(Register(c), 32, n);
    PairFields(c.c0 * 0x1_0000_0000 + c.c1, c.c2, n, k);
  }

  /** The register from n bits up in c2. */
  lemma ShrC2(c: Csd, n: nat)
    requires n <= 32
    ensures Shr(Register(c), 32 + n) == (c.c0 * 0x1_0000_0000 + c.c1) * Pow2(32 - n) + Shr(c.c2, n)
  {
    UpperWords(c);
    ShrAdd(Register(c), 32, n);
    ShrJoin(c.c0 * 0x1_0000_0000 + c.c1, c.c2, n);
  }

  // ---------- capacity ----------

  /** The number of READ_BL_LEN-sized blocks. */
  function BlockCount(c: Csd, highCapacity: bool): nat {
    (DeviceSize(c, highCapacity) + 1) * Pow2(SizeMult(c, highCapacity) + 2)
  }

  lemma BlockCountBound(c: Csd, highCapacity: bool)
    ensures 0 < BlockCount(c, highCapacity) <= if highCapacity then 0x1_0000_0000 else 0x20_0000
  {
    DeviceSizeField(c);
    SizeMultField(c);
    var m := SizeMult(c, highCapacity) + 2;
    assert Pow2(9) == 0x200 && Pow2(10) == 0x400;
    Pow2Monotone(m, if highCapacity then 10 else 9);
    MulAtMost(DeviceSize(c, highCapacity) + 1, if highCapacity then 0x40_0000 else 0x1000, Pow2(m));
    MulLess(0, DeviceSize(c, highCapacity) + 1, Pow2(m));
  }

  lemma NoWrap(n: nat, L: nat)
    requires n <= 0x1_0000_0000 && L <= 0x8000
    ensures n % 0x1_0000_0000_0000_0000 * L % 0x1_0000_0000_0000_0000 == n * L >= 0
  {
    MulAtMost(n, 0x1_0000_0000, L);
    MulAtMost(0, n, L);
    DivModUnique(n, 0x1_0000_0000_0000_0000, 0, n);
    DivModUnique(n * L, 0x1_0000_0000_0000_0000, 0, n * L);
  }

  /** READ_BL_LEN and the block length it gives. */
  lemma BlockLength(c: Csd)
    ensures var k := Field(Register(c), 83, 80);
      && k <= 15 && RawReadBlLen(c) == Pow2(k) <= 0x8000
      && (k >= 9 ==> ReadBlLen(c) == 512) && (k < 9 ==> ReadBlLen(c) == Pow2(k) < 512)
      && (k <= 11 ==> Pow2(k) <= 0x800)
  {
    ReadBlLenField(c);
    var k := Field(Register(c), 83, 80);
    assert Pow2(9) == 0x200;
    assert Pow2(11) == 0x800;
    assert Pow2(15) == 0x8000;
    Pow2Monotone(k, if k < 9 then 8 else if k <= 11 then 11 else 15);
    if k >= 9 {
      Pow2Monotone(9, k);
    } else {
      assert Pow2(8) == 0x100;
    }
  }

  /** No step of the 64-bit computation wraps. */
  lemma CapacityProduct(c: Csd, highCapacity: bool)
    ensures Capacity(c, highCapacity) == BlockCount(c, highCapacity) * Pow2(Field(Register(c), 83, 80))
  {
    BlockCountBound(c, highCapacity);
    BlockLength(c);
    NoWrap(BlockCount(c, highCapacity), RawReadBlLen(c));
  }

  /** The capacity decoded for a version 1 card is the standard's formula, whatever the register. */
  lemma StandardCapacity(c: Csd)
    ensures Capacity(c, false) == SpecCapacity(Register(c), false)
  {
    CapacityProduct(c, false);
    DeviceSizeField(c);
    SizeMultField(c);
  }

  /** For a version 2 card it is the formula exactly when READ_BL_LEN is 9, as the standard fixes it. */
  lemma HighCapacity(c: Csd)
    ensures Capacity(c, true) == SpecCapacity(Register(c), true) <==> Field(Register(c), 83, 80) == 9
  {
    CapacityProduct(c, true);
    DeviceSizeField(c);
    var size, k := DeviceSize(c, true) + 1, Field(Register(c), 83, 80);
    assert Pow2(10) == 0x400;
    assert Pow2(9) == 0x200;
    if k < 9 {
      Pow2Monotone(k, 8);
      assert Pow2(8) == 0x100;
    } else if k > 9 {
      Pow2Monotone(10, k);
    }
    OnlyFactor(size, Pow2(k));
  }

  lemma OnlyFactor(size: nat, L: nat)
    requires size > 0
    ensures size * 0x400 * L == size * 0x8_0000 <==> L == 0x200
  {
    MulLess(0, size * 0x400, 1);
    if L < 0x200 {
      MulLess(L, 0x200, size * 0x400);
    } else if L > 0x200 {
      MulLess(0x200, L, size * 0x400);
    }
  }

  /** The block count boot1 shifts out and the one boot0 divides out agree exactly from READ_BL_LEN 9 on. */
  lemma ShiftAndDivision(c: Csd, highCapacity: bool)
    ensures ReadBlLen(c) > 0
    ensures LbaBoot1(c, highCapacity) == LbaBoot0(c, highCapacity) <==> Field(Register(c), 83, 80) >= 9
  {
    CapacityProduct(c, highCapacity);
    BlockCountBound(c, highCapacity);
    BlockLength(c);
    var n, k := BlockCount(c, highCapacity), Field(Register(c), 83, 80);
    ShrIsDiv(Capacity(c, highCapacity), 9);
    assert Pow2(9) == 0x200;
    if k < 9 {
      SmallBlocks(n, k);
    }
  }

  /** With blocks below 512 bytes, dividing by their length and shifting by 9 differ, mod 2^32 too. */
  lemma SmallBlocks(n: nat, k: nat)
    requires 0 < n <= 0x1_0000_0000 && k < 9
    ensures n * Pow2(k) / Pow2(k) == n
    ensures n * Pow2(k) / 0x200 % 0x1_0000_0000 != n % 0x1_0000_0000
  {
    var d := Pow2(9 - k);
    assert n * Pow2(k) / Pow2(k) == n by {
      DivModUnique(n * Pow2(k), Pow2(k), n, 0);
    }
    assert 2 <= d <= 0x200 by {
      assert Pow2(9) == 0x200 && Pow2(1) == 2;
      Pow2Monotone(1, 9 - k);
      Pow2Monotone(9 - k, 9);
    }
    assert n * Pow2(k) / 0x200 == n / d by {
      assert Pow2(9) == 0x200;
      Pow2Add(k, 9 - k);
      MulAtMost(0, n, Pow2(k));
      DivDiv(n * Pow2(k), Pow2(k), d);
    }
    SmallerQuotient(n, d, n / d);
  }

  lemma SmallerQuotient(n: nat, d: nat, q: int)
    requires 0 < n <= 0x1_0000_0000 && 2 <= d <= 0x200 && q == n / d
    ensures q % 0x1_0000_0000 != n % 0x1_0000_0000
  {
    DivMod(n, d);
    MulAtMost(2, d, q);
    assert 2 * q <= n;
    assert n == 0x1_0000_0000 ==> q > 0;
  }

  /**
   A standard-capacity card with blocks of 512 to 2048 bytes: it has as many 512-byte blocks
   as its capacity says, and the byte address of every one of them fits in 32 bits.
   */
  lemma StandardCardAddresses(c: Csd, block: nat)
    requires 9 <= Field(Register(c), 83, 80) <= 11
    ensures ReadBlLen(c) == 512
    ensures LbaBoot1(c, false) * 512 == SpecCapacity(Register(c), false) <= 0x1_0000_0000
    ensures block < LbaBoot1(c, false) ==> block * ReadBlLen(c) < 0x1_0000_0000
  {
    StandardBlocks(c);
    StandardCapacity(c);
    BlockLength(c);
    MulLess512(block, LbaBoot1(c, false), ReadBlLen(c));
  }

  lemma MulLess512(block: nat, lba: nat, len: nat)
    requires len == 512 && lba * 512 <= 0x1_0000_0000
    ensures block < lba ==> block * len < 0x1_0000_0000
  {
  }

  lemma StandardBlocks(c: Csd)
    requires 9 <= Field(Register(c), 83, 80) <= 11
    ensures LbaBoot1(c, false) * 512 == Capacity(c, false) <= 0x1_0000_0000
  {
    var cap := Capacity(c, false);
    assert cap == cap / 0x200 * 0x200 && 0 <= cap <= 0x1_0000_0000 by {
      BlockLength(c);
      BlockCountBound(c, false);
      CapacityProduct(c, false);
      LargeBlocks(BlockCount(c, false), Field(Register(c), 83, 80));
    }
    assert Shr(cap, 9) == cap / 0x200 by {
      assert Pow2(9) == 0x200;
      ShrIsDiv(cap, 9);
    }
    WholeBlocks(cap, Shr(cap, 9));
  }

  lemma WholeBlocks(cap: int, blocks: nat)
    requires cap == blocks * 0x200 <= 0x1_0000_0000
    ensures blocks % 0x1_0000_0000 * 512 == cap
  {
  }

  lemma LargeBlocks(n: nat, k: nat)
    requires n <= 0x20_0000 && 9 <= k && Pow2(k) <= 0x800
    ensures n * Pow2(k) == n * Pow2(k) / 0x200 * 0x200
    ensures 0 <= n * Pow2(k) <= 0x1_0000_0000
  {
    assert Pow2(9) == 0x200;
    MulAtMost(n, 0x20_0000, Pow2(k));
    MulAtMost(0, n, Pow2(k));
    Pow2Add(k - 9, 9);
    Associate(n, Pow2(k - 9), 0x200);
    DivModUnique(n * Pow2(k), 0x200, n * Pow2(k - 9), 0);
  }
}
