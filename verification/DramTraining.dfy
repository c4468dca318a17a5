/**
 DRAM DLL calibration (boot0/drv/init_dram/dram_init.c): the scan over clock and DQS phases,
 and the packing of its result into dram_tpr3 for later boots.
 */
module DramTraining {
  import opened Bits

  // ---------- register fields, as arithmetic on words ----------

  /** Bits 6..11 of DLLCR0, and bits 14..17 of DLLCR1..4. */
  function ClkPhase(r: Word): Word { r / 0x40 % 0x40 }

  function DqsPhase(r: Word): Word { r / 0x4000 % 0x10 }

  /** A register without its phase field, and with another value in it. */
  function NoClk(r: Word): Word { r - ClkPhase(r) * 0x40 }

  function NoDqs(r: Word): Word { r - DqsPhase(r) * 0x4000 }

  function WithClk(r: Word, v: Word): Word { NoClk(r) + v % 0x40 * 0x40 }

  function WithDqs(r: Word, v: Word): Word { NoDqs(r) + v % 0x10 * 0x4000 }

  lemma WithClkField(r: Word, v: Word)
    ensures ClkPhase(WithClk(r, v)) == v % 0x40 && NoClk(WithClk(r, v)) == NoClk(r) == WithClk(r, 0)
  {
    FieldParts(r, 0x40, 0x40, v % 0x40);
  }

  lemma WithDqsField(r: Word, v: Word)
    ensures DqsPhase(WithDqs(r, v)) == v % 0x10 && NoDqs(WithDqs(r, v)) == NoDqs(r) == WithDqs(r, 0)
  {
    FieldParts(r, 0x4000, 0x10, v % 0x10);
  }

  /** A word in three parts: replacing the middle one leaves the others alone. */
  lemma FieldParts(r: nat, d: nat, m: nat, v: nat)
    requires d > 0 && m > 0 && v < m
    ensures r - r / d % m * d + v * d >= 0
    ensures (r - r / d % m * d + v * d) / d % m == v
  {
    DivMod(r, d);
    DivMod(r / d, m);
    var q, f, b := r / d / m, r / d % m, r % d;
    Distribute(q * m, f, d);
    Distribute(q * m, v, d);
    MulAtMost(0, q, m);
    MulAtMost(0, q * m + v, d);
    DivModUnique((q * m + v) * d + b, d, q * m + v, b);
    DivModUnique(q * m + v, m, q, v);
  }

  /** One write each: disable (bit 31 on, bit 30 off), reset (both off), enable (bit 30 on). */
  function Disabled(r: Word): Word { r % 0x4000_0000 + 0x8000_0000 }

  function Reset(r: Word): Word { r % 0x4000_0000 }

  function Started(r: Word): Word { r % 0x4000_0000 + 0x4000_0000 }

  function Restarted(r: Word): Word { Started(Reset(Disabled(r))) }

  /** The restart leaves the DLL enabled and out of reset, and changes nothing else. */
  lemma RestartBits(r: Word)
    ensures Restarted(r) / 0x4000_0000 == 1 && Restarted(r) % 0x4000_0000 == r % 0x4000_0000
  {
    assert Reset(Disabled(r)) == r % 0x4000_0000;
  }

  lemma RestartPhases(r: Word)
    ensures ClkPhase(Restarted(r)) == ClkPhase(r) && DqsPhase(Restarted(r)) == DqsPhase(r)
  {
    RestartBits(r);
    var q, b := r / 0x4000_0000, r % 0x4000_0000;
    assert r / 0x40 == q * 0x100_0000 + b / 0x40 && r / 0x4000 == q * 0x1_0000 + b / 0x4000;
    assert Restarted(r) / 0x40 == 0x100_0000 + b / 0x40 && Restarted(r) / 0x4000 == 0x1_0000 + b / 0x4000;
  }

  // ---------- the same fields, by the masks and shifts of the code ----------

  lemma ClkWriteIsMask(r: Word, v: Word)
    ensures NoClk(r) == And(r, Not(0x3f * 0x40))
    ensures WithClk(r, v) == Or(And(r, Not(0x3f * 0x40)), And(v, 0x3f) * 0x40)
  {
    assert Pow2(6) == 0x40 && Pow2(12) == 0x1000;
    AndLowMask(v, 6);
    LowIsMod(v, 6);
    WriteField(r, 6, 6, v % 0x40);
  }

  lemma DqsWriteIsMask(r: Word, v: Word)
    ensures NoDqs(r) == And(r, Not(0xf * 0x4000))
    ensures WithDqs(r, v) == Or(And(r, Not(0xf * 0x4000)), And(v, 0xf) * 0x4000)
  {
    assert Pow2(4) == 0x10;
    assert Pow2(14) == 0x4000 && Pow2(18) == 0x4_0000;
    AndLowMask(v, 4);
    LowIsMod(v, 4);
    WriteField(r, 14, 4, v % 0x10);
  }

  lemma PhaseReadIsMask(r: Word)
    ensures ClkPhase(r) == And(Shr(r, 6), 0x3f) && DqsPhase(r) == And(Shr(r, 14), 0xf)
  {
    assert Pow2(4) == 0x10 && Pow2(6) == 0x40 && Pow2(14) == 0x4000;
    ShrIsDiv(r, 6);
    ShrIsDiv(r, 14);
    AndLowMask(Shr(r, 6), 6);
    LowIsMod(Shr(r, 6), 6);
    AndLowMask(Shr(r, 14), 4);
    LowIsMod(Shr(r, 14), 4);
  }

  lemma ClearBit(r: Word, n: nat)
    requires n < 32 && Pow2(n) < 0x1_0000_0000
    ensures And(r, Not(Pow2(n))) == r - r / Pow2(n) % 2 * Pow2(n) >= 0
  {
    assert Pow2(1) == 2 && Pow2(n + 1) == 2 * Pow2(n);
    WriteField(r, n, 1, 0);
  }

  lemma DisableIsMask(r: Word)
    ensures Disabled(r) == Or(And(r, Not(0x4000_0000)), 0x8000_0000)
  {
    Pow2Word();
    ClearBit(r, 30);
    OrTop(And(r, Not(0x4000_0000)), 31);
    LowIsMod(And(r, Not(0x4000_0000)), 31);
    WithoutBit(r);
  }

  lemma WithoutBit(r: Word)
    ensures (r - r / 0x4000_0000 % 2 * 0x4000_0000) % 0x8000_0000 == r % 0x4000_0000
    ensures (r - r / 0x8000_0000 % 2 * 0x8000_0000) % 0x4000_0000 == r % 0x4000_0000
  {
    var q, b := r / 0x4000_0000, r % 0x4000_0000;
    assert q < 4;
    if q == 0 {
    } else if q == 1 {
    } else if q == 2 {
    } else {
    }
  }

  lemma ResetIsMask(r: Word)
    ensures Reset(r) == And(r, Not(0xC000_0000))
  {
    assert Pow2(2) == 4;
    Pow2Word();
    WriteField(r, 30, 2, 0);
    assert r / 0x4000_0000 % 4 == r / 0x4000_0000;
  }

  lemma StartIsMask(r: Word)
    ensures Started(r) == Or(And(r, Not(0x8000_0000)), 0x4000_0000)
  {
    Pow2Word();
    ClearBit(r, 31);
    OrTop(And(r, Not(0x8000_0000)), 30);
    LowIsMod(And(r, Not(0x8000_0000)), 30);
    WithoutBit(r);
  }

  // ---------- training ----------

  /** The phases a training run sees: the clock's and the four DQS lanes'. */
  datatype Phases = Phases(clk: Word, dqs1: Word, dqs2: Word, dqs3: Word, dqs4: Word)

  /** Whether data training succeeds under given phases. */
  type Training = Phases -> bool

  function PhasesOf(regs: seq<Word>): Phases
    requires |regs| == 5
  {
    Phases(ClkPhase(regs[0]), DqsPhase(regs[1]), DqsPhase(regs[2]), DqsPhase(regs[3]), DqsPhase(regs[4]))
  }

  /** The phases a table pair selects: one DQS phase for all lanes. */
  function Pair(c: Word, d: Word): Phases {
    Phases(c % 0x40, d % 0x10, d % 0x10, d % 0x10, d % 0x10)
  }

  /** How many of the first n DQS entries pass with clock entry c. */
  function Count(t: Training, c: Word, dqs: seq<Word>, n: nat): (k: nat)
    requires n <= |dqs|
    ensures k <= n
  {
    if n == 0 then 0 else Count(t, c, dqs, n - 1) + if t(Pair(c, dqs[n - 1])) then 1 else 0
  }

  lemma {:induction false} CountPositive(t: Training, c: Word, dqs: seq<Word>, n: nat)
    requires n <= |dqs|
    ensures Count(t, c, dqs, n) > 0 <==> exists j :: 0 <= j < n && t(Pair(c, dqs[j]))
  {
    if n > 0 {
      CountPositive(t, c, dqs, n - 1);
      if t(Pair(c, dqs[n - 1])) {
      } else if exists j :: 0 <= j < n && t(Pair(c, dqs[j])) {
        var j :| 0 <= j < n && t(Pair(c, dqs[j]));
        assert j < n - 1;
      }
    }
  }

  ghost predicate SomePairPasses(t: Training, clk: seq<Word>, dqs: seq<Word>) {
    exists i, j :: 0 <= i < |clk| && 0 <= j < |dqs| && t(Pair(clk[i], dqs[j]))
  }

  /** i holds the maximum DQS pass count over all clock entries. */
  ghost predicate BestClock(t: Training, clk: seq<Word>, dqs: seq<Word>, i: nat) {
    i < |clk| && forall k :: 0 <= k < |clk| ==> Count(t, clk[k], dqs, |dqs|) <= Count(t, clk[i], dqs, |dqs|)
  }

  // ---------- dram_tpr3 ----------

  /** A word shifted down by n hexadecimal digits. */
  function Drop(p: Word, n: nat): Word {
    if n == 0 then p else Drop(p, n - 1) / 0x10
  }

  /** The phases mctl_enable_dll0 and mctl_enable_dllx take out of dram_tpr3. */
  function Unpack(p: Word): Phases {
    Phases(p / 0x1_0000 % 0x40, p % 0x10, p / 0x10 % 0x10, p / 0x100 % 0x10, p / 0x1000 % 0x10)
  }

  /** The word DRAMC_init stores in dram_tpr3 after a successful scan. */
  function Pack(regs: seq<Word>): Word
    requires |regs| == 5
  {
    ClkPhase(regs[0]) * 0x1_0000 + DqsPhase(regs[1]) + DqsPhase(regs[2]) * 0x10
      + DqsPhase(regs[3]) * 0x100 + DqsPhase(regs[4]) * 0x1000
  }

  /** Bit 31 of dram_tpr3 asks DRAMC_init for a scan. */
  predicate AsksScan(p: Word) { p >= 0x8000_0000 }

  /** Packing and unpacking: every phase comes back, and no scan is asked for. */
  lemma UnpackPack(regs: seq<Word>)
    requires |regs| == 5
    ensures Unpack(Pack(regs)) == PhasesOf(regs)
    ensures !AsksScan(Pack(regs))
  {
    var x := PhasesOf(regs);
    Digits(x.clk, x.dqs1, x.dqs2, x.dqs3, x.dqs4, Pack(regs));
  }

  lemma Digits(c: nat, d1: nat, d2: nat, d3: nat, d4: nat, p: nat)
    requires c < 0x40 && d1 < 0x10 && d2 < 0x10 && d3 < 0x10 && d4 < 0x10
    requires p == c * 0x1_0000 + d1 + d2 * 0x10 + d3 * 0x100 + d4 * 0x1000
    ensures p / 0x1_0000 == c && p % 0x10 == d1 && p / 0x10 % 0x10 == d2 && p / 0x100 % 0x10 == d3
    ensures p / 0x1000 % 0x10 == d4
  {
    assert p / 0x1000 == c * 0x10 + d4;
    assert p / 0x100 == p / 0x1000 * 0x10 + d3;
    assert p / 0x10 == p / 0x100 * 0x10 + d2;
  }

  /** Bit 31 as the code tests it. */
  lemma AsksScanIsMask(p: Word)
    ensures AsksScan(p) <==> And(p, 0x8000_0000) != 0
  {
    Pow2Word();
    ClearBit(p, 31);
    AndComplement(p, 0x8000_0000, 32);
  }

  /** Pack is the or of the shifted fields the code writes. */
  lemma PackIsMask(regs: seq<Word>)
    requires |regs| == 5
    ensures var x := PhasesOf(regs);
      Pack(regs) == Or(Or(Or(Or(x.clk * 0x1_0000, x.dqs1), x.dqs2 * 0x10), x.dqs3 * 0x100), x.dqs4 * 0x1000)
  {
    var x := PhasesOf(regs);
    var p := OrChain(x.clk, x.dqs1, x.dqs2, x.dqs3, x.dqs4);
  }

  lemma OrChain(c: nat, d1: nat, d2: nat, d3: nat, d4: nat) returns (p: nat)
    requires c < 0x40 && d1 < 0x10 && d2 < 0x10 && d3 < 0x10 && d4 < 0x10
    ensures p == c * 0x1_0000 + d1 + d2 * 0x10 + d3 * 0x100 + d4 * 0x1000
    ensures p == Or(Or(Or(Or(c * 0x1_0000, d1), d2 * 0x10), d3 * 0x100), d4 * 0x1000)
  {
    var p1 := OrDigit0(c, d1);
    var p2 := OrDigit1(c, d1, d2);
    assert p2 == Or(p1, d2 * 0x10);
    var p3 := OrDigit2(c, d1 + d2 * 0x10, d3);
    assert p3 == Or(p2, d3 * 0x100);
    p := OrDigit3(c, d1 + d2 * 0x10 + d3 * 0x100, d4);
    assert p == Or(p3, d4 * 0x1000);
  }

  lemma OrDigit3(c: nat, low: nat, d: nat) returns (p: nat)
    requires c < 0x40 && low < 0x1000 && d < 0x10
    ensures p == Or(c * 0x1_0000 + low, d * 0x1000) == c * 0x1_0000 + low + d * 0x1000
  {
    OrDigit(c, low, 12, 0x1000, d);
    p := c * 0x1_0000 + low + d * 0x1000;
  }

  lemma OrDigit0(c: nat, d: nat) returns (p: nat)
    requires c < 0x40 && d < 0x10
    ensures p == Or(c * 0x1_0000, d) == c * 0x1_0000 + d
  {
    OrDigit(c * 0x1000, 0, 0, 1, d);
    p := c * 0x1_0000 + d;
  }

  lemma OrDigit1(c: nat, low: nat, d: nat) returns (p: nat)
    requires c < 0x40 && low < 0x10 && d < 0x10
    ensures p == Or(c * 0x1_0000 + low, d * 0x10) == c * 0x1_0000 + low + d * 0x10
  {
    OrDigit(c * 0x100, low, 4, 0x10, d);
    p := c * 0x1_0000 + low + d * 0x10;
  }

  lemma OrDigit2(c: nat, low: nat, d: nat) returns (p: nat)
    requires c < 0x40 && low < 0x100 && d < 0x10
    ensures p == Or(c * 0x1_0000 + low, d * 0x100) == c * 0x1_0000 + low + d * 0x100
  {
    OrDigit(c * 0x10, low, 8, 0x100, d);
    p := c * 0x1_0000 + low + d * 0x100;
  }

  lemma OrDigit(hi: nat, low: nat, lo: nat, L: nat, d: nat)
    requires lo <= 12 && L == Pow2(lo) && low < L && d < 0x10 && 0 <= hi * (L * 0x10) < 0x100_0000
    ensures d * L >= 0
    ensures Or(hi * (L * 0x10) + low, d * L) == hi * (L * 0x10) + low + d * L
  {
    assert Pow2(4) == 0x10;
    Pow2Add(lo, 4);
    Pow2AtMostWord(lo);
    assert Pow2(12) == 0x1000;
    Pow2Monotone(lo, 12);
    OrBetween(hi, low, lo, 4, d);
  }

  lemma DropDigits(p: Word)
    ensures Drop(p, 0) == p && Drop(p, 1) == p / 0x10 && Drop(p, 2) == p / 0x100 && Drop(p, 3) == p / 0x1000
  {
    assert Drop(p, 1) == p / 0x10;
    assert Drop(p, 2) == p / 0x10 / 0x10;
    assert Drop(p, 3) == p / 0x10 / 0x10 / 0x10;
  }

  // ---------- choosing an index on a plateau ----------

  /**
   Where a plateau from lo to hi in a table of n entries is taken: in its middle, or, when only
   one end of it is an end of the table, halfway from the middle to that end of the table.
   */
  predicate Biased(n: nat, lo: nat, hi: nat, i: nat)
    requires lo <= hi < n
  {
    if lo == 0 && hi < n - 1 then 4 * i <= hi < 4 * i + 4
    else if lo > 0 && hi == n - 1 then 4 * i <= 3 * n - 1 + lo < 4 * i + 4
    else 2 * i <= lo + hi <= 2 * i + 1
  }

  /**
   The index the code takes for a plateau from first to last in a table of n entries, before
   it checks that the entry there is as good.
   */
  function Middle(n: nat, first: nat, last: nat): (i: nat)
    requires first <= last < n
    ensures first <= i <= last && Biased(n, first, last, i)
  {
    var mid := (last + first) / 2;
    if last == n - 1 && first > 0 then (n + mid) / 2
    else if last < n - 1 && first == 0 then mid / 2
    else mid
  }

  // ---------- the controller ----------

  /** The tables of boot0/drv/init_dram/dram_init.c:578-579. */
  function DqsDly(): seq<Word> { [0x3, 0x2, 0x1, 0x0, 0xE, 0xD, 0xC] }

  function ClkDly(): seq<Word> {
    [0x07, 0x06, 0x05, 0x04, 0x03, 0x02, 0x01, 0x00, 0x08, 0x10, 0x18, 0x20, 0x28, 0x30, 0x38]
  }

  /** What the scan needs of its tables: both contain the zero phase it falls back to. */
  ghost predicate Tables(clk: seq<Word>, dqs: seq<Word>) {
    && (exists i :: 0 <= i < |clk| && clk[i] % 0x40 == 0)
    && (exists j :: 0 <= j < |dqs| && dqs[j] % 0x10 == 0)
  }

  /** The tables step down to the zero phase, and on from the other side of it. */
  lemma SourceTables()
    ensures Tables(ClkDly(), DqsDly())
    ensures |ClkDly()| == 15 && forall i :: 0 <= i < 15 ==> ClkDly()[i] == if i <= 7 then 7 - i else 8 * (i - 7)
    ensures |DqsDly()| == 7 && forall j :: 0 <= j < 7 ==> DqsDly()[j] == if j <= 3 then 3 - j else 0x12 - j
  {
    assert ClkDly()[7] % 0x40 == 0;
    assert DqsDly()[3] % 0x10 == 0;
  }

  /** The registers with every phase field cleared. */
  function Rest(regs: seq<Word>): seq<Word>
    requires |regs| == 5
  {
    [NoClk(regs[0]), NoDqs(regs[1]), NoDqs(regs[2]), NoDqs(regs[3]), NoDqs(regs[4])]
  }

  /** Bits 8..6 of the DCR say that the bus is 32 bits wide. */
  predicate Bus32(dcr: Word) { Field(dcr, 8, 6) == 3 }

  lemma WidthIsField(dcr: Word)
    ensures Field(dcr, 8, 6) == dcr / 0x40 % 8
  {
    assert Pow2(6) == 0x40 && Pow2(3) == 8;
    FieldIsDiv(dcr, 8, 6, 0x40, 8);
  }

  /** What the code writes there for a bus width, between the fields below and above, says so exactly for 32 bits. */
  lemma WidthWritten(width: nat, low: nat, high: nat)
    requires 8 <= width <= 64 && low < 0x40 && low + (width / 8 - 1) * 0x40 + high * 0x200 < 0x1_0000_0000
    ensures Bus32(low + (width / 8 - 1) * 0x40 + high * 0x200) <==> 32 <= width < 40
  {
    var dcr := low + (width / 8 - 1) * 0x40 + high * 0x200;
    WidthIsField(dcr);
    assert dcr / 0x40 == width / 8 - 1 + high * 8;
  }

  class Controller {
    const training: Training
    const dllcr: array<Word>   // DLLCR0 .. DLLCR4
    var dcr: Word
    var tpr3: Word

    ghost predicate Valid()
      reads this
    {
      dllcr.Length == 5
    }

    constructor (t: Training, bus: Word, phase: Word)
      ensures Valid() && fresh(dllcr) && training == t && dcr == bus && tpr3 == phase
    {
      training, dllcr, dcr, tpr3 := t, new Word[5](_ => 0), bus, phase;
    }

    /** DRAMC_scan_readpipe: one training run under the phases now in the registers. */
    method ScanReadpipe() returns (r: int)
      requires Valid()
      ensures r == if training(PhasesOf(dllcr[..])) then 0 else -1
    {
      r := if training(PhasesOf(dllcr[..])) then 0 else -1;
    }

    method SetClk(v: Word)
      requires Valid()
      modifies dllcr
      ensures PhasesOf(dllcr[..]) == PhasesOf(old(dllcr[..])).(clk := v % 0x40)
      ensures Rest(dllcr[..]) == old(Rest(dllcr[..]))
    {
      WithClkField(dllcr[0], v);
      dllcr[0] := WithClk(dllcr[0], v);
    }

    method SetDqs(v: Word)
      requires Valid()
      modifies dllcr
      ensures PhasesOf(dllcr[..]) == Pair(0, v).(clk := PhasesOf(old(dllcr[..])).clk)
      ensures Rest(dllcr[..]) == old(Rest(dllcr[..]))
    {
      WithDqsField(dllcr[1], v);
      WithDqsField(dllcr[2], v);
      WithDqsField(dllcr[3], v);
      WithDqsField(dllcr[4], v);
      dllcr[1] := WithDqs(dllcr[1], v);
      dllcr[2] := WithDqs(dllcr[2], v);
      dllcr[3] := WithDqs(dllcr[3], v);
      dllcr[4] := WithDqs(dllcr[4], v);
    }

    /** First and last entries of a[..n] equal to v, or n and n when there is none. */
    method Ends(a: array<nat>, n: nat, v: nat) returns (first: nat, last: nat)
      requires n <= a.Length
      ensures first == n <==> last == n
      ensures first == n ==> forall i :: 0 <= i < n ==> a[i] != v
      ensures first != n ==> first <= last < n && a[first] == a[last] == v
      ensures first != n ==> forall i :: 0 <= i < n && a[i] == v ==> first <= i <= last
    {
      first, last := n, n;
      for i := 0 to n
        invariant first == n <==> last == n
        invariant first == n ==> forall k :: 0 <= k < i ==> a[k] != v
        invariant first != n ==> first <= last < i && a[first] == a[last] == v
        invariant first != n ==> forall k :: 0 <= k < i && a[k] == v ==> first <= k <= last
      {
        if a[i] == v {
          last := i;
          if first == n {
            first := i;
          }
        }
      }
    }

    /** The first scan: the DQS pass count of every clock entry. */
    method CountPasses(clk: seq<Word>, dqs: seq<Word>, count: array<nat>)
      requires Valid() && |clk| <= count.Length && count as object != dllcr
      modifies dllcr, count
      ensures forall i :: 0 <= i < |clk| ==> count[i] == Count(training, clk[i], dqs, |dqs|)
      ensures Rest(dllcr[..]) == old(Rest(dllcr[..]))
    {
      for i := 0 to |clk|
        invariant forall k :: 0 <= k < i ==> count[k] == Count(training, clk[k], dqs, |dqs|)
        invariant Rest(dllcr[..]) == old(Rest(dllcr[..]))
      {
        count[i] := 0;
        SetClk(clk[i]);
        for j := 0 to |dqs|
          invariant forall k :: 0 <= k < i ==> count[k] == Count(training, clk[k], dqs, |dqs|)
          invariant count[i] == Count(training, clk[i], dqs, j)
          invariant PhasesOf(dllcr[..]).clk == clk[i] % 0x40
          invariant Rest(dllcr[..]) == old(Rest(dllcr[..]))
        {
          SetDqs(dqs[j]);
          var r := ScanReadpipe();
          if r == 0 {
            count[i] := count[i] + 1;
          }
        }
      }
    }

    /** The second scan: which DQS entries pass under the clock phase already set. */
    method MarkPasses(c: Word, dqs: seq<Word>, pass: array<nat>) returns (first: nat, last: nat)
      requires Valid() && |dqs| <= pass.Length && pass as object != dllcr
      requires PhasesOf(dllcr[..]).clk == c % 0x40
      modifies dllcr, pass
      ensures forall j :: 0 <= j < |dqs| ==> (pass[j] != 0 <==> training(Pair(c, dqs[j])))
      ensures first == |dqs| <==> last == |dqs|
      ensures first == |dqs| ==> forall j :: 0 <= j < |dqs| ==> pass[j] == 0
      ensures first != |dqs| ==> first <= last < |dqs| && pass[first] != 0 && pass[last] != 0
      ensures first != |dqs| ==> forall j :: 0 <= j < |dqs| && pass[j] != 0 ==> first <= j <= last
      ensures PhasesOf(dllcr[..]).clk == c % 0x40
      ensures Rest(dllcr[..]) == old(Rest(dllcr[..]))
    {
      first, last := |dqs|, |dqs|;
      for i := 0 to |dqs|
        invariant forall j :: 0 <= j < i ==> (pass[j] != 0 <==> training(Pair(c, dqs[j])))
        invariant first == |dqs| <==> last == |dqs|
        invariant first == |dqs| ==> forall j :: 0 <= j < i ==> pass[j] == 0
        invariant first != |dqs| ==> first <= last < i && pass[first] != 0 && pass[last] != 0
        invariant first != |dqs| ==> forall j :: 0 <= j < i && pass[j] != 0 ==> first <= j <= last
        invariant PhasesOf(dllcr[..]).clk == c % 0x40
        invariant Rest(dllcr[..]) == old(Rest(dllcr[..]))
      {
        pass[i] := 0;
        SetDqs(dqs[i]);
        var r := ScanReadpipe();
        if r == 0 {
          pass[i] := 1;
          last := i;
          if first == |dqs| {
            first := i;
          }
        }
      }
    }

    /** The clock entry to use, from the pass counts; none when every count is zero. */
    method ChooseClock(clk: seq<Word>, dqs: seq<Word>, count: array<nat>) returns (found: bool, clkIndex: nat)
      requires Valid() && Tables(clk, dqs) && |clk| <= count.Length
      requires forall i :: 0 <= i < |clk| ==> count[i] == Count(training, clk[i], dqs, |dqs|)
      ensures found <==> SomePairPasses(training, clk, dqs)
      ensures found ==> clkIndex < |clk| && GoodClock(training, clk, dqs, clkIndex)
      ensures found ==> exists j :: 0 <= j < |dqs| && training(Pair(clk[clkIndex], dqs[j]))
      ensures !found ==> !training(Pair(0, 0))
    {
      var best: nat := |dqs|;
      var minVal, maxVal := |clk|, |clk|;
      while best > 0
        invariant best <= |dqs|
        invariant forall i :: 0 <= i < |clk| ==> count[i] <= best
      {
        minVal, maxVal := Ends(count, |clk|, best);
        if maxVal < |clk| {
          break;
        }
        best := best - 1;
      }
      ghost var counts := count[..|clk|];
      assert forall i :: 0 <= i < |clk| ==> counts[i] == count[i];
      if best == 0 {
        NonePasses(training, clk, dqs, counts);
        return false, 0;
      }
      clkIndex := Middle(|clk|, minVal, maxVal);
      if count[clkIndex] < best {
        clkIndex := minVal;
      }
      ChosenClock(training, clk, dqs, counts, best, minVal, maxVal, clkIndex);
      found := true;
    }

    /** The DQS entry to use under the clock phase already set; none when none passes. */
    method ChooseDqs(c: Word, dqs: seq<Word>, pass: array<nat>) returns (found: bool, dqsIndex: nat)
      requires Valid() && |dqs| <= pass.Length && pass as object != dllcr
      requires PhasesOf(dllcr[..]).clk == c % 0x40
      modifies dllcr, pass
      ensures found <==> exists j :: 0 <= j < |dqs| && training(Pair(c, dqs[j]))
      ensures found ==> dqsIndex < |dqs| && training(Pair(c, dqs[dqsIndex])) && GoodDqs(training, c, dqs, dqsIndex)
      ensures PhasesOf(dllcr[..]).clk == c % 0x40
      ensures Rest(dllcr[..]) == old(Rest(dllcr[..]))
    {
      var first, last := MarkPasses(c, dqs, pass);
      if last == |dqs| {
        return false, 0;
      }
      dqsIndex := Middle(|dqs|, first, last);
      if pass[dqsIndex] == 0 {
        dqsIndex := first;
      }
      ghost var marks := pass[..|dqs|];
      assert forall j :: 0 <= j < |dqs| ==> marks[j] == pass[j];
      ChosenDqs(training, c, dqs, marks, first, last, dqsIndex);
      found := true;
    }

    /**
     DRAMC_scan_dll_para. Result 0 means trained, with table entries ci and di. The branch for
     a clock entry with no passing DQS entry cannot be reached when training is deterministic.
     */
    method ScanDllPara(clk: seq<Word>, dqs: seq<Word>) returns (ret: int, ghost ci: nat, ghost di: nat)
      requires Valid() && Tables(clk, dqs)
      modifies dllcr
      ensures ret == 0 || ret == -1
      ensures ret == 0 <==> SomePairPasses(training, clk, dqs)
      ensures ret == 0 ==>
        && ci < |clk| && di < |dqs| && training(Pair(clk[ci], dqs[di]))
        && PhasesOf(dllcr[..]) == Pair(clk[ci], dqs[di])
        && GoodClock(training, clk, dqs, ci)
        && GoodDqs(training, clk[ci], dqs, di)
      ensures ret != 0 ==> PhasesOf(dllcr[..]) == Pair(0, 0)
      ensures Rest(dllcr[..]) == old(Rest(dllcr[..]))
    {
      ci, di := 0, 0;
      var count := new nat[if |clk| > |dqs| then |clk| else |dqs|];
      CountPasses(clk, dqs, count);
      var found, clkIndex := ChooseClock(clk, dqs, count);
      if !found {
        SetClk(0);
        SetDqs(0);
        ret := ScanReadpipe();
        return;
      }
      SetClk(clk[clkIndex]);
      var foundDqs, dqsIndex := ChooseDqs(clk[clkIndex], dqs, count);
      if !foundDqs {
        assert false;
      }
      ci, di := clkIndex, dqsIndex;
      SetDqs(dqs[dqsIndex]);
      ret := ScanReadpipe();
    }

    /** mctl_enable_dll0: set the clock phase, then take the DLL through disable, reset and enable. */
    method EnableDll0(phase: Word)
      requires Valid()
      modifies dllcr
      ensures dllcr[0] == Restarted(WithClk(old(dllcr[0]), phase / 0x1_0000))
      ensures forall i :: 1 <= i < 5 ==> dllcr[i] == old(dllcr[i])
    {
      dllcr[0] := WithClk(dllcr[0], phase / 0x1_0000);
      dllcr[0] := Disabled(dllcr[0]);
      dllcr[0] := Reset(dllcr[0]);
      dllcr[0] := Started(dllcr[0]);
    }

    /** How many DLLs, counting DLL0, the bus width in the DCR gives. */
    function DllNum(): (n: nat)
      reads this
      ensures n == if Bus32(dcr) then 5 else 3
    {
      WidthIsField(dcr);
      if dcr / 0x40 % 8 == 3 then 5 else 3
    }

    /** mctl_enable_dllx: the same for the DQS DLLs of the bus, each with its digit of phase. */
    method EnableDllx(phase: Word)
      requires Valid()
      modifies dllcr
      ensures dllcr[0] == old(dllcr[0])
      ensures forall k :: 1 <= k <= 2 ==> dllcr[k] == Restarted(WithDqs(old(dllcr[k]), Drop(phase, k - 1)))
      ensures forall k :: 3 <= k <= 4 ==>
        dllcr[k] == if Bus32(dcr) then Restarted(WithDqs(old(dllcr[k]), Drop(phase, k - 1))) else old(dllcr[k])
    {
      var n := DllNum();
      var dqsPhase := phase;
      for i := 1 to n
        invariant dqsPhase == Drop(phase, i - 1)
        invariant forall k :: 1 <= k < i ==> dllcr[k] == Disabled(WithDqs(old(dllcr[k]), Drop(phase, k - 1)))
        invariant forall k :: 0 <= k < 5 && !(1 <= k < i) ==> dllcr[k] == old(dllcr[k])
      {
        dllcr[i] := WithDqs(dllcr[i], dqsPhase);
        dllcr[i] := Disabled(dllcr[i]);
        dqsPhase := dqsPhase / 0x10;
      }
      label Set:
      for i := 1 to n
        invariant forall k :: 1 <= k < i ==> dllcr[k] == Reset(old@Set(dllcr[k]))
        invariant forall k :: 0 <= k < 5 && !(1 <= k < i) ==> dllcr[k] == old@Set(dllcr[k])
      {
        dllcr[i] := Reset(dllcr[i]);
      }
      label Low:
      for i := 1 to n
        invariant forall k :: 1 <= k < i ==> dllcr[k] == Started(old@Low(dllcr[k]))
        invariant forall k :: 0 <= k < 5 && !(1 <= k < i) ==> dllcr[k] == old@Low(dllcr[k])
      {
        dllcr[i] := Started(dllcr[i]);
      }
    }

    /** The phases that loading dram_tpr3 gives: on a narrow bus the upper two DLLs keep theirs. */
    ghost function Loaded(): Phases
      requires Valid()
      reads this, dllcr
    {
      if Bus32(dcr) then Unpack(tpr3)
      else Unpack(tpr3).(dqs3 := DqsPhase(dllcr[3]), dqs4 := DqsPhase(dllcr[4]))
    }

    /** dram_tpr3 holds phases that train, and does not ask for a scan. */
    ghost predicate Calibrated()
      reads this
    {
      !AsksScan(tpr3) && training(Unpack(tpr3))
    }

    /**
     The calibration part of DRAMC_init: load the phases of dram_tpr3 into the DLLs; then, if
     bit 31 asks for it, scan and store the result, otherwise train once.
     */
    method Init() returns (ok: bool)
      requires Valid()
      modifies this`tpr3, dllcr
      ensures AsksScan(old(tpr3)) ==>
        && (ok <==> SomePairPasses(training, ClkDly(), DqsDly()))
        && (ok ==> Calibrated() && PhasesOf(dllcr[..]) == Unpack(tpr3))
        && (!ok ==> tpr3 == old(tpr3))
      ensures !AsksScan(old(tpr3)) && !Bus32(dcr) ==> dllcr[3] == old(dllcr[3]) && dllcr[4] == old(dllcr[4])
      ensures !AsksScan(old(tpr3)) ==>
        && tpr3 == old(tpr3)
        && PhasesOf(dllcr[..]) == old(Loaded())
        && (ok <==> training(old(Loaded())))
        && (PhasesOf(dllcr[..]) == Unpack(tpr3) <==>
              Bus32(dcr) || (DqsPhase(old(dllcr[3])) == tpr3 / 0x100 % 0x10 &&
                DqsPhase(old(dllcr[4])) == tpr3 / 0x1000 % 0x10))
    {
      LoadDlls();
      if AsksScan(tpr3) {
        SourceTables();
        var ret, ci, di := ScanDllPara(ClkDly(), DqsDly());
        if ret == 0 {
          tpr3 := Pack(dllcr[..]);
          UnpackPack(dllcr[..]);
        }
        ok := ret >= 0;
      } else {
        var ret := ScanReadpipe();
        ok := ret >= 0;
      }
    }

    /** DRAMC_init_EX: up to three attempts. */
    method InitEx() returns (ok: bool)
      requires Valid()
      modifies this`tpr3, dllcr
      ensures AsksScan(old(tpr3)) ==> (ok <==> SomePairPasses(training, ClkDly(), DqsDly())) && (ok ==> Calibrated())
      ensures !AsksScan(old(tpr3)) ==>
        tpr3 == old(tpr3) && PhasesOf(dllcr[..]) == old(Loaded()) && (ok <==> training(old(Loaded())))
      ensures !AsksScan(old(tpr3)) && Bus32(dcr) ==> (ok <==> Calibrated())
      ensures !ok ==> tpr3 == old(tpr3)
      ensures !AsksScan(old(tpr3)) && !Bus32(dcr) ==> dllcr[3] == old(dllcr[3]) && dllcr[4] == old(dllcr[4])
    {
      ok := false;
      for i := 0 to 3
        invariant !ok && tpr3 == old(tpr3)
        invariant i > 0 && AsksScan(tpr3) ==> !SomePairPasses(training, ClkDly(), DqsDly())
        invariant !AsksScan(tpr3) ==> Loaded() == old(Loaded())
        invariant !AsksScan(tpr3) && !Bus32(dcr) ==> dllcr[3] == old(dllcr[3]) && dllcr[4] == old(dllcr[4])
        invariant i > 0 && !AsksScan(tpr3) ==> !training(Loaded()) && PhasesOf(dllcr[..]) == Loaded()
      {
        ok := Init();
        if ok {
          break;
        }
      }
    }

    /** Both DLL set-up calls of DRAMC_init, on the phases of dram_tpr3. */
    method LoadDlls()
      requires Valid()
      modifies dllcr
      ensures PhasesOf(dllcr[..]) == old(Loaded())
      ensures !Bus32(dcr) ==> dllcr[3] == old(dllcr[3]) && dllcr[4] == old(dllcr[4])
    {
      EnableDll0(tpr3);
      EnableDllx(tpr3);
      DropDigits(tpr3);
      RestartPhases(WithClk(old(dllcr[0]), tpr3 / 0x1_0000));
      WithClkField(old(dllcr[0]), tpr3 / 0x1_0000);
      forall k | 1 <= k < DllNum()
        ensures DqsPhase(dllcr[k]) == Drop(tpr3, k - 1) % 0x10
      {
        RestartPhases(WithDqs(old(dllcr[k]), Drop(tpr3, k - 1)));
        WithDqsField(old(dllcr[k]), Drop(tpr3, k - 1));
      }
    }
  }

  /** A best clock entry, and the biased midpoint whenever the best entries form a plateau. */
  ghost predicate GoodClock(t: Training, clk: seq<Word>, dqs: seq<Word>, ci: nat) {
    && BestClock(t, clk, dqs, ci)
    && forall lo: nat, hi: nat | lo <= hi < |clk| && ClockPlateau(t, clk, dqs, lo, hi) :: Biased(|clk|, lo, hi, ci)
  }

  ghost predicate GoodDqs(t: Training, c: Word, dqs: seq<Word>, di: nat) {
    forall lo: nat, hi: nat | lo <= hi < |dqs| && DqsPlateau(t, c, dqs, lo, hi) :: Biased(|dqs|, lo, hi, di)
  }

  /** The clock entries with the maximum pass count are exactly those from lo to hi. */
  ghost predicate ClockPlateau(t: Training, clk: seq<Word>, dqs: seq<Word>, lo: nat, hi: nat) {
    forall k: nat | k < |clk| :: BestClock(t, clk, dqs, k) <==> lo <= k <= hi
  }

  /** The DQS entries that pass with clock entry c are exactly those from lo to hi. */
  ghost predicate DqsPlateau(t: Training, c: Word, dqs: seq<Word>, lo: nat, hi: nat) {
    forall j: nat | j < |dqs| :: t(Pair(c, dqs[j])) <==> lo <= j <= hi
  }

  lemma ChosenClock(t: Training, clk: seq<Word>, dqs: seq<Word>, count: seq<nat>, best: nat,
                    first: nat, last: nat, ci: nat)
    requires |count| == |clk| && 0 < best && first <= last < |clk| && count[first] == count[last] == best
    requires forall i :: 0 <= i < |clk| ==> count[i] == Count(t, clk[i], dqs, |dqs|) <= best
    requires forall i :: 0 <= i < |clk| && count[i] == best ==> first <= i <= last
    requires var m := Middle(|clk|, first, last); ci == if count[m] < best then first else m
    ensures GoodClock(t, clk, dqs, ci)
    ensures exists j :: 0 <= j < |dqs| && t(Pair(clk[ci], dqs[j]))
    ensures SomePairPasses(t, clk, dqs)
  {
    assert count[ci] == best;
    CountPositive(t, clk[ci], dqs, |dqs|);
    forall k: nat | k < |clk|
      ensures BestClock(t, clk, dqs, k) <==> count[k] == best
    {
      assert count[k] == Count(t, clk[k], dqs, |dqs|);
      assert count[first] == Count(t, clk[first], dqs, |dqs|);
    }
    forall lo: nat, hi: nat | lo <= hi < |clk| && ClockPlateau(t, clk, dqs, lo, hi)
      ensures Biased(|clk|, lo, hi, ci)
    {
      assert BestClock(t, clk, dqs, first) && BestClock(t, clk, dqs, last);
      assert BestClock(t, clk, dqs, lo) && BestClock(t, clk, dqs, hi);
      assert BestClock(t, clk, dqs, Middle(|clk|, lo, hi));
    }
  }

  lemma ChosenDqs(t: Training, c: Word, dqs: seq<Word>, pass: seq<nat>, first: nat, last: nat, di: nat)
    requires |pass| == |dqs| && first <= last < |dqs| && pass[first] != 0 && pass[last] != 0
    requires forall j :: 0 <= j < |dqs| ==> (pass[j] != 0 <==> t(Pair(c, dqs[j])))
    requires forall j :: 0 <= j < |dqs| && pass[j] != 0 ==> first <= j <= last
    requires var m := Middle(|dqs|, first, last); di == if pass[m] == 0 then first else m
    ensures t(Pair(c, dqs[di]))
    ensures GoodDqs(t, c, dqs, di)
  {
    forall lo: nat, hi: nat | lo <= hi < |dqs| && DqsPlateau(t, c, dqs, lo, hi)
      ensures Biased(|dqs|, lo, hi, di)
    {
      assert pass[lo] != 0 && pass[hi] != 0;
      assert lo <= first && last <= hi;
      assert pass[Middle(|dqs|, lo, hi)] != 0;
    }
  }

  lemma NonePasses(t: Training, clk: seq<Word>, dqs: seq<Word>, count: seq<nat>)
    requires Tables(clk, dqs) && |count| == |clk|
    requires forall i :: 0 <= i < |clk| ==> count[i] == Count(t, clk[i], dqs, |dqs|) == 0
    ensures !SomePairPasses(t, clk, dqs) && !t(Pair(0, 0))
  {
    forall i, j | 0 <= i < |clk| && 0 <= j < |dqs|
      ensures !t(Pair(clk[i], dqs[j]))
    {
      assert count[i] == 0;
      CountPositive(t, clk[i], dqs, |dqs|);
    }
    var i :| 0 <= i < |clk| && clk[i] % 0x40 == 0;
    var j :| 0 <= j < |dqs| && dqs[j] % 0x10 == 0;
    assert Pair(clk[i], dqs[j]) == Pair(0, 0);
  }
}
