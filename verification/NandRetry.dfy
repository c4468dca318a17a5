/** Reading a NAND page with read-retry (boot0/load_Boot1_from_nand/nfc_for_boot0/src/nand_simple_for_boot0.c). */
module NandRetry {
  import opened Bits

  const ECC_LIMIT := 10
  const ERR_ECC := 12

  /** The i-th retry level of a sweep over 0..cycle that starts at level s, wrapping once. */
  function Level(s: nat, i: nat, cycle: nat): nat {
    if s + i <= cycle then s + i else if s + i <= 2 * cycle + 1 then s + i - (cycle + 1) else 0
  }

  /** The first n levels of a sweep. */
  function Levels(s: nat, n: nat, cycle: nat): seq<nat> {
    if n == 0 then [] else Levels(s, n - 1, cycle) + [Level(s, n - 1, cycle)]
  }

  /** A sweep meets every level exactly once, wherever it starts. */
  lemma SweepMeets(s: nat, cycle: nat, l: nat) returns (i: nat)
    requires s <= cycle && l <= cycle
    ensures i <= cycle && Level(s, i, cycle) == l
    ensures forall j: nat :: j <= cycle && Level(s, j, cycle) == l ==> j == i
  {
    i := if l >= s then l - s else l + cycle + 1 - s;
  }

  /** Raw result of reading a page at a retry level. */
  type Oracle = (nat, nat) -> int

  /** Every level fails ECC on the page. */
  ghost predicate AllFail(read: Oracle, cycle: nat, page: nat) {
    forall l: nat :: l <= cycle ==> read(l, page) == -12
  }

  /** A sweep over all levels that only fails has tried them all. */
  lemma FullSweep(read: Oracle, cycle: nat, page: nat, s: nat)
    requires s <= cycle
    requires forall i: nat :: i <= cycle ==> read(Level(s, i, cycle), page) == -12
    ensures AllFail(read, cycle, page)
  {
    forall l: nat | l <= cycle
      ensures read(l, page) == -12
    {
      var i := SweepMeets(s, cycle, l);
    }
  }

  class Nand {
    const mode: nat               // READ_RETRY_MODE
    const cycle: nat              // READ_RETRY_CYCLE
    const supportRetry: bool
    const read: Oracle
    var retryCount: nat           // RetryCount[0]
    var level: nat                // the level the chip applies
    ghost var tried: seq<nat>     // the level of every page read sent to the chip

    /**
     Between page reads the chip is at the level the next sweep starts from: level 0 for Toshiba
     and Samsung parts, whose modes are 0x10 to 0x2F and which return there after every read.
     */
    ghost predicate Valid()
      reads this
    {
      level <= cycle && (if 0x10 <= mode < 0x30 then level == 0 else level == retryCount)
    }

    constructor (retryMode: nat, retryCycle: nat, support: bool, oracle: Oracle)
      ensures Valid() && mode == retryMode && cycle == retryCycle && supportRetry == support && read == oracle
      ensures tried == []
    {
      mode, cycle, supportRetry, read := retryMode, retryCycle, support, oracle;
      retryCount, level, tried := 0, 0, [];
    }

    /** NFC_Read at the chip's level. */
    method Read(page: nat) returns (ret: int)
      modifies `tried
      ensures ret == read(level, page) && tried == old(tried) + [level]
    {
      ret := read(level, page);
      tried := tried + [level];
    }

    /** The retry loop: k counts the reads that failed before the one it ends on. */
    method Sweep(page: nat) returns (ret: int, k: nat)
      requires Valid()
      modifies this
      ensures Valid()
      ensures k <= cycle
      ensures forall i: nat :: i < k ==> read(Level(old(level), i, cycle), page) == -12
      ensures ret == read(Level(old(level), k, cycle), page)
      ensures ret != -12 || k == cycle
      ensures level == if 0x10 <= mode < 0x30 then 0 else Level(old(level), k, cycle)
      ensures tried == old(tried) + Levels(old(level), k + 1, cycle)
    {
      ghost var s := level;
      if mode >= 0x10 && mode < 0x30 {
        retryCount := 0;
      }
      ret, k := 0, 0;
      while k < cycle + 1
        invariant k <= cycle && s == old(level) <= cycle
        invariant k == 0 ==> level == retryCount == s
        invariant k > 0 ==> level == Level(s, k - 1, cycle) && retryCount == level + 1
        invariant forall i: nat :: i < k ==> read(Level(s, i, cycle), page) == -12
        invariant tried == old(tried) + Levels(s, k, cycle)
      {
        if retryCount == cycle + 1 {
          retryCount := 0;
        }
        if k > 0 {
          level := retryCount;
        }
        ret := Read(page);
        if ret != -ERR_ECC || k == cycle {
          if 0x10 <= mode < 0x20 {
            level := 0;
          } else if 0x20 <= mode < 0x30 {
            level := 0;
          }
          break;
        }
        retryCount := retryCount + 1;
        k := k + 1;
      }
    }

    /**
     _read_single_page on chip 0. With read-retry it sweeps the levels cyclically from the one
     the chip is at, up to the first that reads; k is the number of retries. The error comes
     back exactly when every level fails, so it does not depend on earlier reads.
     */
    method ReadSinglePage(page: nat, readMode: nat) returns (ret: int, ghost k: nat)
      requires Valid()
      modifies this
      ensures Valid()
      ensures !supportRetry || readMode != 0 ==> ret == read(old(level), page) && level == old(level) && k == 0
      ensures supportRetry && readMode == 0 ==>
        && (ret == -12 <==> AllFail(read, cycle, page))
        && (forall i: nat :: i < k ==> read(Level(old(level), i, cycle), page) == -12)
        && (var r := read(Level(old(level), k, cycle), page);
            (r != -12 || k == cycle) && ret == if r == 10 then 0 else r)
        && level == if 0x10 <= mode < 0x30 then 0 else Level(old(level), k, cycle)
      ensures k <= cycle && tried == old(tried) + Levels(old(level), k + 1, cycle)
    {
      k := 0;
      if supportRetry && readMode == 0 {
        var n;
        ret, n := Sweep(page);
        k := n;
        if ret == -12 {
          FullSweep(read, cycle, page, old(level));
        }
        if ret == ECC_LIMIT {
          ret := 0;
        }
      } else {
        ret := Read(page);
        assert Levels(old(level), 0, cycle) == [];
      }
    }
  }

  // ---------- the page address ----------

  /** The five address bytes as the chip reads them: a 16-bit column and a 24-bit row. */
  function Column(a: seq<Byte>): int
    requires |a| == 5
  {
    var c0: int, c1: int := a[0], a[1];
    c0 + c1 * 0x100
  }

  function Row(a: seq<Byte>): int
    requires |a| == 5
  {
    var r0: int, r1: int, r2: int := a[2], a[3], a[4];
    r0 + r1 * 0x100 + r2 * 0x1_0000
  }

  /** _cal_addr_in_chip for five cycles: the address bytes denote the sector's column and the page's row. */
  method CalAddrInChip(block: Word, page: Word, sector: Word, pagesPerBlock: Word, addr: array<Byte>)
    requires addr.Length == 5
    modifies addr
    ensures Column(addr[..]) == 512 * sector % 0x1_0000
    ensures Row(addr[..]) == (block * pagesPerBlock + page) % 0x100_0000
  {
    var c, r := 512 * sector, block * pagesPerBlock + page;
    var column: Word, row: Word := c % 0x1_0000_0000, r % 0x1_0000_0000;
    addr[0] := column % 0x100;
    addr[1] := column / 0x100 % 0x100;
    addr[2] := row % 0x100;
    addr[3] := row / 0x100 % 0x100;
    addr[4] := row / 0x1_0000 % 0x100;
    AddressBytes(addr[..], column, row);
    WordMod(c);
    WordMod(r);
  }

  lemma AddressBytes(a: seq<Byte>, column: Word, row: Word)
    requires |a| == 5 && a[0] == column % 0x100 && a[1] == column / 0x100 % 0x100
    requires a[2] == row % 0x100 && a[3] == row / 0x100 % 0x100 && a[4] == row / 0x1_0000 % 0x100
    ensures Column(a) == column % 0x1_0000 && Row(a) == row % 0x100_0000
  {
    BytesOf(column);
    BytesOf(row);
  }

  lemma BytesOf(w: Word)
    ensures w % 0x100 + w / 0x100 % 0x100 * 0x100 == w % 0x1_0000
    ensures w % 0x1_0000 + w / 0x1_0000 % 0x100 * 0x1_0000 == w % 0x100_0000
  {
  }

  lemma WordMod(x: nat)
    ensures x % 0x1_0000_0000 % 0x1_0000 == x % 0x1_0000
    ensures x % 0x1_0000_0000 % 0x100_0000 == x % 0x100_0000
  {
    LowPart(x, 0x1_0000, 0x1_0000);
    LowPart(x, 0x100_0000, 0x100);
  }

  lemma LowPart(x: nat, a: nat, b: nat)
    requires a > 0 && b > 0
    ensures a * b > 0 && x % (a * b) % a == x % a
  {
    DivDiv(x, a, b);
    DivModUnique(x % (a * b), a, x / a % b, x % a);
  }
}
