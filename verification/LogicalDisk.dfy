/**
 The logical disk: a window of the card that starts at an offset (boot1/driver/drv_sd/mmc_op.c:27, 86-131).
 */
module LogicalDisk {
  import opened Bits
  import opened BlockStack
  import opened DmaChain

  /** A request that stays on the logical disk keeps its physical address and its check exact. */
  predicate InWindow(offset: Word, lba: Word, start: Word, n: Word) { offset + start + n <= lba }

  /**
   Which logical blocks lie in the window: exactly those whose address does not wrap around.
   Past the wrap, a logical block is a physical one below the offset.
   */
  lemma WindowExactly(offset: Word, start: Word)
    ensures Add(start, offset) >= offset <==> start + offset < 0x1_0000_0000
  {
  }

  lemma AddWhole(a: Word, b: Word)
    ensures a + b < 0x1_0000_0000 ==> Add(a, b) == a + b
  {
  }

  datatype Request =
    | Read(start: Word, n: Word, buf: nat)
    | Write(start: Word, n: Word, buf: nat)
    | Erase(start: Word, n: Word)

  class Window {
    const disk: Disk
    var offset: Word   // bootcard_offset

    ghost predicate Valid()
      reads this, disk
    {
      disk.Valid()
    }

    constructor (d: Disk)
      requires d.Valid()
      ensures Valid() && disk == d && offset == 0
    {
      disk, offset := d, 0;
    }

    /**
     SDMMC_LogicalInit; err is the result of mmc_register on the set-up hardware. The block count
     comes back through a signed int, so a card of 2^31 blocks or more is taken for a failure.
     */
    method LogicalInit(cardOffset: Word, err: int) returns (r: int)
      modifies this
      ensures offset == cardOffset
      ensures r == 0 || r == -1
      ensures r == 0 <==> err >= 0 && 0 < disk.lba < 0x8000_0000
    {
      offset := cardOffset;
      var ret := if err < 0 then -1 else Signed(disk.lba);
      r := if ret <= 0 then -1 else 0;
    }

    /** SDMMC_LogicalExit. */
    method LogicalExit() returns (r: int)
      modifies this
      ensures offset == 0 && r == 0
    {
      offset := 0;
      r := 0;
    }

    /** SDMMC_LogicalDiskSize, as the unsigned word it computes. */
    method LogicalDiskSize() returns (n: Word)
      ensures offset <= disk.lba ==>
        n == disk.lba - offset && forall start: Word, k: Word :: start + k <= n <==>
          InWindow(offset, disk.lba, start, k)
    {
      n := (disk.lba - offset) % 0x1_0000_0000;
    }

    /**
     SDMMC_LogicalRead: logical block 0 is the physical block at the offset. What a request inside
     the card leaves is the outcome of its chunks, and it succeeds exactly when they do unless a
     command fails.
     */
    method LogicalRead(start: Word, n: Word, buf: nat) returns (r: int)
      requires Valid() && buf + n * 512 <= disk.ram.Length
      modifies disk.ram, disk
      ensures r == 0 || r == -1
      ensures r == 0 && n > 0 && start + offset + n < 0x1_0000_0000 ==> InWindow(offset, disk.lba, start, n)
      ensures start + offset + n < 0x1_0000_0000 ==>
        disk.ReadMeets(start + offset, n, buf, r == 0, old(disk.ram[..]), old(disk.log))
    {
      AddWhole(start, offset);
      var sector := disk.Bread(Add(start, offset), n, buf);
      r := if sector != n then -1 else 0;
    }

    /**
     SDMMC_LogicalWrite: on any outcome it changes no block but those asked for, and none
     below the offset, unless the address or its check wraps around.
     */
    method LogicalWrite(start: Word, n: Word, buf: nat) returns (r: int)
      requires Valid() && buf + n * 512 <= disk.ram.Length
      modifies disk.flash, disk.ram, disk
      ensures r == 0 || r == -1
      ensures start + offset + n < 0x1_0000_0000 ==>
        forall i :: 0 <= i < disk.flash.Length ==>
          disk.flash[i] == old(disk.flash[i]) || (start + offset) * 512 <= i < (start + offset + n) * 512
      ensures start + offset + n < 0x1_0000_0000 ==>
        forall i :: 0 <= i < disk.flash.Length && i < offset * 512 ==> disk.flash[i] == old(disk.flash[i])
      ensures r == 0 && n > 0 && start + offset + n < 0x1_0000_0000 ==> InWindow(offset, disk.lba, start, n)
      ensures r == 0 && n > 0 && start + offset + n < 0x1_0000_0000 && Clear(disk.base, disk.bMax, buf, n) ==>
        forall i :: (start + offset) * 512 <= i < (start + offset + n) * 512 ==>
          disk.flash[i] == old(disk.ram[i - (start + offset) * 512 + buf])
      ensures disk.Quiet() && buf % 4 == 0 && start + offset + n <= disk.lba ==> r == 0
      ensures start + offset + n < 0x1_0000_0000 ==> Within(old(disk.log), disk.log, start + offset, start + offset + n)
    {
      var sector := disk.Bwrite(Add(start, offset), n, buf);
      r := if sector != n then -1 else 0;
    }

    /** SDMMC_LogicaErase: at the addresses of the code it leaves zeros exactly up to 0x8000 blocks. */
    method LogicalErase(start: Word, n: Word) returns (r: int)
      requires Valid() && disk.eraseBuf + n * 512 <= disk.ram.Length
      modifies disk.flash, disk.ram, disk
      ensures r == 0 || r == -1
      ensures start + offset + n < 0x1_0000_0000 ==>
        forall i :: 0 <= i < disk.flash.Length && !((start + offset) * 512 <= i < (start + offset + n) * 512) ==>
          disk.flash[i] == old(disk.flash[i])
      ensures r == 0 && n > 0 && start + offset + n < 0x1_0000_0000 ==> InWindow(offset, disk.lba, start, n)
      ensures r == 0 && n > 0 && start + offset + n < 0x1_0000_0000 && disk.SourceLayout() ==>
        (AllZero(disk.flash[..], (start + offset) * 512, (start + offset + n) * 512) <==> n <= 0x8000)
      ensures disk.Quiet() && disk.eraseBuf % 4 == 0 && start + offset + n <= disk.lba ==> r == 0
      ensures start + offset + n < 0x1_0000_0000 ==> Within(old(disk.log), disk.log, start + offset, start + offset + n)
    {
      var sector := disk.Berase(Add(start, offset), n);
      r := if sector != n then -1 else 0;
    }

    /** A request that fits the logical disk and the memory. */
    predicate Fitting(q: Request)
      reads this
    {
      && InWindow(offset, disk.lba, q.start, q.n)
      && (if q.Erase? then disk.eraseBuf else q.buf) + q.n * 512 <= disk.ram.Length
    }

    /**
     Any sequence of requests that fit, whatever becomes of each: every block a command was
     carried out on lies between the offset and the end of the card, and no block below the
     offset changes.
     */
    method Session(requests: seq<Request>)
      requires Valid() && forall k :: 0 <= k < |requests| ==> Fitting(requests[k])
      modifies disk.flash, disk.ram, disk
      ensures Within(old(disk.log), disk.log, offset, disk.lba)
      ensures forall i :: 0 <= i < disk.flash.Length && i < offset * 512 ==> disk.flash[i] == old(disk.flash[i])
    {
      for k := 0 to |requests|
        invariant Valid() && Within(old(disk.log), disk.log, offset, disk.lba)
        invariant forall i :: 0 <= i < disk.flash.Length && i < offset * 512 ==> disk.flash[i] == old(disk.flash[i])
      {
        var q, r := requests[k], 0;
        match q {
          case Read(start, n, buf) => r := LogicalRead(start, n, buf);
          case Write(start, n, buf) => r := LogicalWrite(start, n, buf);
          case Erase(start, n) => r := LogicalErase(start, n);
        }
      }
    }
  }
}
