/**
 Reading, writing and erasing blocks (boot1/driver/drv_sd/mmc.c:158-354) on a card of 512-byte
 blocks, through the driver's data phase (boot1/driver/drv_sd/mmc_bsp.c:540-708).
 */
module BlockStack {
  import opened Bits
  import opened DmaChain
  import Mem

  /** What becomes of one command: done, or failed with anything left in the bytes it was to move. */
  datatype Outcome = Done | Failed(junk: nat -> Byte)

  /** One data command the card was sent: its first block and its length in blocks. */
  datatype Xfer = Xfer(write: bool, start: nat, blocks: nat)

  /** The commands for blocks start .. start+n, in chunks of at most bMax. */
  function Chunks(write: bool, start: nat, n: nat, bMax: nat): seq<Xfer>
    requires bMax > 0
    decreases n
  {
    if n <= bMax then [Xfer(write, start, n)]
    else [Xfer(write, start, bMax)] + Chunks(write, start + bMax, n - bMax, bMax)
  }

  /** Commands within the limit, each starting where the last one ended, that make up the whole range. */
  ghost predicate Partition(c: seq<Xfer>, write: bool, start: nat, n: nat, bMax: nat) {
    && |c| > 0 && c[0].start == start && c[|c| - 1].start + c[|c| - 1].blocks == start + n
    && (forall i :: 0 <= i < |c| ==> c[i].write == write && 0 < c[i].blocks <= bMax)
    && (forall i :: 0 < i < |c| ==> c[i].start == c[i - 1].start + c[i - 1].blocks)
  }

  lemma PartitionCons(x: Xfer, c: seq<Xfer>, n: nat, bMax: nat)
    requires Partition(c, x.write, x.start + x.blocks, n, bMax) && 0 < x.blocks <= bMax
    ensures Partition([x] + c, x.write, x.start, x.blocks + n, bMax)
  {
    var d := [x] + c;
    forall i | 0 < i < |d|
      ensures d[i].start == d[i - 1].start + d[i - 1].blocks
    {
      assert d[i] == c[i - 1];
      if i > 1 {
        assert d[i - 1] == c[i - 2];
      }
    }
  }

  /** The chunk commands of a request partition it. */
  lemma {:induction false} ChunksPartition(write: bool, start: nat, n: nat, bMax: nat)
    requires bMax > 0 && n > 0
    ensures Partition(Chunks(write, start, n, bMax), write, start, n, bMax)
    decreases n
  {
    if n > bMax {
      ChunksPartition(write, start + bMax, n - bMax, bMax);
      PartitionCons(Xfer(write, start, bMax), Chunks(write, start + bMax, n - bMax, bMax), n - bMax, bMax);
    }
  }

  /** The argument of a data command for a block: the block number, or its byte address. */
  function Argument(highCapacity: bool, block: Word): Word {
    if highCapacity then block else block * 512 % 0x1_0000_0000
  }

  /** The block a command argument selects on the card. */
  function Selected(highCapacity: bool, arg: Word): nat { if highCapacity then arg else arg / 512 }

  /** The block of the card a request for `block` ends up at. */
  function BlockOf(highCapacity: bool, block: Word): nat { if highCapacity then block else block % 0x80_0000 }

  lemma ArgumentSelects(highCapacity: bool, block: Word)
    ensures Selected(highCapacity, Argument(highCapacity, block)) == BlockOf(highCapacity, block)
    ensures !highCapacity ==> Argument(highCapacity, block) % 512 == 0
  {
    if !highCapacity {
      var x := block * 512;
      DivMod(block, 0x80_0000);
      DivModUnique(x, 0x1_0000_0000, block / 0x80_0000, block % 0x80_0000 * 512);
    }
  }

  lemma SliceOfSlice(s: seq<Byte>, lo: nat, hi: nat, a: nat, b: nat)
    requires lo <= hi <= |s| && a <= b <= hi - lo
    ensures s[lo..hi][a..b] == s[lo + a..lo + b]
  {
    var t, u := s[lo..hi][a..b], s[lo + a..lo + b];
    assert |t| == |u| && forall k :: 0 <= k < |t| ==> t[k] == u[k];
  }

  lemma SliceAt(s: seq<Byte>, lo: nat, hi: nat, t: seq<Byte>, from: nat)
    requires lo <= hi <= |s| && from + (hi - lo) <= |t| && s[lo..hi] == t[from..from + (hi - lo)]
    ensures forall i :: lo <= i < hi ==> s[i] == t[i - lo + from]
  {
    forall i | lo <= i < hi
      ensures s[i] == t[i - lo + from]
    {
      assert s[lo..hi][i - lo] == t[from..from + (hi - lo)][i - lo];
    }
  }

  lemma StillAligned(buf: nat, done: nat)
    ensures buf % 4 == 0 ==> (buf + done * 512) % 4 == 0
  {
  }

  /** Whether unsigned 32-bit addition keeps the range check honest for a request. */
  predicate NoAlias(highCapacity: bool, lba: Word, start: Word, n: Word) {
    highCapacity || lba < 0x80_0000 || start + n < 0x1_0000_0000
  }

  /** A request of one command that gets through: the driver's check and the card's. */
  predicate Passes(hc: bool, lba: Word, start: Word, n: Word) {
    n > 0 && Add(start, n) <= lba && BlockOf(hc, start) + n <= lba
  }

  /** Of the requests that get through, NoAlias holds for exactly those that are for blocks of the card. */
  lemma PassedExactly(hc: bool, lba: Word, start: Word, n: Word)
    requires Passes(hc, lba, start, n) && (!hc ==> lba <= 0x80_0000)
    ensures start + n <= lba <==> NoAlias(hc, lba, start, n)
  {
    if NoAlias(hc, lba, start, n) {
      WholeRequest(hc, lba, start, n);
    }
  }

  /** A card lets through exactly the requests for its blocks unless it is a standard-capacity one of the full 4 GB. */
  lemma ChecksAreExact(hc: bool, lba: Word)
    requires !hc ==> lba <= 0x80_0000
    ensures (forall start: Word, n: Word | n > 0 :: Passes(hc, lba, start, n) <==> start + n <= lba)
      <==> hc || lba < 0x80_0000
  {
    if hc || lba < 0x80_0000 {
      forall start: Word, n: Word | n > 0
        ensures Passes(hc, lba, start, n) <==> start + n <= lba
      {
        if Passes(hc, lba, start, n) {
          PassedExactly(hc, lba, start, n);
        }
      }
    } else {
      AliasPasses();
    }
  }

  /** On such a card, block 0xFFFFFFFF passes and is addressed as the last block. */
  lemma AliasPasses()
    ensures Passes(false, 0x80_0000, 0xffff_ffff, 1) && BlockOf(false, 0xffff_ffff) == 0x7f_ffff
  {
  }

  /** The chunk after `done` blocks goes to the next block of the card. */
  lemma NextBlock(hc: bool, lba: Word, start: Word, n: Word, done: nat)
    requires NoAlias(hc, lba, start, n) && done < n && Add(start, n) <= lba && (!hc ==> lba <= 0x80_0000)
    requires done > 0 ==> BlockOf(hc, start) + done <= lba
    ensures BlockOf(hc, Add(start, done)) == BlockOf(hc, start) + done
  {
    if !hc && done > 0 {
      if lba == 0x80_0000 {
        StartsBelow(start, n);
      }
      AddBelow(start, done);
    }
  }

  lemma StartsBelow(start: Word, n: Word)
    requires start + n < 0x1_0000_0000 && Add(start, n) <= 0x80_0000 && n > 0
    ensures start % 0x80_0000 == start && start + n <= 0x80_0000
  {
  }

  /** Where the addition does not wrap, a request that passes the driver's check starts at the block it names. */
  lemma StartsHere(hc: bool, lba: Word, start: Word, n: Word)
    requires start + n < 0x1_0000_0000 && Add(start, n) <= lba && n > 0 && (!hc ==> lba <= 0x80_0000)
    ensures BlockOf(hc, start) == start && NoAlias(hc, lba, start, n)
  {
  }

  lemma AddBelow(start: Word, done: nat)
    requires start % 0x80_0000 + done < 0x80_0000
    ensures Add(start, done) % 0x80_0000 == start % 0x80_0000 + done
  {
    var q := start / 0x80_0000;
    DivMod(start, 0x80_0000);
    DivModUnique(start + done, 0x80_0000, q, start % 0x80_0000 + done);
  }

  /** Logging one chunk leaves the chunks after it. */
  lemma ChunkLogged(log: seq<Xfer>, write: bool, start: nat, todo: nat, bMax: nat)
    requires bMax > 0 && todo > 0
    ensures var cur := if todo > bMax then bMax else todo;
      log + Chunks(write, start, todo, bMax) ==
        log + [Xfer(write, start, cur)] + if todo > bMax then Chunks(write, start + cur, todo - cur, bMax) else []
  {
  }

  /** A chunk of a write that reaches the card goes to the next block of the request. */
  lemma NextWrite(hc: bool, lba: Word, start: Word, n: Word, done: nat, cur: Word)
    requires NoAlias(hc, lba, start, n) && (!hc ==> lba <= 0x80_0000)
    requires 0 < cur && done + cur <= n && (done > 0 ==> start + done <= lba)
    requires var at := Add(start, done); Add(at, cur) <= lba && BlockOf(hc, at) + cur <= lba
    ensures BlockOf(hc, Add(start, done)) == start + done && start + done + cur <= lba
  {
  }

  /** Every chunk of a request for blocks of the card passes the checks. */
  lemma InsideFits(hc: bool, lba: Word, start: Word, done: nat, cur: Word)
    requires start + done + cur <= lba && (!hc ==> lba <= 0x80_0000) && cur > 0
    ensures var at := Add(start, done); Add(at, cur) <= lba && BlockOf(hc, at) == at == start + done
  {
  }

  /** A request that was carried out to its end was for blocks of the card. */
  lemma WholeRequest(hc: bool, lba: Word, start: Word, n: Word)
    requires NoAlias(hc, lba, start, n) && 0 < n && Add(start, n) <= lba && (!hc ==> lba <= 0x80_0000)
    requires BlockOf(hc, start) + n <= lba
    ensures BlockOf(hc, start) == start && start + n <= lba
  {
  }

  /** The checks a write chunk meets: the driver's and the card's. */
  predicate Fits(hc: bool, lba: Word, at: Word, cur: Word) { Add(at, cur) <= lba && BlockOf(hc, at) + cur <= lba }

  /** Where the chunk after `done` blocks of a read starts. */
  lemma ReadAt(hc: bool, lba: Word, bMax: Word, start: Word, n: Word, done: nat)
    requires (NoAlias(hc, lba, start, n) || n <= bMax) && done < n && Add(start, n) <= lba && (!hc ==> lba <= 0x80_0000)
    requires (n <= bMax ==> done == 0) && (done > 0 ==> BlockOf(hc, start) + done <= lba)
    ensures BlockOf(hc, Add(start, done)) == BlockOf(hc, start) + done
  {
    if NoAlias(hc, lba, start, n) {
      NextBlock(hc, lba, start, n, done);
    }
  }

  /** Where the chunk after `done` blocks of a write starts, and whether it passes. */
  lemma WriteAt(hc: bool, lba: Word, start: Word, n: Word, done: nat, cur: Word)
    requires 0 < cur && done + cur <= n && (!hc ==> lba <= 0x80_0000)
    requires NoAlias(hc, lba, start, n) ==> (done > 0 ==> start + done <= lba)
    ensures var at := Add(start, done);
      && (start + n <= lba ==> Fits(hc, lba, at, cur))
      && (NoAlias(hc, lba, start, n) && Fits(hc, lba, at, cur) ==>
        BlockOf(hc, at) == start + done && start + done + cur <= lba)
  {
    if start + n <= lba {
      InsideFits(hc, lba, start, done, cur);
    } else if NoAlias(hc, lba, start, n) && Fits(hc, lba, Add(start, done), cur) {
      NextWrite(hc, lba, start, n, done, cur);
    }
  }

  /** The log once the chunks after the first `done` of n blocks are carried out too. */
  function Planned(now: seq<Xfer>, write: bool, first: nat, done: nat, n: nat, bMax: nat): seq<Xfer>
    requires bMax > 0 && done <= n
  {
    now + if done < n then Chunks(write, first + done, n - done, bMax) else []
  }

  /** The commands carried out since `was` are all for blocks from lo to hi. */
  ghost predicate Within(was: seq<Xfer>, now: seq<Xfer>, lo: nat, hi: nat) {
    was <= now && forall i :: |was| <= i < |now| ==> lo <= now[i].start && now[i].start + now[i].blocks <= hi
  }

  /** The next chunk is as planned. */
  lemma PlannedNext(log: seq<Xfer>, write: bool, first: nat, done: nat, cur: nat, more: nat, n: nat, bMax: nat)
    requires bMax > 0 && done < n && cur == FirstChunk(n - done, bMax) && more == done + cur
    ensures Planned(log + [Xfer(write, first + done, cur)], write, first, more, n, bMax) ==
            Planned(log, write, first, done, n, bMax)
  {
    ChunkLogged(log, write, first + done, n - done, bMax);
  }

  /** The chunks of a request are for its blocks. */
  lemma {:induction false} ChunksInside(write: bool, start: nat, n: nat, bMax: nat)
    requires bMax > 0
    ensures Within([], Chunks(write, start, n, bMax), start, start + n)
    decreases n
  {
    if n > bMax {
      var c, rest := Chunks(write, start, n, bMax), Chunks(write, start + bMax, n - bMax, bMax);
      ChunksInside(write, start + bMax, n - bMax, bMax);
      forall i | 1 <= i < |c|
        ensures c[i] == rest[i - 1]
      {
      }
    }
  }

  /** What follows the plan stays within the request. */
  lemma PlanWithin(was: seq<Xfer>, now: seq<Xfer>, write: bool, first: nat, n: nat, bMax: nat)
    requires bMax > 0 && was <= now <= was + Chunks(write, first, n, bMax)
    ensures Within(was, now, first, first + n)
  {
    ChunksInside(write, first, n, bMax);
    var c := Chunks(write, first, n, bMax);
    forall i | |was| <= i < |now|
      ensures now[i] == c[i - |was|]
    {
      assert now[i] == (was + c)[i];
    }
  }

  /** The n bytes at `to` are those at `from`. */
  ghost predicate Copied(source: seq<Byte>, from: nat, target: seq<Byte>, to: nat, n: nat) {
    n > 0 ==>
      && from + n <= |source| && to + n <= |target|
      && forall i :: to <= i < to + n ==> target[i] == source[i - to + from]
  }

  ghost predicate SameOn(was: seq<Byte>, now: seq<Byte>, lo: nat, hi: nat) {
    |now| == |was| && forall i :: lo <= i < hi && i < |was| ==> now[i] == was[i]
  }

  /** Nothing but the bytes from lo to hi differs. */
  ghost predicate SameOutside(was: seq<Byte>, now: seq<Byte>, lo: nat, hi: nat) {
    |now| == |was| && forall i :: 0 <= i < |was| && !(lo <= i < hi) ==> now[i] == was[i]
  }

  /** Changes within a range add up. */
  lemma SameOutsideNext(m: seq<Byte>, k: seq<Byte>, k1: seq<Byte>, lo: nat, hi: nat, to: nat, end: nat)
    requires SameOutside(m, k, lo, hi) && SameOutside(k, k1, to, end) && lo <= to && end <= hi
    ensures SameOutside(m, k1, lo, hi)
  {
  }

  /** Bytes of memory m that are stored elsewhere are copied there. */
  lemma StoredCopy(m: seq<Byte>, from: nat, was: seq<Byte>, at: nat, n: nat)
    requires from + n <= |m| && at + n <= |was|
    ensures var now := Splice(was, at, m[from..from + n]);
      Copied(m, from, now, at, n) && SameOutside(was, now, at, at + n)
  {
  }

  /** Nothing but the bytes of two ranges differs. */
  ghost predicate SameBut(was: seq<Byte>, now: seq<Byte>, lo: nat, hi: nat, lo1: nat, hi1: nat) {
    |now| == |was| && forall i :: 0 <= i < |was| && !(lo <= i < hi) && !(lo1 <= i < hi1) ==> now[i] == was[i]
  }

  /** Changes within the two ranges add up. */
  lemma SameButNext(m: seq<Byte>, k: seq<Byte>, k1: seq<Byte>, lo: nat, hi: nat, to: nat, end: nat, base: nat,
                    far: nat, near: nat)
    requires SameBut(m, k, lo, hi, base, far) && SameBut(k, k1, to, end, base, near)
    requires lo <= to && end <= hi && near <= far
    ensures SameBut(m, k1, lo, hi, base, far)
  {
  }

  // ---------- the descriptors in memory ----------

  function FirstChunk(n: nat, bMax: nat): nat { if n > bMax then bMax else n }

  /** The buffer of a request does not meet the descriptors of its longest chunk, the first. */
  predicate Clear(base: nat, bMax: nat, buf: nat, n: nat) {
    Between(base, ChainEnd(base, FirstChunk(n, bMax) * 512), buf, n)
  }

  /** n blocks at buf stay out of the bytes from lo to hi. */
  predicate Between(lo: nat, hi: nat, buf: nat, n: nat) { n == 0 || buf + n * 512 <= lo || hi <= buf }

  lemma ChainShorter(base: nat, a: nat, b: nat)
    requires a <= b
    ensures ChainEnd(base, a) <= ChainEnd(base, b)
  {
  }

  /** What is left of a clear request is clear, and so is its next chunk. */
  lemma ClearNext(base: nat, bMax: nat, buf: nat, n: nat, done: nat)
    requires bMax > 0 && done < n && Clear(base, bMax, buf, n)
    ensures var cur := FirstChunk(n - done, bMax);
      && Apart(base, buf + done * 512, cur * 512) && Clear(base, bMax, buf + done * 512, n - done)
      && ChainEnd(base, cur * 512) <= ChainEnd(base, FirstChunk(n, bMax) * 512)
  {
    ChainShorter(base, FirstChunk(n - done, bMax) * 512, FirstChunk(n, bMax) * 512);
  }

  /** The memory holds a request's buffer and the descriptors of its chunks. */
  predicate Roomy(len: nat, base: nat, bMax: nat, buf: nat, n: nat) {
    bMax > 0 && 0 < base && ChainEnd(base, bMax * 512) <= len && buf + n * 512 <= len <= 0x1_0000_0000
  }

  lemma ChunkRoom(len: nat, base: nat, bMax: nat, buf: nat, n: nat, cur: nat)
    requires Roomy(len, base, bMax, buf, n) && cur <= n && cur <= bMax
    ensures Room(len, base, buf, cur * 512)
  {
    ChainShorter(base, cur * 512, bMax * 512);
  }

  /** The memory when the first chunk of a request is sent. */
  ghost function Chained(m: seq<Byte>, base: nat, bMax: nat, src: nat, n: nat): (r: seq<Byte>)
    requires Roomy(|m|, base, bMax, src, n)
    ensures |r| == |m|
    ensures forall i :: 0 <= i < |m| && !(base <= i < ChainEnd(base, FirstChunk(n, bMax) * 512)) ==> r[i] == m[i]
  {
    ChunkRoom(|m|, base, bMax, src, n, FirstChunk(n, bMax));
    WithChain(m, base, src, FirstChunk(n, bMax) * 512)
  }

  /**
   The byte the chunks of a write deliver for address a of the buffer: each chunk is sent after
   its descriptors are written.
   */
  ghost function Sent(m: seq<Byte>, base: nat, bMax: nat, src: nat, n: nat, a: nat): Byte
    requires Roomy(|m|, base, bMax, src, n) && src <= a < src + n * 512
    decreases n
  {
    var cur, m1 := FirstChunk(n, bMax), Chained(m, base, bMax, src, n);
    if a < src + cur * 512 then m1[a] else Sent(m1, base, bMax, src + cur * 512, n - cur, a)
  }

  /** Outside the descriptors a byte is delivered as it is. */
  lemma {:induction false} SentAsIs(m: seq<Byte>, base: nat, bMax: nat, src: nat, n: nat, a: nat)
    requires Roomy(|m|, base, bMax, src, n) && src <= a < src + n * 512
    requires !(base <= a < ChainEnd(base, FirstChunk(n, bMax) * 512))
    ensures Sent(m, base, bMax, src, n, a) == m[a]
    decreases n
  {
    var cur, m1 := FirstChunk(n, bMax), Chained(m, base, bMax, src, n);
    if a >= src + cur * 512 {
      ChainShorter(base, FirstChunk(n - cur, bMax) * 512, cur * 512);
      SentAsIs(m1, base, bMax, src + cur * 512, n - cur, a);
    }
  }

  /** Where descriptors are written, what the buffer held makes no difference. */
  lemma {:induction false} SentBlind(m: seq<Byte>, k: seq<Byte>, base: nat, bMax: nat, src: nat, n: nat, a: nat)
    requires Roomy(|m|, base, bMax, src, n) && |k| == |m| && src <= a < src + n * 512
    requires m[a] == k[a] || base <= a < ChainEnd(base, FirstChunk(n, bMax) * 512)
    ensures Sent(m, base, bMax, src, n, a) == Sent(k, base, bMax, src, n, a)
    decreases n
  {
    var cur, m1, k1 := FirstChunk(n, bMax), Chained(m, base, bMax, src, n), Chained(k, base, bMax, src, n);
    ChainedBlind(m, k, base, bMax, src, n, a);
    if a >= src + cur * 512 {
      SentBlind(m1, k1, base, bMax, src + cur * 512, n - cur, a);
    }
  }

  lemma ChainedBlind(m: seq<Byte>, k: seq<Byte>, base: nat, bMax: nat, src: nat, n: nat, a: nat)
    requires Roomy(|m|, base, bMax, src, n) && |k| == |m| && a < |m|
    requires m[a] == k[a] || base <= a < ChainEnd(base, FirstChunk(n, bMax) * 512)
    ensures Chained(m, base, bMax, src, n)[a] == Chained(k, base, bMax, src, n)[a]
  {
    var m1, k1 := Chained(m, base, bMax, src, n), Chained(k, base, bMax, src, n);
    ChunkRoom(|m|, base, bMax, src, n, FirstChunk(n, bMax));
    if base <= a < ChainEnd(base, FirstChunk(n, bMax) * 512) {
      BuiltByte(m, m1, k, k1, base, src, FirstChunk(n, bMax) * 512, a);
    }
  }

  /** The buffer is delivered. */
  ghost predicate Delivered(m: seq<Byte>, base: nat, bMax: nat, src: nat, n: nat)
    requires Roomy(|m|, base, bMax, src, n)
  {
    forall a :: src <= a < src + n * 512 ==> Sent(m, base, bMax, src, n, a) == m[a]
  }

  /** A buffer clear of the descriptors is delivered. */
  lemma SentClear(m: seq<Byte>, base: nat, bMax: nat, src: nat, n: nat)
    requires Roomy(|m|, base, bMax, src, n) && Clear(base, bMax, src, n)
    ensures Delivered(m, base, bMax, src, n)
  {
    forall a | src <= a < src + n * 512
      ensures Sent(m, base, bMax, src, n, a) == m[a]
    {
      SentAsIs(m, base, bMax, src, n, a);
    }
  }

  /** A write delivers its buffer, whatever the memory holds, exactly when the buffer is clear of the descriptors. */
  lemma DeliversExactly(len: nat, base: nat, bMax: nat, src: nat, n: nat)
    requires Roomy(len, base, bMax, src, n)
    ensures (forall m: seq<Byte> | |m| == len :: Delivered(m, base, bMax, src, n)) <==> Clear(base, bMax, src, n)
  {
    if Clear(base, bMax, src, n) {
      forall m: seq<Byte> | |m| == len
        ensures Delivered(m, base, bMax, src, n)
      {
        SentClear(m, base, bMax, src, n);
      }
    } else {
      NotDelivered(len, base, bMax, src, n);
    }
  }

  /** A buffer that meets the descriptors: some memory is not delivered. */
  lemma NotDelivered(len: nat, base: nat, bMax: nat, src: nat, n: nat)
    requires Roomy(len, base, bMax, src, n) && !Clear(base, bMax, src, n)
    ensures exists m: seq<Byte> :: |m| == len && !Delivered(m, base, bMax, src, n)
  {
    var a := if src <= base then base else src;
    var m := seq(len, i => 0);
    var sent: int := Sent(m, base, bMax, src, n, a);
    var k := m[a := (sent + 1) % 0x100];
    SentBlind(m, k, base, bMax, src, n, a);
    assert Sent(k, base, bMax, src, n, a) != k[a];
  }

  /** The own bit of the first descriptor is delivered when it lies in the buffer. */
  lemma {:induction false} SentOwn(m: seq<Byte>, base: nat, bMax: nat, src: nat, n: nat)
    requires Roomy(|m|, base, bMax, src, n) && src <= base + 3 < src + n * 512
    ensures Sent(m, base, bMax, src, n, base + 3) >= 0x80
    decreases n
  {
    var cur, m1 := FirstChunk(n, bMax), Chained(m, base, bMax, src, n);
    if base + 3 < src + cur * 512 {
      ChunkRoom(|m|, base, bMax, src, n, cur);
      OwnByte(m, base, src, cur * 512);
    } else {
      SentOwn(m1, base, bMax, src + cur * 512, n - cur);
    }
  }

  ghost predicate AllZero(m: seq<Byte>, lo: nat, hi: nat) {
    hi <= |m| && forall i :: lo <= i < hi ==> m[i] == 0
  }

  ghost predicate SendsZeros(m: seq<Byte>, base: nat, bMax: nat, src: nat, n: nat)
    requires Roomy(|m|, base, bMax, src, n)
  {
    forall a :: src <= a < src + n * 512 ==> Sent(m, base, bMax, src, n, a) == 0
  }

  /** A zeroed buffer some blocks below the descriptors is delivered as zeros exactly when it ends there. */
  lemma ZerosSent(m: seq<Byte>, base: nat, bMax: nat, src: nat, n: nat)
    requires Roomy(|m|, base, bMax, src, n) && src <= base && (base - src) % 512 == 0
    requires AllZero(m, src, src + n * 512)
    ensures SendsZeros(m, base, bMax, src, n) <==> src + n * 512 <= base
  {
    if src + n * 512 <= base {
      SentClear(m, base, bMax, src, n);
    } else {
      SentOwn(m, base, bMax, src, n);
    }
  }

  /** The buffer of mmc_berase and the descriptors where the code puts them: 0x8001 blocks are one too many. */
  lemma EraseReachesDescriptors(m: seq<Byte>)
    requires Roomy(|m|, 0x4200_0000, 65535, 0x4100_0000, 0x8001)
    ensures Sent(m, 0x4200_0000, 65535, 0x4100_0000, 0x8001, 0x4200_0003) >= 0x80
  {
    SentOwn(m, 0x4200_0000, 65535, 0x4100_0000, 0x8001);
  }

  /** All the bytes the chunks of a write deliver, in order. */
  ghost function Sends(m: seq<Byte>, base: nat, bMax: nat, src: nat, n: nat): (s: seq<Byte>)
    requires Roomy(|m|, base, bMax, src, n)
    ensures |s| == n * 512
  {
    seq<Byte>(n * 512, i requires 0 <= i < n * 512 => Sent(m, base, bMax, src, n, src + i))
  }

  /** The first chunk sends the memory as it then stands; the others follow. */
  lemma SendsNext(m: seq<Byte>, m1: seq<Byte>, base: nat, bMax: nat, src: nat, n: nat, next: nat, left: nat)
    requires Roomy(|m|, base, bMax, src, n) && n > 0 && m1 == Chained(m, base, bMax, src, n)
    requires next == src + FirstChunk(n, bMax) * 512 && left == n - FirstChunk(n, bMax)
    ensures Sends(m, base, bMax, src, n) == m1[src..next] + Sends(m1, base, bMax, next, left)
  {
    var all, rest := Sends(m, base, bMax, src, n), Sends(m1, base, bMax, next, left);
    forall i | 0 <= i < n * 512
      ensures all[i] == (m1[src..next] + rest)[i]
    {
      if src + i >= next {
        assert rest[src + i - next] == Sent(m1, base, bMax, next, left, src + i);
      }
    }
  }

  /** A delivered buffer is sent as it is. */
  lemma SendsDelivered(m: seq<Byte>, base: nat, bMax: nat, src: nat, n: nat)
    requires Roomy(|m|, base, bMax, src, n) && Delivered(m, base, bMax, src, n)
    ensures Sends(m, base, bMax, src, n) == m[src..src + n * 512]
  {
  }

  /** Blocks that hold what was sent are zero exactly when zeros were. */
  lemma StoredZeros(card: seq<Byte>, start: nat, m: seq<Byte>, base: nat, bMax: nat, src: nat, n: nat)
    requires Roomy(|m|, base, bMax, src, n) && (start + n) * 512 <= |card|
    requires card[start * 512..(start + n) * 512] == Sends(m, base, bMax, src, n)
    ensures AllZero(card, start * 512, (start + n) * 512) <==> SendsZeros(m, base, bMax, src, n)
  {
    var all := Sends(m, base, bMax, src, n);
    if AllZero(card, start * 512, (start + n) * 512) {
      forall a | src <= a < src + n * 512
        ensures Sent(m, base, bMax, src, n, a) == 0
      {
        assert all[a - src] == card[start * 512 + (a - src)];
      }
    }
    if SendsZeros(m, base, bMax, src, n) {
      forall i | start * 512 <= i < (start + n) * 512
        ensures card[i] == 0
      {
        assert all[i - start * 512] == card[i];
      }
    }
  }

  /** The first `done` blocks from start, as far as the card has them. */
  function Written(card: seq<Byte>, start: nat, done: nat): seq<Byte> {
    if (start + done) * 512 <= |card| then card[start * 512..(start + done) * 512] else []
  }

  /** What the blocks hold once the chunks after the first `done` blocks are sent from memory m. */
  ghost function Upcoming(card: seq<Byte>, m: seq<Byte>, base: nat, bMax: nat, start: nat, src: nat, n: nat, done: nat)
    : seq<Byte>
    requires Roomy(|m|, base, bMax, src, n) && done <= n
  {
    Written(card, start, done) + Sends(m, base, bMax, src + done * 512, n - done)
  }

  /** One chunk more changes nothing of that. */
  lemma UpcomingNext(was: seq<Byte>, now: seq<Byte>, k: seq<Byte>, k1: seq<Byte>, base: nat, bMax: nat, start: nat,
                     src: nat, n: nat, done: nat, more: nat)
    requires Roomy(|k|, base, bMax, src, n) && done < n && k1 == Chained(k, base, bMax, src + done * 512, n - done)
    requires more == done + FirstChunk(n - done, bMax) && (start + more) * 512 <= |now|
    requires SameOn(was, now, start * 512, (start + done) * 512)
    requires Copied(k1, src + done * 512, now, (start + done) * 512, (more - done) * 512)
    ensures Upcoming(now, k1, base, bMax, start, src, n, more) == Upcoming(was, k, base, bMax, start, src, n, done)
  {
    var at := src + done * 512;
    SendsNext(k, k1, base, bMax, at, n - done, src + more * 512, n - more);
    WrittenNext(was, now, k1, start, done, more, at, src + more * 512);
    UpcomingJoins(was, now, k, k1, base, bMax, start, src, n, done, more, k1[at..src + more * 512]);
  }

  lemma UpcomingJoins(was: seq<Byte>, now: seq<Byte>, k: seq<Byte>, k1: seq<Byte>, base: nat, bMax: nat, start: nat,
                      src: nat, n: nat, done: nat, more: nat, piece: seq<Byte>)
    requires Roomy(|k|, base, bMax, src, n) && |k1| == |k| && done <= more <= n
    requires Written(now, start, more) == Written(was, start, done) + piece
    requires Sends(k, base, bMax, src + done * 512, n - done) ==
             piece + Sends(k1, base, bMax, src + more * 512, n - more)
    ensures Upcoming(now, k1, base, bMax, start, src, n, more) == Upcoming(was, k, base, bMax, start, src, n, done)
  {
    Regroup(Written(was, start, done), piece, Sends(k1, base, bMax, src + more * 512, n - more));
  }

  lemma Regroup(s: seq<Byte>, t: seq<Byte>, u: seq<Byte>)
    ensures (s + t) + u == s + (t + u)
  {
  }

  lemma WrittenNext(was: seq<Byte>, now: seq<Byte>, k1: seq<Byte>, start: nat, done: nat, more: nat, at: nat, next: nat)
    requires done <= more && (start + more) * 512 <= |now| && next <= |k1| && next == at + (more - done) * 512
    requires SameOn(was, now, start * 512, (start + done) * 512)
    requires Copied(k1, at, now, (start + done) * 512, (more - done) * 512)
    ensures Written(now, start, more) == Written(was, start, done) + k1[at..next]
  {
    var s, t := Written(now, start, more), Written(was, start, done) + k1[at..next];
    assert |s| == |t|;
    forall i | 0 <= i < |s|
      ensures s[i] == t[i]
    {
      var x := start * 512 + i;
      assert s[i] == now[x];
      if i < done * 512 {
        assert t[i] == was[x];
      } else {
        assert now[x] == k1[x - (start + done) * 512 + at];
      }
    }
  }

  // ---------- reading beside the descriptors ----------

  /** The chunk after `done` blocks of a read: its outcome on memory m. */
  ghost function Chunk(read: Reader, m: seq<Byte>, card: seq<Byte>, base: nat, bMax: nat, dst: nat, n: nat,
                       done: nat): (r: (bool, seq<Byte>))
    requires Roomy(|m|, base, bMax, dst, n) && |card| == n * 512 && done < n
    ensures |r.1| == |m|
  {
    var cur := FirstChunk(n - done, bMax);
    ChunkRoom(|m|, base, bMax, dst + done * 512, n - done, cur);
    Transferred(read, m, base, dst + done * 512, card[done * 512..(done + cur) * 512])
  }

  /** The outcome of the chunks of a read after `done` blocks; card is what the blocks of the request hold. */
  ghost function Received(read: Reader, m: seq<Byte>, card: seq<Byte>, base: nat, bMax: nat, dst: nat, n: nat,
                          done: nat): (r: (bool, seq<Byte>))
    requires Roomy(|m|, base, bMax, dst, n) && |card| == n * 512 && done <= n
    ensures |r.1| == |m|
    decreases n - done
  {
    if done == n then (true, m) else
      var r := Chunk(read, m, card, base, bMax, dst, n, done);
      if !r.0 then r else Received(read, r.1, card, base, bMax, dst, n, done + FirstChunk(n - done, bMax))
  }

  /** The read went well, and the buffer holds the blocks. */
  ghost predicate Right(r: (bool, seq<Byte>), card: seq<Byte>, dst: nat, n: nat) {
    && r.0 && dst + n * 512 <= |r.1| && |card| == n * 512
    && forall a :: dst <= a < dst + n * 512 ==> r.1[a] == card[a - dst]
  }

  /** A byte of the buffer is not the card's, unless the read failed. */
  ghost predicate Wrong(r: (bool, seq<Byte>), card: seq<Byte>, dst: nat, x: nat) {
    r.0 ==> dst <= x < dst + |card| && x < |r.1| && r.1[x] != card[x - dst]
  }

  /** The chunks of a read after `done` blocks: each spares its chain, and no chain meets what is already read. */
  predicate ReadSpared(base: nat, bMax: nat, dst: nat, n: nat, done: nat)
    requires bMax > 0
    decreases n - done
  {
    done >= n ||
    var cur := FirstChunk(n - done, bMax);
    && Spared(base, dst + done * 512, cur * 512) && Between(base, ChainEnd(base, cur * 512), dst, done)
    && ReadSpared(base, bMax, dst, n, done + cur)
  }

  /** A buffer clear of the descriptors is spared. */
  lemma {:induction false} ClearSpared(base: nat, bMax: nat, dst: nat, n: nat, done: nat)
    requires bMax > 0 && done <= n && Clear(base, bMax, dst, n)
    ensures ReadSpared(base, bMax, dst, n, done)
    decreases n - done
  {
    if done < n {
      ClearNext(base, bMax, dst, n, done);
      ApartSpared(base, dst + done * 512, FirstChunk(n - done, bMax) * 512);
      ClearSpared(base, bMax, dst, n, done + FirstChunk(n - done, bMax));
    }
  }

  /** A request of at most 64 blocks is one descriptor, and spared wherever its buffer lies. */
  lemma SmallSpared(base: nat, bMax: nat, dst: nat, n: nat)
    requires bMax >= 64 && n <= 64
    ensures ReadSpared(base, bMax, dst, n, 0)
  {
    if n > 0 {
      assert ReadSpared(base, bMax, dst, n, n);
    }
  }

  /** Where a chunk that spares its chain leaves what. */
  lemma ChunkFills(read: Reader, m: seq<Byte>, card: seq<Byte>, base: nat, bMax: nat, dst: nat, n: nat, done: nat)
    requires Reads(read) && Roomy(|m|, base, bMax, dst, n) && |card| == n * 512 && done < n
    requires Spared(base, dst + done * 512, FirstChunk(n - done, bMax) * 512)
    ensures var r, cur := Chunk(read, m, card, base, bMax, dst, n, done), FirstChunk(n - done, bMax);
      var c := Chained(m, base, bMax, dst + done * 512, n - done);
      && r.0
      && forall a :: 0 <= a < |m| ==>
           r.1[a] == if dst + done * 512 <= a < dst + (done + cur) * 512 then card[a - dst] else c[a]
  {
    var cur, buf := FirstChunk(n - done, bMax), dst + done * 512;
    var s := card[done * 512..(done + cur) * 512];
    ChunkRoom(|m|, base, bMax, buf, n - done, cur);
    TransferFills(read, m, base, buf, s);
  }

  /** A chunk that spares its chain, and whose chain meets nothing read before, adds to what is right. */
  lemma ChunkRight(read: Reader, m: seq<Byte>, card: seq<Byte>, base: nat, bMax: nat, dst: nat, n: nat, done: nat)
    returns (m1: seq<Byte>)
    requires Reads(read) && Roomy(|m|, base, bMax, dst, n) && |card| == n * 512 && done < n
    requires ReadSpared(base, bMax, dst, n, done)
    requires forall a :: dst <= a < dst + done * 512 ==> m[a] == card[a - dst]
    ensures |m1| == |m|
    ensures Received(read, m, card, base, bMax, dst, n, done) ==
            Received(read, m1, card, base, bMax, dst, n, done + FirstChunk(n - done, bMax))
    ensures forall a :: dst <= a < dst + (done + FirstChunk(n - done, bMax)) * 512 ==> m1[a] == card[a - dst]
    ensures SameBut(m, m1, dst, dst + n * 512, base, ChainEnd(base, FirstChunk(n, bMax) * 512))
  {
    ChunkFills(read, m, card, base, bMax, dst, n, done);
    ChainShorter(base, FirstChunk(n - done, bMax) * 512, FirstChunk(n, bMax) * 512);
    m1 := Chunk(read, m, card, base, bMax, dst, n, done).1;
  }

  /** A read whose chunks are spared is right, and changes nothing but buffer and descriptors. */
  lemma {:induction false} ReceivedRight(read: Reader, m: seq<Byte>, card: seq<Byte>, base: nat, bMax: nat, dst: nat,
                                         n: nat, done: nat)
    requires Reads(read) && Roomy(|m|, base, bMax, dst, n) && |card| == n * 512 && done <= n
    requires ReadSpared(base, bMax, dst, n, done)
    requires forall a :: dst <= a < dst + done * 512 ==> m[a] == card[a - dst]
    ensures var r := Received(read, m, card, base, bMax, dst, n, done);
      && Right(r, card, dst, n)
      && SameBut(m, r.1, dst, dst + n * 512, base, ChainEnd(base, FirstChunk(n, bMax) * 512))
    decreases n - done
  {
    if done < n {
      var m1 := ChunkRight(read, m, card, base, bMax, dst, n, done);
      ReceivedRight(read, m1, card, base, bMax, dst, n, done + FirstChunk(n - done, bMax));
    }
  }

  /** Every chunk after `done` blocks spares its chain. */
  predicate AllSpared(base: nat, bMax: nat, dst: nat, n: nat, done: nat)
    requires bMax > 0
    decreases n - done
  {
    done >= n ||
    var cur := FirstChunk(n - done, bMax);
    Spared(base, dst + done * 512, cur * 512) && AllSpared(base, bMax, dst, n, done + cur)
  }

  /** Some chunk after `done` blocks puts its chain over address a, which is already read by then. */
  predicate Overwrites(base: nat, bMax: nat, dst: nat, n: nat, done: nat, a: nat)
    requires bMax > 0
    decreases n - done
  {
    done < n &&
    var cur := FirstChunk(n - done, bMax);
    || (a < dst + done * 512 && base <= a < ChainEnd(base, cur * 512))
    || Overwrites(base, bMax, dst, n, done + cur, a)
  }

  /** Where every chunk spares its chain but the read is not spared, the first byte it shares with the chains goes. */
  lemma {:induction false} NotSpared(base: nat, bMax: nat, dst: nat, n: nat, done: nat)
    requires bMax > 0 && AllSpared(base, bMax, dst, n, done) && !ReadSpared(base, bMax, dst, n, done)
    ensures Overwrites(base, bMax, dst, n, done, if base <= dst then dst else base)
    ensures base < dst + n * 512
    decreases n - done
  {
    var cur := FirstChunk(n - done, bMax);
    if Between(base, ChainEnd(base, cur * 512), dst, done) {
      NotSpared(base, bMax, dst, n, done + cur);
    }
  }

  lemma ReceivedNext(read: Reader, m: seq<Byte>, card: seq<Byte>, base: nat, bMax: nat, dst: nat, n: nat, done: nat)
    requires Roomy(|m|, base, bMax, dst, n) && |card| == n * 512 && done < n
    ensures var r := Chunk(read, m, card, base, bMax, dst, n, done);
      Received(read, m, card, base, bMax, dst, n, done) ==
        if r.0 then Received(read, r.1, card, base, bMax, dst, n, done + FirstChunk(n - done, bMax)) else r
  {
  }

  /** A byte already read, through one chunk. */
  lemma ChunkBlind(read: Reader, m: seq<Byte>, card: seq<Byte>, k: seq<Byte>, card1: seq<Byte>,
                   base: nat, bMax: nat, dst: nat, n: nat, done: nat, a: nat)
    requires Reads(read) && Roomy(|m|, base, bMax, dst, n) && |k| == |m| && |card| == |card1| == n * 512 && done < n
    requires Spared(base, dst + done * 512, FirstChunk(n - done, bMax) * 512) && a < |m| && a < dst + done * 512
    requires m[a] == k[a] || base <= a < ChainEnd(base, FirstChunk(n - done, bMax) * 512)
    ensures Chunk(read, m, card, base, bMax, dst, n, done).1[a] == Chunk(read, k, card1, base, bMax, dst, n, done).1[a]
  {
    ChunkFills(read, m, card, base, bMax, dst, n, done);
    ChunkFills(read, k, card1, base, bMax, dst, n, done);
    ChainedBlind(m, k, base, bMax, dst + done * 512, n - done, a);
  }

  /** Two reads whose next chunks are spared both go on. */
  lemma BothGoOn(read: Reader, m: seq<Byte>, card: seq<Byte>, k: seq<Byte>, card1: seq<Byte>,
                 base: nat, bMax: nat, dst: nat, n: nat, done: nat) returns (m1: seq<Byte>, k1: seq<Byte>)
    requires Reads(read) && Roomy(|m|, base, bMax, dst, n) && |k| == |m| && |card| == |card1| == n * 512 && done < n
    requires Spared(base, dst + done * 512, FirstChunk(n - done, bMax) * 512)
    ensures m1 == Chunk(read, m, card, base, bMax, dst, n, done).1 && |m1| == |m|
    ensures k1 == Chunk(read, k, card1, base, bMax, dst, n, done).1 && |k1| == |m|
    ensures Received(read, m, card, base, bMax, dst, n, done) ==
            Received(read, m1, card, base, bMax, dst, n, done + FirstChunk(n - done, bMax))
    ensures Received(read, k, card1, base, bMax, dst, n, done) ==
            Received(read, k1, card1, base, bMax, dst, n, done + FirstChunk(n - done, bMax))
  {
    ChunkFills(read, m, card, base, bMax, dst, n, done);
    ChunkFills(read, k, card1, base, bMax, dst, n, done);
    ReceivedNext(read, m, card, base, bMax, dst, n, done);
    ReceivedNext(read, k, card1, base, bMax, dst, n, done);
    m1, k1 := Chunk(read, m, card, base, bMax, dst, n, done).1, Chunk(read, k, card1, base, bMax, dst, n, done).1;
  }

  /** The same with a byte already read. */
  lemma BlindNext(read: Reader, m: seq<Byte>, card: seq<Byte>, k: seq<Byte>, card1: seq<Byte>,
                  base: nat, bMax: nat, dst: nat, n: nat, done: nat, a: nat) returns (m1: seq<Byte>, k1: seq<Byte>)
    requires Reads(read) && Roomy(|m|, base, bMax, dst, n) && |k| == |m| && |card| == |card1| == n * 512 && done < n
    requires AllSpared(base, bMax, dst, n, done) && a < |m| && a < dst + done * 512
    requires m[a] == k[a] || Overwrites(base, bMax, dst, n, done, a)
    ensures |m1| == |k1| == |m| && (m1[a] == k1[a] ||
                                    Overwrites(base, bMax, dst, n, done + FirstChunk(n - done, bMax), a))
    ensures Received(read, m, card, base, bMax, dst, n, done) ==
            Received(read, m1, card, base, bMax, dst, n, done + FirstChunk(n - done, bMax))
    ensures Received(read, k, card1, base, bMax, dst, n, done) ==
            Received(read, k1, card1, base, bMax, dst, n, done + FirstChunk(n - done, bMax))
  {
    m1, k1 := BothGoOn(read, m, card, k, card1, base, bMax, dst, n, done);
    if m[a] == k[a] || base <= a < ChainEnd(base, FirstChunk(n - done, bMax) * 512) {
      ChunkBlind(read, m, card, k, card1, base, bMax, dst, n, done, a);
    }
  }

  /** A byte already read is from then on the same whatever the card holds. */
  lemma {:induction false} ReadBlind(read: Reader, m: seq<Byte>, card: seq<Byte>, k: seq<Byte>, card1: seq<Byte>,
                                     base: nat, bMax: nat, dst: nat, n: nat, done: nat, a: nat)
    requires Reads(read) && Roomy(|m|, base, bMax, dst, n) && |k| == |m| && |card| == |card1| == n * 512 && done <= n
    requires AllSpared(base, bMax, dst, n, done) && a < |m| && a < dst + done * 512
    requires m[a] == k[a] || Overwrites(base, bMax, dst, n, done, a)
    ensures Received(read, m, card, base, bMax, dst, n, done).1[a] ==
            Received(read, k, card1, base, bMax, dst, n, done).1[a]
    decreases n - done
  {
    if done < n {
      var m1, k1 := BlindNext(read, m, card, k, card1, base, bMax, dst, n, done, a);
      ReadBlind(read, m1, card, k1, card1, base, bMax, dst, n, done + FirstChunk(n - done, bMax), a);
    }
  }

  /** So is a byte that is overwritten once it is read. */
  lemma {:induction false} ReadOverwritten(read: Reader, m: seq<Byte>, card: seq<Byte>, k: seq<Byte>, card1: seq<Byte>,
                                           base: nat, bMax: nat, dst: nat, n: nat, done: nat, a: nat)
    requires Reads(read) && Roomy(|m|, base, bMax, dst, n) && |k| == |m| && |card| == |card1| == n * 512 && done <= n
    requires AllSpared(base, bMax, dst, n, done) && a < |m| && Overwrites(base, bMax, dst, n, done, a)
    ensures Received(read, m, card, base, bMax, dst, n, done).1[a] ==
            Received(read, k, card1, base, bMax, dst, n, done).1[a]
    decreases n - done
  {
    if a < dst + done * 512 {
      ReadBlind(read, m, card, k, card1, base, bMax, dst, n, done, a);
    } else {
      var cur := FirstChunk(n - done, bMax);
      var m1, k1 := BothGoOn(read, m, card, k, card1, base, bMax, dst, n, done);
      ReadOverwritten(read, m1, card, k1, card1, base, bMax, dst, n, done + cur, a);
    }
  }

  /** The chains of chunks of at most 65535 blocks are at most 16384 bytes. */
  lemma ChainShort(base: nat, blocks: nat)
    requires blocks <= 65535
    ensures ChainEnd(base, blocks * 512) <= base + 16384
  {
  }

  /** A one beyond the chains outlives a chunk of ones. */
  lemma ChunkOnes(read: Reader, m: seq<Byte>, card: seq<Byte>, base: nat, bMax: nat, dst: nat, n: nat, done: nat,
                  x: nat)
    requires Roomy(|m|, base, bMax, dst, n) && |card| == n * 512 && done < n && bMax <= 65535
    requires (forall i :: done * 512 <= i < n * 512 ==> card[i] == 1) && base + 16384 <= x < |m| && m[x] == 1
    ensures Chunk(read, m, card, base, bMax, dst, n, done).1[x] == 1
  {
    var cur := FirstChunk(n - done, bMax);
    ChunkRoom(|m|, base, bMax, dst + done * 512, n - done, cur);
    ChainShort(base, cur);
    OnesStay(read, WithChain(m, base, dst + done * 512, cur * 512), base, card[done * 512..(done + cur) * 512], 0, x);
  }

  /** So does it any number of them. */
  lemma {:induction false} OnesKept(read: Reader, m: seq<Byte>, card: seq<Byte>, base: nat, bMax: nat, dst: nat,
                                    n: nat, done: nat, x: nat)
    requires Roomy(|m|, base, bMax, dst, n) && |card| == n * 512 && done <= n && bMax <= 65535
    requires (forall i :: done * 512 <= i < n * 512 ==> card[i] == 1) && base + 16384 <= x < |m| && m[x] == 1
    ensures Received(read, m, card, base, bMax, dst, n, done).1[x] == 1
    decreases n - done
  {
    if done < n {
      ChunkOnes(read, m, card, base, bMax, dst, n, done, x);
      ReceivedNext(read, m, card, base, bMax, dst, n, done);
      var r := Chunk(read, m, card, base, bMax, dst, n, done);
      OnesKept(read, r.1, card, base, bMax, dst, n, done + FirstChunk(n - done, bMax), x);
    }
  }

  /** Where the first chunk that does not spare its chain ends. */
  function UnsparedEnd(base: nat, bMax: nat, dst: nat, n: nat, done: nat): (end: nat)
    requires bMax > 0 && !AllSpared(base, bMax, dst, n, done)
    ensures done + FirstChunk(n - done, bMax) <= end <= n
    decreases n - done
  {
    var cur := FirstChunk(n - done, bMax);
    if Spared(base, dst + done * 512, cur * 512) then UnsparedEnd(base, bMax, dst, n, done + cur) else done + cur
  }

  /** Zeros up to a block, ones from there on. */
  predicate ZerosThenOnes(card: seq<Byte>, end: nat) {
    forall i :: 0 <= i < |card| ==> card[i] == if i < end * 512 then 0 else 1
  }

  /** Zeros at address 0, and ones in what is left of a buffer beyond the chains. */
  predicate Ready(m: seq<Byte>, base: nat, dst: nat, n: nat, done: nat) {
    && |m| >= 16 && m[0] == m[1] == m[2] == m[3] == 0
    && forall a :: dst + done * 512 <= a < dst + n * 512 && base + 16384 <= a < |m| ==> m[a] == 1
  }

  /** The chunk that does not spare its chain fails on zeros, or misses a byte beyond the chains. */
  lemma ChunkMisses(read: Reader, m: seq<Byte>, card: seq<Byte>, base: nat, bMax: nat, dst: nat, n: nat, done: nat)
    returns (x: nat)
    requires Reads(read) && Roomy(|m|, base, bMax, dst, n) && |card| == n * 512 && done < n && bMax <= 65535
    requires base % 4 == dst % 4 == 0 && Ready(m, base, dst, n, done)
    requires !Spared(base, dst + done * 512, FirstChunk(n - done, bMax) * 512)
    requires ZerosThenOnes(card, done + FirstChunk(n - done, bMax))
    ensures var r := Chunk(read, m, card, base, bMax, dst, n, done); r.0 ==>
      base + 16384 <= x && dst + done * 512 <= x < dst + (done + FirstChunk(n - done, bMax)) * 512 && r.1[x] == 1
  {
    var cur, buf := FirstChunk(n - done, bMax), dst + done * 512;
    var s := card[done * 512..(done + cur) * 512];
    ChunkRoom(|m|, base, bMax, buf, n - done, cur);
    StillAligned(dst, done);
    TransferMisses(read, m, base, buf, s);
    x := LastPart(buf, |s|);
  }

  /** A chunk that spares its chain leaves the memory as ready as it was. */
  lemma ReadyNext(read: Reader, m: seq<Byte>, card: seq<Byte>, base: nat, bMax: nat, dst: nat, n: nat, done: nat)
    requires Reads(read) && Roomy(|m|, base, bMax, dst, n) && |card| == n * 512 && done < n && bMax <= 65535
    requires base % 4 == 0 && Ready(m, base, dst, n, done)
    requires Spared(base, dst + done * 512, FirstChunk(n - done, bMax) * 512)
    requires forall i :: done * 512 <= i < (done + FirstChunk(n - done, bMax)) * 512 ==> card[i] == 0
    ensures var r := Chunk(read, m, card, base, bMax, dst, n, done);
      r.0 && Ready(r.1, base, dst, n, done + FirstChunk(n - done, bMax))
  {
    ChainShort(base, FirstChunk(n - done, bMax));
    ChunkFills(read, m, card, base, bMax, dst, n, done);
  }

  /** What is wrong with the rest of a read is wrong with the read. */
  lemma WrongNext(read: Reader, m: seq<Byte>, card: seq<Byte>, base: nat, bMax: nat, dst: nat, n: nat, done: nat,
                  x: nat)
    requires Roomy(|m|, base, bMax, dst, n) && |card| == n * 512 && done < n
    requires var r := Chunk(read, m, card, base, bMax, dst, n, done);
      r.0 ==> Wrong(Received(read, r.1, card, base, bMax, dst, n, done + FirstChunk(n - done, bMax)), card, dst, x)
    ensures Wrong(Received(read, m, card, base, bMax, dst, n, done), card, dst, x)
  {
    ReceivedNext(read, m, card, base, bMax, dst, n, done);
  }

  /** A byte missed by one chunk stays missed. */
  lemma MissKept(read: Reader, m: seq<Byte>, card: seq<Byte>, base: nat, bMax: nat, dst: nat, n: nat, done: nat, x: nat)
    requires Roomy(|m|, base, bMax, dst, n) && |card| == n * 512 && done < n && bMax <= 65535
    requires var r := Chunk(read, m, card, base, bMax, dst, n, done);
      r.0 ==> base + 16384 <= x < |m| && dst <= x < dst + |card| && card[x - dst] == 0 && r.1[x] == 1
    requires forall i :: (done + FirstChunk(n - done, bMax)) * 512 <= i < n * 512 ==> card[i] == 1
    ensures Wrong(Received(read, m, card, base, bMax, dst, n, done), card, dst, x)
  {
    var r := Chunk(read, m, card, base, bMax, dst, n, done);
    if r.0 {
      OnesKept(read, r.1, card, base, bMax, dst, n, done + FirstChunk(n - done, bMax), x);
    }
    WrongNext(read, m, card, base, bMax, dst, n, done, x);
  }

  /** A read whose next chunk does not spare its chain fails, or misses that byte. */
  lemma ReadMissesNow(read: Reader, m: seq<Byte>, card: seq<Byte>, base: nat, bMax: nat, dst: nat, n: nat, done: nat)
    returns (x: nat)
    requires Reads(read) && Roomy(|m|, base, bMax, dst, n) && |card| == n * 512 && done < n && bMax <= 65535
    requires base % 4 == dst % 4 == 0 && Ready(m, base, dst, n, done)
    requires !Spared(base, dst + done * 512, FirstChunk(n - done, bMax) * 512)
    requires ZerosThenOnes(card, done + FirstChunk(n - done, bMax))
    ensures Wrong(Received(read, m, card, base, bMax, dst, n, done), card, dst, x)
  {
    x := ChunkMisses(read, m, card, base, bMax, dst, n, done);
    MissKept(read, m, card, base, bMax, dst, n, done, x);
  }

  /** So does a read with such a chunk later on. */
  lemma {:induction false} ReadMisses(read: Reader, m: seq<Byte>, card: seq<Byte>, base: nat, bMax: nat, dst: nat,
                                      n: nat, done: nat) returns (x: nat)
    requires Reads(read) && Roomy(|m|, base, bMax, dst, n) && |card| == n * 512 && done <= n && bMax <= 65535
    requires base % 4 == dst % 4 == 0 && Ready(m, base, dst, n, done)
    requires !AllSpared(base, bMax, dst, n, done) && ZerosThenOnes(card, UnsparedEnd(base, bMax, dst, n, done))
    ensures Wrong(Received(read, m, card, base, bMax, dst, n, done), card, dst, x)
    decreases n - done
  {
    var cur := FirstChunk(n - done, bMax);
    if Spared(base, dst + done * 512, cur * 512) {
      ReadyNext(read, m, card, base, bMax, dst, n, done);
      x := ReadMisses(read, Chunk(read, m, card, base, bMax, dst, n, done).1, card, base, bMax, dst, n, done + cur);
      WrongNext(read, m, card, base, bMax, dst, n, done, x);
    } else {
      x := ReadMissesNow(read, m, card, base, bMax, dst, n, done);
    }
  }

  /**
   A read to a word-aligned buffer is right, whatever the memory and the card hold, exactly when
   its chunks are spared.
   */
  lemma ReadsExactly(read: Reader, len: nat, base: nat, bMax: nat, dst: nat, n: nat)
    requires Reads(read) && Roomy(len, base, bMax, dst, n) && base % 4 == dst % 4 == 0 && bMax <= 65535
    ensures (forall m: seq<Byte>, card: seq<Byte> | |m| == len && |card| == n * 512 ::
               Right(Received(read, m, card, base, bMax, dst, n, 0), card, dst, n)) <==>
            ReadSpared(base, bMax, dst, n, 0)
  {
    if ReadSpared(base, bMax, dst, n, 0) {
      forall m: seq<Byte>, card: seq<Byte> | |m| == len && |card| == n * 512
        ensures Right(Received(read, m, card, base, bMax, dst, n, 0), card, dst, n)
      {
        ReceivedRight(read, m, card, base, bMax, dst, n, 0);
      }
    } else if AllSpared(base, bMax, dst, n, 0) {
      OverwrittenFails(read, len, base, bMax, dst, n);
    } else {
      var end, m: seq<Byte> := UnsparedEnd(base, bMax, dst, n, 0), seq(len, a => if a < 4 then 0 else 1);
      var card: seq<Byte> := seq(n * 512, i => if i < end * 512 then 0 else 1);
      var x := ReadMisses(read, m, card, base, bMax, dst, n, 0);
      assert !Right(Received(read, m, card, base, bMax, dst, n, 0), card, dst, n);
    }
  }

  /** A byte that is overwritten once it is read cannot be right for two cards that differ there. */
  lemma OverwrittenFails(read: Reader, len: nat, base: nat, bMax: nat, dst: nat, n: nat)
    requires Reads(read) && Roomy(len, base, bMax, dst, n)
    requires AllSpared(base, bMax, dst, n, 0) && !ReadSpared(base, bMax, dst, n, 0)
    ensures exists m: seq<Byte>, card: seq<Byte> :: |m| == len && |card| == n * 512 &&
              !Right(Received(read, m, card, base, bMax, dst, n, 0), card, dst, n)
  {
    NotSpared(base, bMax, dst, n, 0);
    var a := if base <= dst then dst else base;
    var m: seq<Byte>, card: seq<Byte> := seq(len, i => 0), seq(n * 512, i => 0);
    var card1: seq<Byte> := card[a - dst := 1];
    ReadOverwritten(read, m, card, m, card1, base, bMax, dst, n, 0, a);
    if Right(Received(read, m, card, base, bMax, dst, n, 0), card, dst, n) {
      assert !Right(Received(read, m, card1, base, bMax, dst, n, 0), card1, dst, n);
    }
  }

  /** A chunk that zeroes its second descriptor fails. */
  lemma ChunkStops(read: Reader, m: seq<Byte>, card: seq<Byte>, base: nat, bMax: nat, dst: nat, n: nat, done: nat)
    requires Reads(read) && Roomy(|m|, base, bMax, dst, n) && |card| == n * 512 && done < n
    requires CutsChain(base, dst + done * 512, card[done * 512..(done + FirstChunk(n - done, bMax)) * 512])
    ensures !Received(read, m, card, base, bMax, dst, n, done).0
  {
    var buf, s := dst + done * 512, card[done * 512..(done + FirstChunk(n - done, bMax)) * 512];
    ChunkRoom(|m|, base, bMax, buf, n - done, FirstChunk(n - done, bMax));
    WithChainStands(read, m, base, buf, |s|);
    EngineStops(read, WithChain(m, base, buf, |s|), base, buf, s);
  }

  /** A read of 65 blocks of zeros onto the descriptors, where the code puts them, is one. */
  lemma ReadOverDescriptors(read: Reader, m: seq<Byte>, card: seq<Byte>)
    requires Reads(read) && Roomy(|m|, 0x4200_0000, 65535, 0x4200_0000, 65)
    requires |card| == 65 * 512 && forall i :: 0 <= i < |card| ==> card[i] == 0
    ensures !Received(read, m, card, 0x4200_0000, 65535, 0x4200_0000, 65, 0).0
  {
    ChunkStops(read, m, card, 0x4200_0000, 65535, 0x4200_0000, 65, 0);
  }

  /**
   A read of n blocks from block `first` of the card, as its loop finds it: memory, log, whether its
   chunks follow each other on the card, whether they are spared, the end of its longest chain, the
   outcome it is to have and the commands it is to take.
   */
  datatype Reading = Reading(first: nat, n: nat, dst: nat, was: seq<Byte>, logged: seq<Xfer>, fine: bool, spared: bool,
                             far: nat, goal: (bool, seq<Byte>), plan: seq<Xfer>)

  /** Likewise a write of n blocks at `start`; goal is what the blocks are to hold. */
  datatype Writing = Writing(start: nat, n: nat, src: nat, card: seq<Byte>, was: seq<Byte>, logged: seq<Xfer>,
                             fine: bool, far: nat, goal: seq<Byte>, plan: seq<Xfer>)

  class Disk {
    const highCapacity: bool
    const lba: Word
    const bMax: Word
    const flash: array<Byte>      // what the card holds
    const ram: array<Byte>        // the machine's memory
    const base: nat               // where the driver puts its descriptors
    const read: Reader            // how the controller reads a descriptor
    const fate: nat -> Outcome    // the outcome of every command, in order
    const eraseBuf: nat           // where mmc_berase prepares its zeros
    var pos: nat
    ghost var log: seq<Xfer>      // the data commands the card carried out

    ghost predicate Valid() {
      && 0 < bMax <= 65535 && 0 < base && ChainEnd(base, bMax * 512) <= ram.Length <= 0x1_0000_0000
      && flash.Length == lba * 512 && (!highCapacity ==> lba <= 0x80_0000)
      && flash != ram && Reads(read)
    }

    constructor (hc: bool, blocks: Word, limit: Word, card: array<Byte>, memory: array<Byte>, descriptors: nat,
                 reader: Reader, f: nat -> Outcome, zeros: nat)
      requires 0 < limit <= 65535 && 0 < descriptors &&
        ChainEnd(descriptors, limit * 512) <= memory.Length <= 0x1_0000_0000
      requires card.Length == blocks * 512 && (!hc ==> blocks <= 0x80_0000) && card != memory
      requires Reads(reader)
      ensures Valid() && highCapacity == hc && lba == blocks && bMax == limit && flash == card && ram == memory
      ensures log == [] && base == descriptors && read == reader && fate == f && eraseBuf == zeros
    {
      highCapacity, lba, bMax, flash, ram, base, fate := hc, blocks, limit, card, memory, descriptors, f;
      read, eraseBuf, pos, log := reader, zeros, 0, [];
    }

    /** No command fails. */
    ghost predicate Quiet() { forall i :: fate(i).Done? }

    /** The addresses in mmc_bsp.c:734 and mmc.c:164. */
    predicate SourceLayout() { eraseBuf == 0x4100_0000 && base == 0x4200_0000 }

    /** What n blocks of the card hold. */
    ghost function Blocks(first: nat, n: nat): (card: seq<Byte>)
      requires Valid() && first + n <= lba
      reads flash
      ensures |card| == n * 512
    {
      flash[first * 512..(first + n) * 512]
    }

    /**
     A read command and its data. The driver rejects a buffer that is not word-aligned, the
     card a range it does not have; any command may fail and leave its buffer scribbled on.
     What a command that does not fail leaves is the outcome of its transfer.
     */
    method ReadCommand(arg: Word, blocks: Word, dst: nat) returns (err: int)
      requires Valid() && 0 < blocks <= bMax && dst + blocks * 512 <= ram.Length
      modifies ram, `pos, `log
      ensures err == 0 ==> Selected(highCapacity, arg) + blocks <= lba
      ensures err == 0 ==> log == old(log) + [Xfer(false, Selected(highCapacity, arg), blocks)]
      ensures err != 0 ==> log == old(log)
      ensures Selected(highCapacity, arg) + blocks <= lba ==>
        Room(ram.Length, base, dst, blocks * 512) &&
          Moved(err == 0, old(ram[..]), Blocks(Selected(highCapacity, arg), blocks), dst)
      ensures Spared(base, dst, blocks * 512) ==>
        SameBut(old(ram[..]), ram[..], dst, dst + blocks * 512, base, ChainEnd(base, blocks * 512))
    {
      ChunkRoom(ram.Length, base, bMax, dst, blocks, blocks);
      if dst % 4 != 0 {
        return -1;
      }
      var outcome := fate(pos);
      pos := pos + 1;
      var from := Selected(highCapacity, arg);
      if outcome.Failed? || from + blocks > lba {
        BuildChain(ram, base, dst, blocks * 512);
        Scribble(ram, dst, blocks * 512, if outcome.Failed? then outcome.junk else k => 0);
        return -1;
      }
      var ok := TransferIn(read, ram, base, dst, flash[from * 512..(from + blocks) * 512]);
      if !ok {
        return -1;
      }
      log := log + [Xfer(false, from, blocks)];
      err := 0;
    }

    /** One command reading these blocks of the card into memory m: its success, and what it leaves. */
    ghost predicate Moved(ok: bool, m: seq<Byte>, card: seq<Byte>, dst: nat)
      requires Room(|m|, base, dst, |card|)
      reads this, ram
    {
      && (ok ==> (true, ram[..]) == Transferred(read, m, base, dst, card))
      && (Quiet() && dst % 4 == 0 ==> (ok <==> Transferred(read, m, base, dst, card).0))
    }

    /** A write command and its data; a failed one leaves anything in the blocks it selects. */
    method WriteCommand(arg: Word, blocks: Word, src: nat) returns (err: int)
      requires Valid() && 0 < blocks <= bMax && src + blocks * 512 <= ram.Length
      modifies flash, ram, `pos, `log
      ensures err == 0 ==> Selected(highCapacity, arg) + blocks <= lba && Room(ram.Length, base, src, blocks * 512)
      ensures Quiet() && src % 4 == 0 && Selected(highCapacity, arg) + blocks <= lba ==> err == 0
      ensures err == 0 ==>
        && ram[..] == WithChain(old(ram[..]), base, src, blocks * 512)
        && Copied(ram[..], src, flash[..], Selected(highCapacity, arg) * 512, blocks * 512)
        && log == old(log) + [Xfer(true, Selected(highCapacity, arg), blocks)]
      ensures err != 0 ==> log == old(log)
      ensures Selected(highCapacity, arg) + blocks > lba ==> flash[..] == old(flash[..])
      ensures var to := Selected(highCapacity, arg) * 512; SameOutside(old(flash[..]), flash[..], to, to + blocks * 512)
      ensures SameOutside(old(ram[..]), ram[..], base, ChainEnd(base, blocks * 512))
    {
      if src % 4 != 0 {
        return -1;
      }
      ChunkRoom(ram.Length, base, bMax, src, blocks, blocks);
      var outcome := fate(pos);
      pos := pos + 1;
      var to := Selected(highCapacity, arg);
      var stream := TransferOut(read, ram, base, src, blocks * 512);
      if to + blocks > lba {
        return -1;
      }
      if outcome.Failed? {
        Scribble(flash, to * 512, blocks * 512, outcome.junk);
        return -1;
      }
      StoredCopy(ram[..], src, flash[..], to * 512, blocks * 512);
      Store(flash, to * 512, stream);
      log := log + [Xfer(true, to, blocks)];
      err := 0;
    }

    /** CMD16. */
    method SetBlocklen() returns (err: int)
      modifies `pos
      ensures Quiet() ==> err == 0
    {
      err := if fate(pos).Failed? then -1 else 0;
      pos := pos + 1;
    }

    /** mmc_read_blocks: one chunk; the stop command after several blocks is done by the controller. */
    method ReadBlocks(dst: nat, start: Word, blkcnt: Word) returns (r: Word)
      requires Valid() && 0 < blkcnt <= bMax && dst + blkcnt * 512 <= ram.Length
      modifies ram, `pos, `log
      ensures r == 0 || r == blkcnt
      ensures r != 0 ==>
        BlockOf(highCapacity, start) + blkcnt <= lba &&
          log == old(log) + [Xfer(false, BlockOf(highCapacity, start), blkcnt)]
      ensures r == 0 ==> log == old(log)
      ensures BlockOf(highCapacity, start) + blkcnt <= lba ==>
        Room(ram.Length, base, dst, blkcnt * 512) &&
          Moved(r != 0, old(ram[..]), Blocks(BlockOf(highCapacity, start), blkcnt), dst)
      ensures Spared(base, dst, blkcnt * 512) ==>
        && (Quiet() && dst % 4 == 0 && BlockOf(highCapacity, start) + blkcnt <= lba ==> r == blkcnt)
        && (r != 0 ==> ram[dst..dst + blkcnt * 512] == Blocks(BlockOf(highCapacity, start), blkcnt))
        && SameBut(old(ram[..]), ram[..], dst, dst + blkcnt * 512, base, ChainEnd(base, blkcnt * 512))
    {
      ghost var m, first := ram[..], BlockOf(highCapacity, start);
      ArgumentSelects(highCapacity, start);
      var err := ReadCommand(Argument(highCapacity, start), blkcnt, dst);
      r := if err != 0 then 0 else blkcnt;
      if Spared(base, dst, blkcnt * 512) && first + blkcnt <= lba {
        TransferFills(read, m, base, dst, Blocks(first, blkcnt));
        FilledBySplice(WithChain(m, base, dst, blkcnt * 512), dst, Blocks(first, blkcnt));
      }
    }

    /** A request whose chunks follow each other on the card. */
    predicate Plain(start: Word, n: Word) { NoAlias(highCapacity, lba, start, n) || n <= bMax }

    /** The outcome of the chunks of a read of memory m after `done` blocks; nothing in particular off the card. */
    ghost function Rest(m: seq<Byte>, first: nat, dst: nat, n: nat, done: nat): (bool, seq<Byte>)
      requires Valid() && dst + n * 512 <= |m| == ram.Length && done <= n
      reads flash
    {
      if first + n <= lba then Received(read, m, Blocks(first, n), base, bMax, dst, n, done) else (false, m)
    }

    /** The chunk after `done` blocks, if it gets that far, starts at the next block of the card. */
    ghost predicate Follows(first: nat, start: Word, n: nat)
    {
      forall done: nat {:trigger Add(start, done)} :: done < n && (n <= bMax ==> done == 0) ==>
        (done > 0 ==> first + done <= lba) ==> BlockOf(highCapacity, Add(start, done)) == first + done
    }

    lemma PlainFollows(start: Word, n: Word)
      requires Valid() && Add(start, n) <= lba && Plain(start, n)
      ensures Follows(BlockOf(highCapacity, start), start, n)
    {
      var first := BlockOf(highCapacity, start);
      forall done: nat | done < n && (n <= bMax ==> done == 0) && (done > 0 ==> first + done <= lba)
        ensures BlockOf(highCapacity, Add(start, done)) == first + done
      {
        ReadAt(highCapacity, lba, bMax, start, n, done);
      }
    }

    lemma RestNext(m: seq<Byte>, first: nat, dst: nat, n: nat, done: nat, cur: nat, more: nat)
      requires Valid() && dst + n * 512 <= |m| == ram.Length && done < n && first + n <= lba
      requires cur == FirstChunk(n - done, bMax) && more == done + cur
      requires Room(|m|, base, dst + done * 512, cur * 512)
      ensures var r := Transferred(read, m, base, dst + done * 512, Blocks(first + done, cur));
        Rest(m, first, dst, n, done) == if r.0 then Rest(r.1, first, dst, n, more) else r
    {
      SliceOfSlice(flash[..], first * 512, (first + n) * 512, done * 512, (done + cur) * 512);
    }

    /** One command leaves the rest of the outcome to the next. */
    lemma RestMoved(ok: bool, m: seq<Byte>, first: nat, dst: nat, n: nat, done: nat, cur: nat, more: nat)
      requires Valid() && dst + n * 512 <= |m| == ram.Length && done < n && first + n <= lba
      requires cur == FirstChunk(n - done, bMax) && more == done + cur
      requires Room(|m|, base, dst + done * 512, cur * 512)
      requires Moved(ok, m, Blocks(first + done, cur), dst + done * 512)
      ensures ok ==> Rest(ram[..], first, dst, n, more) == Rest(m, first, dst, n, done)
      ensures Quiet() && (dst + done * 512) % 4 == 0 && Rest(m, first, dst, n, done).0 ==> ok
    {
      RestNext(m, first, dst, n, done, cur, more);
    }

    /** The loop of mmc_bread. */
    method ReadChunks(start: Word, blkcnt: Word, dst: nat, ghost q: Reading) returns (r: Word)
      requires Valid() && dst + blkcnt * 512 <= ram.Length && blkcnt > 0
      requires q.n == blkcnt && q.dst == dst && q.far == ChainEnd(base, FirstChunk(blkcnt, bMax) * 512)
      requires (q.fine ==> Follows(q.first, start, blkcnt)) && ReadSoFar(q, 0)
      modifies ram, `pos, `log
      ensures r == 0 || r == blkcnt
      ensures ReadDone(q, r != 0)
    {
      var todo: nat, at, to := blkcnt, start, dst;
      ghost var done: nat := 0;
      while todo > 0
        invariant done + todo == blkcnt && to == dst + done * 512 && at == Add(start, done)
        invariant blkcnt <= bMax ==> todo == blkcnt || todo == 0
        invariant ReadSoFar(q, done)
      {
        var cur: Word := if todo > bMax then bMax else todo;
        ghost var more := done + cur;
        var n := ReadNext(q, at, to, cur, done, more);
        if n != cur {
          return 0;
        }
        AddAdd(start, done, cur);
        todo, done := todo - cur, more;
        at := Add(at, cur);
        to := to + cur * 512;
      }
      r := blkcnt;
    }

    /** What one turn of the loop of mmc_bread keeps. */
    ghost predicate ReadSoFar(q: Reading, done: nat)
      requires Valid() && done <= q.n && q.dst + q.n * 512 <= ram.Length
      reads this, ram, flash
    {
      && (q.fine ==> Logging(false, q.first, q.n, q.logged, q.plan, done))
      && (q.fine && q.first + q.n <= lba ==> Rest(ram[..], q.first, q.dst, q.n, done) == q.goal)
      && (q.spared ==>
            && ReadSpared(base, bMax, q.dst, q.n, done)
            && SameBut(q.was, ram[..], q.dst, q.dst + q.n * 512, base, q.far))
    }

    /** What holds when a read stops before its end. */
    ghost predicate ReadStopped(q: Reading)
      requires Valid()
      reads this, ram
    {
      && (q.fine ==> q.logged <= log <= q.plan)
      && (q.fine && q.first + q.n <= lba && Quiet() && q.dst % 4 == 0 ==> !q.goal.0)
      && (q.spared ==> SameBut(q.was, ram[..], q.dst, q.dst + q.n * 512, base, q.far))
    }

    /** How a read ends, having come to its end or not. */
    ghost predicate ReadDone(q: Reading, ok: bool)
      requires Valid() && q.dst + q.n * 512 <= ram.Length
      reads this, ram, flash
    {
      if ok then ReadSoFar(q, q.n) else ReadStopped(q)
    }

    /** What a read of these blocks is measured against. */
    ghost function ReadOf(start: Word, n: Word, dst: nat, m: seq<Byte>, logged: seq<Xfer>): (q: Reading)
      requires Valid() && dst + n * 512 <= |m| == ram.Length
      reads flash
      ensures q.dst == dst && q.n == n && q.far == ChainEnd(base, FirstChunk(n, bMax) * 512)
    {
      var first := BlockOf(highCapacity, start);
      Reading(first, n, dst, m, logged, Plain(start, n), ReadSpared(base, bMax, dst, n, 0),
              ChainEnd(base, FirstChunk(n, bMax) * 512), Rest(m, first, dst, n, 0),
              logged + Chunks(false, first, n, bMax))
    }

    lemma ReadBegins(start: Word, n: Word, dst: nat)
      requires Valid() && dst + n * 512 <= ram.Length && n > 0 && Add(start, n) <= lba
      ensures var q := ReadOf(start, n, dst, ram[..], log);
        (q.fine ==> Follows(q.first, start, n)) && ReadSoFar(q, 0)
    {
      if Plain(start, n) {
        PlainFollows(start, n);
      }
    }

    /** One turn of the loop of mmc_bread, seen from the whole request. */
    method ReadNext(ghost q: Reading, at: Word, to: nat, cur: Word, ghost done: nat, ghost more: nat) returns (r: Word)
      requires Valid() && q.dst + q.n * 512 <= ram.Length && done < q.n
      requires cur == FirstChunk(q.n - done, bMax) && more == done + cur && to == q.dst + done * 512
      requires q.far == ChainEnd(base, FirstChunk(q.n, bMax) * 512)
      requires q.fine ==> (done > 0 ==> q.first + done <= lba) ==> BlockOf(highCapacity, at) == q.first + done
      requires ReadSoFar(q, done)
      modifies ram, `pos, `log
      ensures r == 0 || r == cur
      ensures if r != 0 then ReadSoFar(q, more) else ReadStopped(q)
    {
      StillAligned(q.dst, done);
      ghost var k := ram[..];
      ChainShorter(base, cur * 512, FirstChunk(q.n, bMax) * 512);
      r := ReadTurn(q.first, q.n, q.dst, q.fine, at, to, cur, done, more);
      if q.spared {
        SameButNext(q.was, k, ram[..], q.dst, q.dst + q.n * 512, to, to + cur * 512, base, q.far,
                    ChainEnd(base, cur * 512));
      }
    }

    /** How far a request has come: `done` blocks from the card's block first, by the commands of a plan. */
    ghost predicate Logging(write: bool, first: nat, n: nat, logged: seq<Xfer>, plan: seq<Xfer>, done: nat)
      requires bMax > 0 && done <= n
      reads `log
    {
      (done > 0 ==> first + done <= lba) && logged <= log && Planned(log, write, first, done, n, bMax) == plan
    }

    /** One turn of the loop of mmc_bread, whose chunk starts at the next block of the card. */
    method ReadTurn(ghost first: nat, ghost n: nat, ghost dst: nat, ghost fine: bool, at: Word, to: nat, cur: Word,
                    ghost done: nat, ghost more: nat) returns (r: Word)
      requires Valid() && dst + n * 512 <= ram.Length && done < n
      requires cur == FirstChunk(n - done, bMax) && more == done + cur && to == dst + done * 512
      requires fine ==> BlockOf(highCapacity, at) == first + done
      modifies ram, `pos, `log
      ensures r == 0 || r == cur
      ensures r != 0 ==> BlockOf(highCapacity, at) + cur <= lba
      ensures fine && first + n <= lba ==>
        var goal := Rest(old(ram[..]), first, dst, n, done);
        && (r != 0 ==> Rest(ram[..], first, dst, n, more) == goal)
        && (Quiet() && to % 4 == 0 && goal.0 ==> r != 0)
      ensures old(log) <= log && (r == 0 ==> log == old(log))
      ensures r != 0 && fine ==>
        Planned(log, false, first, more, n, bMax) == Planned(old(log), false, first, done, n, bMax)
      ensures Spared(base, to, cur * 512) ==>
        SameBut(old(ram[..]), ram[..], to, to + cur * 512, base, ChainEnd(base, cur * 512))
    {
      ghost var m := ram[..];
      PlannedNext(log, false, first, done, cur, more, n, bMax);
      r := ReadBlocks(to, at, cur);
      if fine && first + n <= lba {
        RestMoved(r != 0, m, first, dst, n, done, cur, more);
      }
    }

    /**
     What a read of n blocks at `start` promises where no address wraps around: a request inside
     the card succeeds exactly when the transfers of its chunks do, unless a command fails, and
     leaves their outcome; a buffer whose chunks are spared then holds the blocks, and nothing but
     it and the descriptors changes.
     */
    ghost predicate ReadMeets(start: nat, n: nat, dst: nat, ok: bool, m: seq<Byte>, logged: seq<Xfer>)
      requires Valid() && dst + n * 512 <= |m| == ram.Length
      reads this, ram, flash
    {
      && (ok && n > 0 ==> start + n <= lba && log == logged + Chunks(false, start, n, bMax))
      && (n > 0 && start + n <= lba ==>
            var goal := Rest(m, start, dst, n, 0);
            (ok ==> (true, ram[..]) == goal) && (Quiet() && dst % 4 == 0 ==> (ok <==> goal.0)))
      && (ReadSpared(base, bMax, dst, n, 0) ==>
            && (ok ==> forall i :: dst <= i < dst + n * 512 ==> ram[i] == flash[i - dst + start * 512])
            && (Quiet() && dst % 4 == 0 && start + n <= lba ==> ok)
            && SameBut(m, ram[..], dst, dst + n * 512, base, ChainEnd(base, FirstChunk(n, bMax) * 512)))
      && Within(logged, log, start, start + n)
    }

    lemma ReadInside(q: Reading, start: Word, n: Word, dst: nat, ok: bool, m: seq<Byte>, logged: seq<Xfer>)
      requires Valid() && dst + n * 512 <= |m| == ram.Length && n > 0 && Add(start, n) <= lba
      requires q == ReadOf(start, n, dst, m, logged) && ReadDone(q, ok) && start + n < 0x1_0000_0000
      ensures ReadMeets(start, n, dst, ok, m, logged)
    {
      StartsHere(highCapacity, lba, start, n);
      ReadContents(q, start, n, dst, ok, m, logged);
      ReadLog(q, start, n, dst, ok, m, logged);
    }

    /**
     mmc_bread. Where the check's addition does not alias, a request that passes succeeds exactly
     when the transfers of its chunks do, in order, unless a command fails; what it leaves is their
     outcome. A buffer whose chunks are spared then holds exactly the blocks asked for, and nothing
     but it and the descriptors changes.
     */
    method Bread(start: Word, blkcnt: Word, dst: nat) returns (r: Word)
      requires Valid() && dst + blkcnt * 512 <= ram.Length
      modifies ram, `pos, `log
      ensures r == 0 || r == blkcnt
      ensures r != 0 && Plain(start, blkcnt) ==> Passes(highCapacity, lba, start, blkcnt)
      ensures Plain(start, blkcnt) && Passes(highCapacity, lba, start, blkcnt) ==>
        var goal := Rest(old(ram[..]), BlockOf(highCapacity, start), dst, blkcnt, 0);
        (r != 0 ==> (true, ram[..]) == goal) && (Quiet() && dst % 4 == 0 ==> (r != 0 <==> goal.0))
      ensures Plain(start, blkcnt) && ReadSpared(base, bMax, dst, blkcnt, 0) ==>
        && (Quiet() && dst % 4 == 0 && Passes(highCapacity, lba, start, blkcnt) ==> r == blkcnt)
        && (r != 0 ==> Copied(flash[..], BlockOf(highCapacity, start) * 512, ram[..], dst, blkcnt * 512))
      ensures r != 0 && NoAlias(highCapacity, lba, start, blkcnt) ==>
        start + blkcnt <= lba && log == old(log) + Chunks(false, start, blkcnt, bMax)
      ensures r != 0 && NoAlias(highCapacity, lba, start, blkcnt) && ReadSpared(base, bMax, dst, blkcnt, 0) ==>
        forall i :: dst <= i < dst + blkcnt * 512 ==> ram[i] == flash[i - dst + start * 512]
      ensures ReadSpared(base, bMax, dst, blkcnt, 0) ==>
        SameBut(old(ram[..]), ram[..], dst, dst + blkcnt * 512, base, ChainEnd(base, FirstChunk(blkcnt, bMax) * 512))
      ensures start + blkcnt < 0x1_0000_0000 ==>
        ReadMeets(start, blkcnt, dst, r == blkcnt, old(ram[..]), old(log))
    {
      if blkcnt == 0 {
        return 0;
      }
      if Add(start, blkcnt) > lba {
        return 0;
      }
      var err := SetBlocklen();
      if err != 0 {
        return 0;
      }
      ghost var m, logged := ram[..], log;
      ghost var q := ReadOf(start, blkcnt, dst, m, logged);
      ReadBegins(start, blkcnt, dst);
      r := ReadChunks(start, blkcnt, dst, q);
      if Plain(start, blkcnt) {
        ReadContents(q, start, blkcnt, dst, r != 0, m, logged);
      }
      ReadLog(q, start, blkcnt, dst, r != 0, m, logged);
      if start + blkcnt < 0x1_0000_0000 {
        ReadInside(q, start, blkcnt, dst, r != 0, m, logged);
      }
    }

    /** What a read that has ended leaves in the memory, where its chunks follow each other on the card. */
    lemma ReadContents(q: Reading, start: Word, n: Word, dst: nat, ok: bool, m: seq<Byte>, logged: seq<Xfer>)
      requires Valid() && dst + n * 512 <= |m| == ram.Length && n > 0 && Add(start, n) <= lba
      requires q == ReadOf(start, n, dst, m, logged) && ReadDone(q, ok)
      requires Plain(start, n)
      ensures ok ==> Passes(highCapacity, lba, start, n)
      ensures var goal := Rest(m, BlockOf(highCapacity, start), dst, n, 0);
        (ok ==> (true, ram[..]) == goal) && (Quiet() && dst % 4 == 0 ==> (ok <==> goal.0))
      ensures ReadSpared(base, bMax, dst, n, 0) ==>
        && (Quiet() && dst % 4 == 0 && Passes(highCapacity, lba, start, n) ==> ok)
        && (ok ==> Copied(flash[..], BlockOf(highCapacity, start) * 512, ram[..], dst, n * 512))
    {
      if BlockOf(highCapacity, start) + n <= lba && ReadSpared(base, bMax, dst, n, 0) {
        RestRight(m, BlockOf(highCapacity, start), dst, n);
      }
    }

    /** The commands of a read that has ended. */
    lemma ReadLog(q: Reading, start: Word, n: Word, dst: nat, ok: bool, m: seq<Byte>, logged: seq<Xfer>)
      requires Valid() && dst + n * 512 <= |m| == ram.Length && n > 0 && Add(start, n) <= lba
      requires q == ReadOf(start, n, dst, m, logged) && ReadDone(q, ok)
      ensures ok && NoAlias(highCapacity, lba, start, n) ==>
        BlockOf(highCapacity, start) == start && start + n <= lba && log == logged + Chunks(false, start, n, bMax)
      ensures start + n < 0x1_0000_0000 ==> Within(logged, log, start, start + n)
    {
      if ok && NoAlias(highCapacity, lba, start, n) {
        WholeRequest(highCapacity, lba, start, n);
      }
      if start + n < 0x1_0000_0000 {
        StartsHere(highCapacity, lba, start, n);
        PlanWithin(logged, log, false, start, n, bMax);
      }
    }

    /** The outcome of a read whose chunks are spared. */
    lemma RestRight(m: seq<Byte>, first: nat, dst: nat, n: nat)
      requires Valid() && dst + n * 512 <= |m| == ram.Length && first + n <= lba
      requires ReadSpared(base, bMax, dst, n, 0)
      ensures var r := Rest(m, first, dst, n, 0); r.0 && Copied(flash[..], first * 512, r.1, dst, n * 512)
    {
      ReceivedRight(read, m, Blocks(first, n), base, bMax, dst, n, 0);
    }

    /** mmc_write_blocks: one chunk, checked against the end of the card. */
    method WriteBlocks(start: Word, blkcnt: Word, src: nat) returns (r: Word)
      requires Valid() && 0 < blkcnt <= bMax && src + blkcnt * 512 <= ram.Length
      modifies flash, ram, `pos, `log
      ensures r == 0 || r == blkcnt
      ensures r != 0 ==>
        && Fits(highCapacity, lba, start, blkcnt) && Room(ram.Length, base, src, blkcnt * 512)
        && ram[..] == WithChain(old(ram[..]), base, src, blkcnt * 512)
        && Copied(ram[..], src, flash[..], BlockOf(highCapacity, start) * 512, blkcnt * 512)
        && log == old(log) + [Xfer(true, BlockOf(highCapacity, start), blkcnt)]
      ensures r == 0 ==> log == old(log)
      ensures !Fits(highCapacity, lba, start, blkcnt) ==> flash[..] == old(flash[..])
      ensures var to := BlockOf(highCapacity, start) * 512;
        SameOutside(old(flash[..]), flash[..], to, to + blkcnt * 512)
      ensures SameOutside(old(ram[..]), ram[..], base, ChainEnd(base, blkcnt * 512))
      ensures Quiet() && src % 4 == 0 && Fits(highCapacity, lba, start, blkcnt) ==> r == blkcnt
    {
      if Add(start, blkcnt) > lba {
        return 0;
      }
      ArgumentSelects(highCapacity, start);
      var err := WriteCommand(Argument(highCapacity, start), blkcnt, src);
      r := if err != 0 then 0 else blkcnt;
    }

    /**
     mmc_bwrite. On success the blocks asked for hold what the chunk commands sent in order,
     which is the buffer where it is clear of the descriptors; on any outcome no other block
     changes, and no memory but the descriptors. The card's part holds where the chunk's check
     does not alias.
     */
    method Bwrite(start: Word, blkcnt: Word, src: nat) returns (r: Word)
      requires Valid() && src + blkcnt * 512 <= ram.Length
      modifies flash, ram, `pos, `log
      ensures r == 0 || r == blkcnt
      ensures Quiet() && src % 4 == 0 && start + blkcnt <= lba ==> r == blkcnt
      ensures r != 0 && NoAlias(highCapacity, lba, start, blkcnt) ==>
        && start + blkcnt <= lba
        && flash[start * 512..(start + blkcnt) * 512] == Sends(old(ram[..]), base, bMax, src, blkcnt)
        && log == old(log) + Chunks(true, start, blkcnt, bMax)
      ensures r != 0 && NoAlias(highCapacity, lba, start, blkcnt) && Clear(base, bMax, src, blkcnt) ==>
        forall i :: start * 512 <= i < (start + blkcnt) * 512 ==> flash[i] == old(ram[i - start * 512 + src])
      ensures NoAlias(highCapacity, lba, start, blkcnt) ==>
        forall i :: 0 <= i < flash.Length && !(start * 512 <= i < (start + blkcnt) * 512) ==> flash[i] == old(flash[i])
      ensures NoAlias(highCapacity, lba, start, blkcnt) ==> Within(old(log), log, start, start + blkcnt)
      ensures SameOutside(old(ram[..]), ram[..], base, ChainEnd(base, FirstChunk(blkcnt, bMax) * 512))
    {
      if blkcnt == 0 {
        return 0;
      }
      var err := SetBlocklen();
      if err != 0 {
        return 0;
      }
      ghost var m, logged, q := ram[..], log, WriteOf(start, blkcnt, src);
      WriteBegins(start, blkcnt, src);
      RequestLands(start, blkcnt);
      r := WriteChunks(start, blkcnt, src, q);
      if q.fine {
        PlanWithin(logged, log, true, start, blkcnt, bMax);
      }
      if r != 0 && q.fine && Clear(base, bMax, src, blkcnt) {
        WrittenClear(start, blkcnt, m, src);
      }
    }

    /** What a write of these blocks is measured against. */
    ghost function WriteOf(start: Word, n: Word, src: nat): (q: Writing)
      requires Valid() && src + n * 512 <= ram.Length
      reads this, ram, flash
      ensures q.start == start && q.n == n && q.src == src && q.fine == NoAlias(highCapacity, lba, start, n)
      ensures q.far == ChainEnd(base, FirstChunk(n, bMax) * 512)
    {
      Writing(start, n, src, flash[..], ram[..], log, NoAlias(highCapacity, lba, start, n),
              ChainEnd(base, FirstChunk(n, bMax) * 512), Sends(ram[..], base, bMax, src, n),
              log + Chunks(true, start, n, bMax))
    }

    lemma WriteBegins(start: Word, n: Word, src: nat)
      requires Valid() && src + n * 512 <= ram.Length && n > 0
      ensures WriteSoFar(WriteOf(start, n, src), 0)
    {
      var all := Sends(ram[..], base, bMax, src, n);
      assert Written(flash[..], start, 0) + all == all;
    }

    /** What the blocks hold when a clear buffer was sent. */
    lemma WrittenClear(start: nat, n: nat, m: seq<Byte>, src: nat)
      requires Valid() && src + n * 512 <= |m| == ram.Length && start + n <= lba && Clear(base, bMax, src, n)
      requires flash[start * 512..(start + n) * 512] == Sends(m, base, bMax, src, n)
      ensures forall i :: start * 512 <= i < (start + n) * 512 ==> flash[i] == m[i - start * 512 + src]
    {
      SentClear(m, base, bMax, src, n);
      SendsDelivered(m, base, bMax, src, n);
      SliceAt(flash[..], start * 512, (start + n) * 512, m, src);
    }

    /** The chunk after `done` blocks, if it gets that far, goes to the next block of the request, or does not fit. */
    ghost predicate Lands(start: Word, n: Word, fine: bool) {
      forall done: nat {:trigger Add(start, done)} :: done < n && (fine && done > 0 ==> start + done <= lba) ==>
        var at, cur := Add(start, done), FirstChunk(n - done, bMax);
        && (start + n <= lba ==> Fits(highCapacity, lba, at, cur))
        && (fine && Fits(highCapacity, lba, at, cur) ==> BlockOf(highCapacity, at) == start + done)
    }

    lemma RequestLands(start: Word, n: Word)
      requires Valid()
      ensures Lands(start, n, NoAlias(highCapacity, lba, start, n))
    {
      var fine := NoAlias(highCapacity, lba, start, n);
      forall done: nat | done < n && (fine && done > 0 ==> start + done <= lba)
        ensures var at, cur := Add(start, done), FirstChunk(n - done, bMax);
          && (start + n <= lba ==> Fits(highCapacity, lba, at, cur))
          && (fine && Fits(highCapacity, lba, at, cur) ==> BlockOf(highCapacity, at) == start + done)
      {
        WriteAt(highCapacity, lba, start, n, done, FirstChunk(n - done, bMax));
      }
    }

    /** The loop of mmc_bwrite. */
    method WriteChunks(start: Word, blkcnt: Word, src: nat, ghost q: Writing) returns (r: Word)
      requires Valid() && src + blkcnt * 512 <= ram.Length && blkcnt > 0
      requires q.start == start && q.n == blkcnt && q.src == src && Lands(start, blkcnt, q.fine)
      requires q.far == ChainEnd(base, FirstChunk(blkcnt, bMax) * 512) && WriteSoFar(q, 0)
      modifies flash, ram, `pos, `log
      ensures r == 0 || r == blkcnt
      ensures Quiet() && src % 4 == 0 && start + blkcnt <= lba ==> r == blkcnt
      ensures r != 0 && q.fine ==>
        start + blkcnt <= lba && flash[start * 512..(start + blkcnt) * 512] == q.goal && log == q.plan
      ensures WriteStopped(q)
    {
      var todo: nat, at, from := blkcnt, start, src;
      ghost var done: nat := 0;
      while todo > 0
        invariant done + todo == blkcnt && from == src + done * 512 && at == Add(start, done)
        invariant WriteSoFar(q, done)
      {
        var cur: Word := if todo > bMax then bMax else todo;
        ghost var more := done + cur;
        var n := WriteNext(q, at, from, cur, done, more);
        if n != cur {
          return 0;
        }
        AddAdd(start, done, cur);
        todo, done := todo - cur, more;
        at := Add(at, cur);
        from := from + cur * 512;
      }
      WriteEnds(q);
      r := blkcnt;
    }

    /** What one turn of the loop of mmc_bwrite keeps. */
    ghost predicate WriteSoFar(q: Writing, done: nat)
      requires Valid() && q.src + q.n * 512 <= ram.Length && done <= q.n
      reads this, ram, flash
    {
      && (q.fine ==>
            && Logging(true, q.start, q.n, q.logged, q.plan, done)
            && Upcoming(flash[..], ram[..], base, bMax, q.start, q.src, q.n, done) == q.goal
            && SameOutside(q.card, flash[..], q.start * 512, (q.start + q.n) * 512))
      && SameOutside(q.was, ram[..], base, q.far)
    }

    lemma WriteEnds(q: Writing)
      requires Valid() && q.src + q.n * 512 <= ram.Length && q.n > 0 && WriteSoFar(q, q.n)
      ensures q.fine ==>
        q.start + q.n <= lba && flash[q.start * 512..(q.start + q.n) * 512] == q.goal && log == q.plan
      ensures WriteStopped(q)
    {
      if q.fine {
        var all := Written(flash[..], q.start, q.n);
        assert all + Sends(ram[..], base, bMax, q.src + q.n * 512, q.n - q.n) == all;
      }
    }

    /** What holds when a write stops, wherever it stops. */
    ghost predicate WriteStopped(q: Writing)
      requires Valid()
      reads this, ram, flash
    {
      && (q.fine ==> q.logged <= log <= q.plan)
      && (q.fine ==> SameOutside(q.card, flash[..], q.start * 512, (q.start + q.n) * 512))
      && SameOutside(q.was, ram[..], base, q.far)
    }

    /** One turn of the loop of mmc_bwrite, seen from the whole request. */
    method WriteNext(ghost q: Writing, at: Word, from: nat, cur: Word, ghost done: nat, ghost more: nat)
      returns (r: Word)
      requires Valid() && q.src + q.n * 512 <= ram.Length && done < q.n && more == done + cur
      requires cur == FirstChunk(q.n - done, bMax) && from == q.src + done * 512
      requires q.fine && Fits(highCapacity, lba, at, cur) ==> BlockOf(highCapacity, at) == q.start + done
      requires q.far == ChainEnd(base, FirstChunk(q.n, bMax) * 512) && WriteSoFar(q, done)
      modifies flash, ram, `pos, `log
      ensures r == 0 || r == cur
      ensures Quiet() && q.src % 4 == 0 && Fits(highCapacity, lba, at, cur) ==> r == cur
      ensures if r != 0 then WriteSoFar(q, more) else WriteStopped(q)
    {
      StillAligned(q.src, done);
      ghost var was, k := flash[..], ram[..];
      ChainShorter(base, cur * 512, FirstChunk(q.n, bMax) * 512);
      r := WriteTurn(q.start, q.n, q.src, q.fine, at, from, cur, done, more);
      SameOutsideNext(q.was, k, ram[..], base, q.far, base, ChainEnd(base, cur * 512));
      if q.fine {
        SameOutsideNext(q.card, was, flash[..], q.start * 512, (q.start + q.n) * 512, (q.start + done) * 512,
                        (q.start + more) * 512);
      }
    }

    /** One turn of the loop of mmc_bwrite; a fitting chunk goes to the next block of the request. */
    method WriteTurn(ghost start: nat, ghost n: nat, ghost src: nat, ghost fine: bool, at: Word, from: nat, cur: Word,
                     ghost done: nat, ghost more: nat) returns (r: Word)
      requires Valid() && done < n && cur == FirstChunk(n - done, bMax) && more == done + cur
      requires src + n * 512 <= ram.Length && from == src + done * 512
      requires fine && Fits(highCapacity, lba, at, cur) ==> BlockOf(highCapacity, at) == start + done
      modifies flash, ram, `pos, `log
      ensures r == 0 || r == cur
      ensures r != 0 ==> Fits(highCapacity, lba, at, cur)
      ensures Quiet() && from % 4 == 0 && Fits(highCapacity, lba, at, cur) ==> r == cur
      ensures r != 0 && fine ==>
        && start + more <= lba
        && Upcoming(flash[..], ram[..], base, bMax, start, src, n, more) ==
           Upcoming(old(flash[..]), old(ram[..]), base, bMax, start, src, n, done)
      ensures old(log) <= log && (r == 0 ==> log == old(log))
      ensures r != 0 && fine ==>
        Planned(log, true, start, more, n, bMax) == Planned(old(log), true, start, done, n, bMax)
      ensures fine ==> SameOutside(old(flash[..]), flash[..], (start + done) * 512, (start + more) * 512)
      ensures SameOutside(old(ram[..]), ram[..], base, ChainEnd(base, cur * 512))
    {
      ghost var was, k := flash[..], ram[..];
      PlannedNext(log, true, start, done, cur, more, n, bMax);
      r := WriteChunk(start + done, at, from, n - done, cur, fine);
      if fine && r != 0 {
        UpcomingNext(was, flash[..], k, ram[..], base, bMax, start, src, n, done, more);
      }
    }

    /** The chunk of one turn: when it fits it goes to the block `to`. */
    method WriteChunk(ghost to: nat, at: Word, from: nat, ghost todo: nat, cur: Word, ghost fine: bool)
      returns (r: Word)
      requires Valid() && todo > 0 && cur == FirstChunk(todo, bMax) && from + todo * 512 <= ram.Length
      requires fine && Fits(highCapacity, lba, at, cur) ==> BlockOf(highCapacity, at) == to
      modifies flash, ram, `pos, `log
      ensures r == 0 || r == cur
      ensures r != 0 ==> Fits(highCapacity, lba, at, cur) && ram[..] == Chained(old(ram[..]), base, bMax, from, todo)
      ensures Quiet() && from % 4 == 0 && Fits(highCapacity, lba, at, cur) ==> r == cur
      ensures r != 0 && fine ==>
        to + cur <= lba && Copied(ram[..], from, flash[..], to * 512, cur * 512) &&
        log == old(log) + [Xfer(true, to, cur)]
      ensures fine ==> SameOutside(old(flash[..]), flash[..], to * 512, (to + cur) * 512)
      ensures old(log) <= log && (r == 0 ==> log == old(log))
      ensures SameOutside(old(ram[..]), ram[..], base, ChainEnd(base, cur * 512))
    {
      ghost var was := flash[..];
      r := WriteBlocks(at, cur, from);
      assert fine && !Fits(highCapacity, lba, at, cur) ==> flash[..] == was;
    }

    /**
     mmc_berase: write zeros, prepared by memset in a fixed buffer. With a buffer some blocks
     below the descriptors, the blocks are zero after success exactly when it ends there; at the
     addresses of the code, exactly up to 0x8000 blocks.
     */
    method Berase(start: Word, blkcnt: Word) returns (r: Word)
      requires Valid() && eraseBuf + blkcnt * 512 <= ram.Length
      modifies flash, ram, `pos, `log
      ensures r == 0 || r == blkcnt
      ensures Quiet() && eraseBuf % 4 == 0 && start + blkcnt <= lba ==> r == blkcnt
      ensures r != 0 && NoAlias(highCapacity, lba, start, blkcnt) ==> start + blkcnt <= lba
      ensures r != 0 && NoAlias(highCapacity, lba, start, blkcnt) && eraseBuf <= base ==>
        (base - eraseBuf) % 512 == 0 ==>
        (AllZero(flash[..], start * 512, (start + blkcnt) * 512) <==> eraseBuf + blkcnt * 512 <= base)
      ensures r != 0 && NoAlias(highCapacity, lba, start, blkcnt) && SourceLayout() ==>
        (AllZero(flash[..], start * 512, (start + blkcnt) * 512) <==> blkcnt <= 0x8000)
      ensures NoAlias(highCapacity, lba, start, blkcnt) ==>
        forall i :: 0 <= i < flash.Length && !(start * 512 <= i < (start + blkcnt) * 512) ==> flash[i] == old(flash[i])
      ensures NoAlias(highCapacity, lba, start, blkcnt) ==> Within(old(log), log, start, start + blkcnt)
    {
      Mem.Memset(ram, eraseBuf, 0, blkcnt * 512);
      ghost var zeroed := ram[..];
      r := Bwrite(start, blkcnt, eraseBuf);
      if r != 0 && NoAlias(highCapacity, lba, start, blkcnt) && eraseBuf <= base && (base - eraseBuf) % 512 == 0 {
        ZerosSent(zeroed, base, bMax, eraseBuf, blkcnt);
        StoredZeros(flash[..], start, zeroed, base, bMax, eraseBuf, blkcnt);
      }
    }

    /** mmc_bwrite, then mmc_bread of the same blocks: the bytes written come back. */
    method WriteThenRead(start: Word, blkcnt: Word, src: nat, dst: nat) returns (written: Word, r: Word)
      requires Valid() && src + blkcnt * 512 <= ram.Length && dst + blkcnt * 512 <= ram.Length
      modifies flash, ram, `pos, `log
      ensures written != 0 && r != 0 && NoAlias(highCapacity, lba, start, blkcnt) &&
              ReadSpared(base, bMax, dst, blkcnt, 0) && Clear(base, bMax, src, blkcnt) ==>
        ram[dst..dst + blkcnt * 512] == old(ram[src..src + blkcnt * 512])
      ensures Quiet() && src % 4 == dst % 4 == 0 && 0 < blkcnt && start + blkcnt <= lba ==>
        ReadSpared(base, bMax, dst, blkcnt, 0) ==>
        written == r == blkcnt
    {
      written := Bwrite(start, blkcnt, src);
      r := Bread(start, blkcnt, dst);
      if written != 0 && r != 0 && NoAlias(highCapacity, lba, start, blkcnt) &&
         ReadSpared(base, bMax, dst, blkcnt, 0) && Clear(base, bMax, src, blkcnt) {
        ReadBack(flash[..], old(ram[..]), ram[..], start, blkcnt, src, dst);
      }
    }

    /** mmc_berase, then mmc_bread of the same blocks: zeros come back, up to 0x8000 blocks. */
    method EraseThenRead(start: Word, blkcnt: Word, dst: nat) returns (erased: Word, r: Word)
      requires Valid() && eraseBuf + blkcnt * 512 <= ram.Length && dst + blkcnt * 512 <= ram.Length
      modifies flash, ram, `pos, `log
      ensures erased != 0 && r != 0 && NoAlias(highCapacity, lba, start, blkcnt) && SourceLayout() ==>
        ReadSpared(base, bMax, dst, blkcnt, 0) ==>
        (AllZero(ram[..], dst, dst + blkcnt * 512) <==> blkcnt <= 0x8000)
    {
      erased := Berase(start, blkcnt);
      r := Bread(start, blkcnt, dst);
      if erased != 0 && r != 0 && NoAlias(highCapacity, lba, start, blkcnt) && SourceLayout() &&
        ReadSpared(base, bMax, dst, blkcnt, 0) {
        ZerosBack(flash[..], ram[..], start, blkcnt, dst);
      }
    }
  }

  /** What a failed command leaves. */
  method Scribble(a: array<Byte>, at: nat, n: nat, junk: nat -> Byte)
    requires at + n <= a.Length
    modifies a
    ensures SameOutside(old(a[..]), a[..], at, at + n)
  {
    forall i | at <= i < at + n {
      a[i] := junk(i);
    }
  }

  /** Blocks that are read back are zero exactly when the card's are. */
  lemma ZerosBack(card: seq<Byte>, m: seq<Byte>, start: nat, n: nat, dst: nat)
    requires (start + n) * 512 <= |card| && dst + n * 512 <= |m|
    requires forall i :: dst <= i < dst + n * 512 ==> m[i] == card[i - dst + start * 512]
    ensures AllZero(m, dst, dst + n * 512) <==> AllZero(card, start * 512, (start + n) * 512)
  {
    if AllZero(m, dst, dst + n * 512) {
      forall i | start * 512 <= i < (start + n) * 512
        ensures card[i] == 0
      {
        assert m[i - start * 512 + dst] == card[i - start * 512 + dst - dst + start * 512];
      }
    }
  }

  /** The blocks hold the buffer given, and are read back: the buffers hold the same. */
  lemma ReadBack(card: seq<Byte>, given: seq<Byte>, m: seq<Byte>, start: nat, n: nat, src: nat, dst: nat)
    requires (start + n) * 512 <= |card| && src + n * 512 <= |given| && dst + n * 512 <= |m|
    requires forall i :: start * 512 <= i < (start + n) * 512 ==> card[i] == given[i - start * 512 + src]
    requires forall i :: dst <= i < dst + n * 512 ==> m[i] == card[i - dst + start * 512]
    ensures m[dst..dst + n * 512] == given[src..src + n * 512]
  {
    var r, w := m[dst..dst + n * 512], given[src..src + n * 512];
    forall k | 0 <= k < n * 512
      ensures r[k] == w[k]
    {
      assert m[dst + k] == card[dst + k - dst + start * 512];
      assert card[k + start * 512] == given[k + start * 512 - start * 512 + src];
    }
  }
}
