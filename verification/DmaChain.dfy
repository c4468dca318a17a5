/**
 Moving a data block between memory and the card controller (boot1/driver/drv_sd/mmc_bsp.c:424-508):
 a chain of DMA descriptors, or the CPU through the FIFO. The descriptors lie in the same memory
 as the data (boot1/driver/drv_sd/mmc_bsp.c:734).
 */
module DmaChain {
  import opened Bits
  import opened Mem

  /** Memory with the bytes s from address at on. */
  function Splice(m: seq<Byte>, at: nat, s: seq<Byte>): (r: seq<Byte>)
    requires at + |s| <= |m|
    ensures |r| == |m|
    ensures forall i :: 0 <= i < |m| ==> r[i] == if at <= i < at + |s| then s[i - at] else m[i]
  {
    seq(|m|, i requires 0 <= i < |m| => if at <= i < at + |s| then s[i - at] else m[i])
  }

  /** Two pieces side by side are one piece. */
  lemma SpliceJoin(m: seq<Byte>, at: nat, s: seq<Byte>, t: seq<Byte>)
    requires at + |s| + |t| <= |m|
    ensures Splice(Splice(m, at, s), at + |s|, t) == Splice(m, at, s + t)
  {
  }

  lemma SpliceNext(m: seq<Byte>, at: nat, s: seq<Byte>, done: nat, size: nat)
    requires at + |s| <= |m| && done + size <= |s|
    ensures Splice(Splice(m, at, s[..done]), at + done, s[done..done + size]) == Splice(m, at, s[..done + size])
  {
    assert s[..done] + s[done..done + size] == s[..done + size];
    SpliceJoin(m, at, s[..done], s[done..done + size]);
  }

  // ---------- descriptors ----------

  /** One descriptor: flags, buffer size and address, and the address of the next one. */
  datatype Des = Des(dic: bool, lastDes: bool, firstDes: bool, desChain: bool, endOfRing: bool, own: bool,
                     size1: Word, ptr1: Word, ptr2: Word)

  function Flag(b: bool, weight: Word): Word { if b then weight else 0 }

  /** The flag word of a descriptor. */
  function Flags(d: Des): Word {
    Flag(d.dic, 2) + Flag(d.lastDes, 4) + Flag(d.firstDes, 8) + Flag(d.desChain, 0x10)
      + Flag(d.endOfRing, 0x20) + Flag(d.own, 0x8000_0000)
  }

  function WordBytes(w: Word): (s: seq<Byte>)
    ensures |s| == 4
  {
    [ByteOf(w, 0), ByteOf(w, 1), ByteOf(w, 2), ByteOf(w, 3)]
  }

  /** The 16 bytes of a descriptor in memory; the second buffer's size is zero. */
  function Encode(d: Des): (s: seq<Byte>)
    ensures |s| == 16
  {
    WordBytes(Flags(d)) + WordBytes(d.size1) + WordBytes(d.ptr1) + WordBytes(d.ptr2)
  }

  predicate Bit(flags: Word, weight: Word)
    requires weight > 0
  {
    flags / weight % 2 == 1
  }

  /** What an engine makes of the bytes of a descriptor. */
  type Reader = seq<Byte> -> Des

  /** How this engine reads them. */
  function Decode(s: seq<Byte>): Des {
    if |s| != 16 then Des(false, false, false, false, false, false, 0, 0, 0) else
      var f := Load(s, 0);
      Des(Bit(f, 2), Bit(f, 4), Bit(f, 8), Bit(f, 0x10), Bit(f, 0x20), Bit(f, 0x8000_0000),
          Load(s, 4) % 0x1_0000, Load(s, 8), Load(s, 12))
  }

  lemma LoadBytes(s: seq<Byte>, a: nat, w: Word)
    requires a + 4 <= |s| && s[a..a + 4] == WordBytes(w)
    ensures Load(s, a) == w
  {
    forall k: nat | k < 4
      ensures s[a + k] == ByteOf(w, k)
    {
      assert s[a..a + 4][k] == s[a + k];
    }
    LoadStored(s, a, w);
  }

  lemma FlagsRead(d: Des)
    ensures var f := Flags(d);
      && Bit(f, 2) == d.dic && Bit(f, 4) == d.lastDes && Bit(f, 8) == d.firstDes && Bit(f, 0x10) == d.desChain
      && Bit(f, 0x20) == d.endOfRing && Bit(f, 0x8000_0000) == d.own
  {
  }

  /** Reading back a descriptor. */
  lemma DecodeEncode(d: Des)
    requires d.size1 < 0x1_0000
    ensures Decode(Encode(d)) == d
  {
    var s := Encode(d);
    LoadBytes(s, 0, Flags(d));
    LoadBytes(s, 4, d.size1);
    LoadBytes(s, 8, d.ptr1);
    LoadBytes(s, 12, d.ptr2);
    FlagsRead(d);
  }

  predicate Agree(s: seq<Byte>, t: seq<Byte>, n: nat) { |s| == |t| == 16 && n <= 16 && s[..n] == t[..n] }

  /** The word at k is zero. */
  predicate ZeroWord(s: seq<Byte>, k: nat) { |s| == 16 && k <= 12 && forall i :: k <= i < k + 4 ==> s[i] == 0 }

  /** A reader that takes flags, size, buffer and next descriptor from the four words, one each. */
  ghost predicate WordWise(read: Reader) {
    && (forall s, t {:trigger Agree(s, t, 8)} :: Agree(s, t, 8) ==> SameStart(read(s), read(t)))
    && (forall s, t {:trigger Agree(s, t, 12)} :: Agree(s, t, 12) ==> SamePart(read(s), read(t)))
    && (forall s {:trigger ZeroWord(s, 0)} :: ZeroWord(s, 0) ==> !read(s).own)
    && (forall s {:trigger ZeroWord(s, 4)} :: ZeroWord(s, 4) ==> read(s).size1 == 0)
    && (forall s {:trigger ZeroWord(s, 8)} :: ZeroWord(s, 8) ==> read(s).ptr1 == 0)
    && (forall s {:trigger ZeroWord(s, 12)} :: ZeroWord(s, 12) ==> read(s).ptr2 == 0)
  }

  predicate SameStart(d: Des, e: Des) {
    d.own == e.own && d.lastDes == e.lastDes && d.desChain == e.desChain && d.size1 == e.size1
  }

  predicate SamePart(d: Des, e: Des) { SameStart(d, e) && d.ptr1 == e.ptr1 }

  lemma LoadAgrees(s: seq<Byte>, t: seq<Byte>, n: nat, a: nat)
    requires Agree(s, t, n) && a + 4 <= n
    ensures Load(s, a) == Load(t, a)
  {
    assert s[..n][a] == t[..n][a] && s[..n][a + 1] == t[..n][a + 1];
    assert s[..n][a + 2] == t[..n][a + 2] && s[..n][a + 3] == t[..n][a + 3];
  }

  lemma LoadZero(s: seq<Byte>, a: nat)
    requires ZeroWord(s, a)
    ensures Load(s, a) == 0
  {
  }

  /** A reader that gives back every descriptor, word by word. */
  ghost predicate Reads(read: Reader) {
    WordWise(read) && forall d: Des {:trigger Encode(d)} :: d.size1 < 0x1_0000 ==> read(Encode(d)) == d
  }

  /** The engine's reader is one. */
  lemma DecodeReads()
    ensures Reads(Decode)
  {
    forall s, t | Agree(s, t, 8)
      ensures SameStart(Decode(s), Decode(t))
    {
      LoadAgrees(s, t, 8, 0);
      LoadAgrees(s, t, 8, 4);
    }
    forall s, t | Agree(s, t, 12)
      ensures SamePart(Decode(s), Decode(t))
    {
      LoadAgrees(s, t, 12, 0);
      LoadAgrees(s, t, 12, 4);
      LoadAgrees(s, t, 12, 8);
    }
    forall s, a | ZeroWord(s, a)
      ensures Load(s, a) == 0
    {
      LoadZero(s, a);
    }
    forall d: Des | d.size1 < 0x1_0000
      ensures Decode(Encode(d)) == d
    {
      DecodeEncode(d);
    }
  }

  /** The descriptor at an address. */
  function DesAt(read: Reader, m: seq<Byte>, a: nat): Des
    requires a + 16 <= |m|
  {
    read(m[a..a + 16])
  }

  // ---------- the chain ----------

  /** How many descriptors a transfer takes. */
  function Fragments(byteCnt: nat): nat { (byteCnt + 32767) / 32768 }

  /** Where the chain for a transfer ends. */
  function ChainEnd(base: nat, byteCnt: nat): nat { base + 16 * Fragments(byteCnt) }

  /** The memory has room for a transfer and its chain. */
  predicate Room(len: nat, base: nat, buff: nat, byteCnt: nat) {
    0 < base && ChainEnd(base, byteCnt) <= len && buff + byteCnt <= len <= 0x1_0000_0000
  }

  /** Buffer and chain do not meet. */
  predicate Apart(base: nat, buff: nat, byteCnt: nat) {
    buff + byteCnt <= base || ChainEnd(base, byteCnt) <= buff
  }

  /**
   Descriptor i is untouched when the engine comes to it, with the parts before it stored; of the
   last one the word for the next descriptor does not matter.
   */
  predicate SparedAt(base: nat, buff: nat, byteCnt: nat, i: nat) {
    buff + 32768 * i <= base + 16 * i || base + 16 * i + (if i == Fragments(byteCnt) - 1 then 12 else 16) <= buff
  }

  /** The transfer never stores over a descriptor it still needs. */
  predicate Spared(base: nat, buff: nat, byteCnt: nat) {
    forall i :: 1 <= i < Fragments(byteCnt) ==> SparedAt(base, buff, byteCnt, i)
  }

  lemma ApartSpared(base: nat, buff: nat, byteCnt: nat)
    requires Apart(base, buff, byteCnt)
    ensures Spared(base, buff, byteCnt)
  {
  }

  /** Descriptor number i of the chain for [buff, buff + byteCnt), 16 bytes a descriptor. */
  function Link(base: nat, buff: nat, byteCnt: nat, i: nat): Des
    requires i < Fragments(byteCnt) && buff + byteCnt <= 0x1_0000_0000 && ChainEnd(base, byteCnt) <= 0x1_0000_0000
  {
    var last := i == Fragments(byteCnt) - 1;
    Des(!last, last, i == 0, true, last, true, if last then byteCnt - i * 32768 else 32768,
        buff + i * 32768, if last then 0 else base + 16 * (i + 1))
  }

  /** Descriptor number i of the chain stands in memory. */
  predicate Stands(read: Reader, m: seq<Byte>, base: nat, buff: nat, byteCnt: nat, i: nat)
    requires Room(|m|, base, buff, byteCnt) && i < Fragments(byteCnt)
  {
    DesAt(read, m, base + 16 * i) == Link(base, buff, byteCnt, i)
  }

  /** The whole chain stands in memory. */
  ghost predicate IsChain(read: Reader, m: seq<Byte>, base: nat, buff: nat, byteCnt: nat) {
    && byteCnt > 0 && Room(|m|, base, buff, byteCnt)
    && forall i: nat :: i < Fragments(byteCnt) ==> Stands(read, m, base, buff, byteCnt, i)
  }

  /** The bytes of the first k descriptors. */
  function Links(base: nat, buff: nat, byteCnt: nat, k: nat): (s: seq<Byte>)
    requires k <= Fragments(byteCnt) && buff + byteCnt <= 0x1_0000_0000 && ChainEnd(base, byteCnt) <= 0x1_0000_0000
    ensures |s| == 16 * k
  {
    if k == 0 then [] else Links(base, buff, byteCnt, k - 1) + Encode(Link(base, buff, byteCnt, k - 1))
  }

  lemma {:induction false} LinksAt(base: nat, buff: nat, byteCnt: nat, k: nat, i: nat)
    requires i < k <= Fragments(byteCnt) && buff + byteCnt <= 0x1_0000_0000 && ChainEnd(base, byteCnt) <= 0x1_0000_0000
    ensures Links(base, buff, byteCnt, k)[16 * i..16 * i + 16] == Encode(Link(base, buff, byteCnt, i))
  {
    var s := Links(base, buff, byteCnt, k - 1);
    if i < k - 1 {
      LinksAt(base, buff, byteCnt, k - 1, i);
      assert Links(base, buff, byteCnt, k)[16 * i..16 * i + 16] == s[16 * i..16 * i + 16];
    }
  }

  /** The bytes of descriptor i stand in memory. */
  predicate CellAt(m: seq<Byte>, base: nat, buff: nat, byteCnt: nat, i: nat)
    requires Room(|m|, base, buff, byteCnt) && i < Fragments(byteCnt)
  {
    m[base + 16 * i..base + 16 * i + 16] == Encode(Link(base, buff, byteCnt, i))
  }

  /** Memory r is m with the descriptors of the chain, and nothing else, written into it. */
  ghost predicate Built(m: seq<Byte>, r: seq<Byte>, base: nat, buff: nat, byteCnt: nat)
    requires Room(|m|, base, buff, byteCnt)
  {
    && |r| == |m|
    && (forall i :: 0 <= i < |m| && !(base <= i < ChainEnd(base, byteCnt)) ==> r[i] == m[i])
    && (forall i: nat :: i < Fragments(byteCnt) ==> CellAt(r, base, buff, byteCnt, i))
  }

  /** The memory once the chain is built. */
  ghost function WithChain(m: seq<Byte>, base: nat, buff: nat, byteCnt: nat): (r: seq<Byte>)
    requires Room(|m|, base, buff, byteCnt)
    ensures Built(m, r, base, buff, byteCnt)
  {
    LinksBuild(m, base, buff, byteCnt);
    var r :| Built(m, r, base, buff, byteCnt);
    r
  }

  lemma LinksBuild(m: seq<Byte>, base: nat, buff: nat, byteCnt: nat)
    requires Room(|m|, base, buff, byteCnt)
    ensures Built(m, Splice(m, base, Links(base, buff, byteCnt, Fragments(byteCnt))), base, buff, byteCnt)
  {
    var n, s := Fragments(byteCnt), Links(base, buff, byteCnt, Fragments(byteCnt));
    var r := Splice(m, base, s);
    assert r[base..base + 16 * n] == s;
    forall i: nat | i < n
      ensures CellAt(r, base, buff, byteCnt, i)
    {
      LinksAt(base, buff, byteCnt, n, i);
      assert r[base + 16 * i..base + 16 * i + 16] == r[base..base + 16 * n][16 * i..16 * i + 16];
    }
  }

  /** A byte of the chain is the same in whatever memory it is built. */
  lemma BuiltByte(m: seq<Byte>, r: seq<Byte>, m1: seq<Byte>, r1: seq<Byte>, base: nat, buff: nat, byteCnt: nat, a: nat)
    requires Room(|m|, base, buff, byteCnt) && |m1| == |m|
    requires Built(m, r, base, buff, byteCnt) && Built(m1, r1, base, buff, byteCnt)
    requires base <= a < ChainEnd(base, byteCnt)
    ensures r[a] == r1[a]
  {
    var i := (a - base) / 16;
    var at := base + 16 * i;
    assert CellAt(r, base, buff, byteCnt, i) && CellAt(r1, base, buff, byteCnt, i);
    assert r[at..at + 16][a - at] == r1[at..at + 16][a - at];
  }

  /** Nothing is left open by the definition. */
  lemma BuiltOnce(m: seq<Byte>, r: seq<Byte>, base: nat, buff: nat, byteCnt: nat)
    requires Room(|m|, base, buff, byteCnt) && Built(m, r, base, buff, byteCnt)
    ensures r == WithChain(m, base, buff, byteCnt)
  {
    var r1 := WithChain(m, base, buff, byteCnt);
    forall a | 0 <= a < |m|
      ensures r[a] == r1[a]
    {
      if base <= a < ChainEnd(base, byteCnt) {
        BuiltByte(m, r, m, r1, base, buff, byteCnt, a);
      }
    }
  }

  /** One more descriptor of the chain. */
  lemma ChainNext(m: seq<Byte>, base: nat, buff: nat, byteCnt: nat, i: nat)
    requires Room(|m|, base, buff, byteCnt) && i < Fragments(byteCnt)
    ensures Splice(Splice(m, base, Links(base, buff, byteCnt, i)), base + 16 * i, Encode(Link(base, buff, byteCnt, i)))
      == Splice(m, base, Links(base, buff, byteCnt, i + 1))
  {
    SpliceJoin(m, base, Links(base, buff, byteCnt, i), Encode(Link(base, buff, byteCnt, i)));
  }

  /** What is built is the chain, wherever it lies. */
  lemma WithChainStands(read: Reader, m: seq<Byte>, base: nat, buff: nat, byteCnt: nat)
    requires Reads(read) && byteCnt > 0 && Room(|m|, base, buff, byteCnt)
    ensures IsChain(read, WithChain(m, base, buff, byteCnt), base, buff, byteCnt)
  {
    var r := WithChain(m, base, buff, byteCnt);
    forall i: nat | i < Fragments(byteCnt)
      ensures Stands(read, r, base, buff, byteCnt, i)
    {
      assert CellAt(r, base, buff, byteCnt, i);
    }
  }

  /** The flag word of the first descriptor shows in memory: its top byte is never zero. */
  lemma OwnByte(m: seq<Byte>, base: nat, buff: nat, byteCnt: nat)
    requires byteCnt > 0 && Room(|m|, base, buff, byteCnt)
    ensures base + 16 <= |m| && WithChain(m, base, buff, byteCnt)[base + 3] >= 0x80
  {
    var r, d := WithChain(m, base, buff, byteCnt), Link(base, buff, byteCnt, 0);
    assert CellAt(r, base, buff, byteCnt, 0);
    assert r[base..base + 16][3] == Encode(d)[3] == ByteOf(Flags(d), 3);
  }

  /**
   The words in memory: own and chain on every descriptor, first on the first; the last carries the
   last and end-of-ring flags and no next address, the others no interrupt.
   */
  lemma ChainWords(m: seq<Byte>, base: nat, buff: nat, byteCnt: nat, i: nat)
    requires Room(|m|, base, buff, byteCnt) && i < Fragments(byteCnt)
    ensures var r, a, last := WithChain(m, base, buff, byteCnt), base + 16 * i, 32768 * (i + 1) >= byteCnt;
      && a + 16 <= |r|
      && Load(r, a) == 0x8000_0010 + (if i == 0 then 8 else 0) + (if last then 0x24 else 2)
      && Load(r, a + 4) == (if last then byteCnt - 32768 * i else 32768)
      && Load(r, a + 8) == buff + 32768 * i
      && Load(r, a + 12) == if last then 0 else a + 16
  {
    var r, a, d := WithChain(m, base, buff, byteCnt), base + 16 * i, Link(base, buff, byteCnt, i);
    assert CellAt(r, base, buff, byteCnt, i);
    WordAt(r, a, Encode(d), 0, Flags(d));
    WordAt(r, a, Encode(d), 4, d.size1);
    WordAt(r, a, Encode(d), 8, d.ptr1);
    WordAt(r, a, Encode(d), 12, d.ptr2);
  }

  lemma WordAt(r: seq<Byte>, a: nat, cell: seq<Byte>, k: nat, w: Word)
    requires |cell| == 16 && k <= 12 && a + 16 <= |r| && r[a..a + 16] == cell && cell[k..k + 4] == WordBytes(w)
    ensures Load(r, a + k) == w
  {
    forall j | 0 <= j < 4
      ensures r[a + k..a + k + 4][j] == WordBytes(w)[j]
    {
      assert r[a..a + 16][k + j] == cell[k..k + 4][j];
    }
    assert r[a + k..a + k + 4] == WordBytes(w);
    LoadBytes(r, a + k, w);
  }

  // ---------- following the chain ----------

  /** The addresses met by following ptr2 from an address on, as long as it is a next pointer; at most fuel of them. */
  function Follow(read: Reader, m: seq<Byte>, at: nat, fuel: nat): seq<nat>
    decreases fuel
  {
    if fuel == 0 || at + 16 > |m| then [] else
      var d := DesAt(read, m, at);
      [at] + if !d.desChain || d.ptr2 == 0 then [] else Follow(read, m, d.ptr2, fuel - 1)
  }

  /** The addresses of descriptors i to n. */
  function Addresses(base: nat, i: nat, n: nat): seq<nat>
    decreases if i < n then n - i else 0
  {
    if i >= n then [] else [base + 16 * i] + Addresses(base, i + 1, n)
  }

  lemma {:induction false} FollowFrom(read: Reader, m: seq<Byte>, base: nat, buff: nat, byteCnt: nat, i: nat, fuel: nat)
    requires IsChain(read, m, base, buff, byteCnt)
    requires i < Fragments(byteCnt) && fuel >= Fragments(byteCnt) - i
    ensures Follow(read, m, base + 16 * i, fuel) == Addresses(base, i, Fragments(byteCnt))
    decreases fuel
  {
    var at := base + 16 * i;
    assert Stands(read, m, base, buff, byteCnt, i);
    if i == Fragments(byteCnt) - 1 {
      assert Addresses(base, i + 1, Fragments(byteCnt)) == [];
    } else {
      FollowFrom(read, m, base, buff, byteCnt, i + 1, fuel - 1);
    }
  }

  /**
   Following the chain from its head meets every descriptor once, in order, and stops: more
   fuel changes nothing.
   */
  lemma FollowChain(read: Reader, m: seq<Byte>, base: nat, buff: nat, byteCnt: nat, fuel: nat)
    requires IsChain(read, m, base, buff, byteCnt) && fuel >= Fragments(byteCnt)
    ensures Follow(read, m, base, fuel) == Addresses(base, 0, Fragments(byteCnt))
  {
    FollowFrom(read, m, base, buff, byteCnt, 0, fuel);
  }

  /**
   Every byte of the buffer lies in exactly one descriptor, and no descriptor leaves the buffer;
   sizes are 1 to 32768, first and last are marked on the first and the last only, all are
   chained, and only the last ends the ring and interrupts.
   */
  lemma ChainCovers(read: Reader, m: seq<Byte>, base: nat, buff: nat, byteCnt: nat, a: nat, i: nat)
    requires IsChain(read, m, base, buff, byteCnt) && i < Fragments(byteCnt)
    ensures var d := DesAt(read, m, base + 16 * i);
      && (d.ptr1 <= a < d.ptr1 + d.size1 <==> buff <= a < buff + byteCnt && i == (a - buff) / 32768)
      && 1 <= d.size1 <= 32768 && d.own
      && (d.firstDes <==> i == 0) && (d.lastDes <==> i == Fragments(byteCnt) - 1)
      && d.desChain && (d.endOfRing <==> d.lastDes) && (d.dic <==> !d.lastDes)
  {
    assert Stands(read, m, base, buff, byteCnt, i);
    LinkCovers(base, buff, byteCnt, a, i);
  }

  lemma LinkCovers(base: nat, buff: nat, byteCnt: nat, a: nat, i: nat)
    requires i < Fragments(byteCnt) && buff + byteCnt <= 0x1_0000_0000 && ChainEnd(base, byteCnt) <= 0x1_0000_0000
    ensures var d := Link(base, buff, byteCnt, i);
      && (d.ptr1 <= a < d.ptr1 + d.size1 <==> buff <= a < buff + byteCnt && i == (a - buff) / 32768)
      && 1 <= d.size1 <= 32768 && d.own
      && (d.firstDes <==> i == 0) && (d.lastDes <==> i == Fragments(byteCnt) - 1)
      && d.desChain && (d.endOfRing <==> d.lastDes) && (d.dic <==> !d.lastDes)
  {
  }

  // ---------- the hardware following it ----------

  method Store(ram: array<Byte>, at: nat, piece: seq<Byte>)
    requires at + |piece| <= ram.Length
    modifies ram
    ensures ram[..] == Splice(old(ram[..]), at, piece)
  {
    for k := 0 to |piece|
      invariant ram[..] == Splice(old(ram[..]), at, piece[..k])
    {
      ram[at + k] := piece[k];
    }
    assert piece[..|piece|] == piece;
  }

  /** The engine owns the descriptor, and its part lies in the memory and in what is left of the stream. */
  predicate Usable(d: Des, len: nat, left: nat) { d.own && 0 < d.size1 <= left && d.ptr1 + d.size1 <= len }

  /**
   The engine storing a stream from the card, from a descriptor on: fetch, store, go to the next;
   it gives up at a descriptor it cannot use, and after one that names no next. Whether all went
   well, and the memory then.
   */
  function Engine(read: Reader, m: seq<Byte>, at: nat, stream: seq<Byte>, done: nat): (r: (bool, seq<Byte>))
    requires done <= |stream|
    ensures |r.1| == |m|
    decreases |stream| - done
  {
    if at + 16 > |m| || !Usable(DesAt(read, m, at), |m|, |stream| - done) then (false, m) else
      var d := DesAt(read, m, at);
      var next := Splice(m, d.ptr1, stream[done..done + d.size1]);
      if d.lastDes then (done + d.size1 == |stream|, next)
      else if !d.desChain then (false, next)
      else Engine(read, next, d.ptr2, stream, done + d.size1)
  }

  /** One turn of the engine. */
  lemma EngineTurn(read: Reader, m: seq<Byte>, at: nat, d: Des, stream: seq<Byte>, done: nat)
    requires done <= |stream| && at + 16 <= |m| && DesAt(read, m, at) == d && Usable(d, |m|, |stream| - done)
    ensures var next := Splice(m, d.ptr1, stream[done..done + d.size1]);
      Engine(read, m, at, stream, done) ==
        if d.lastDes then (done + d.size1 == |stream|, next)
        else if !d.desChain then (false, next) else Engine(read, next, d.ptr2, stream, done + d.size1)
  {
  }

  /** The part of descriptor i. */
  lemma LinkPart(base: nat, buff: nat, byteCnt: nat, i: nat)
    requires i < Fragments(byteCnt) && buff + byteCnt <= 0x1_0000_0000 && ChainEnd(base, byteCnt) <= 0x1_0000_0000
    ensures var d, done := Link(base, buff, byteCnt, i), 32768 * i;
      && d.own && d.desChain && d.ptr1 == buff + done && 0 < d.size1 <= byteCnt - done
      && if d.lastDes then done + d.size1 == byteCnt
         else d.ptr2 == base + 16 * (i + 1) && d.size1 == 32768 && i + 1 < Fragments(byteCnt)
  {
  }

  /** The memory when the engine comes to a descriptor, with the parts before it stored. */
  function Stored(was: seq<Byte>, buff: nat, stream: seq<Byte>, done: nat): seq<Byte>
    requires buff + |stream| <= |was| && done <= |stream|
  {
    Splice(was, buff, stream[..done])
  }

  /** What the engine fetches as descriptor i, when that is spared. */
  lemma FetchSpared(read: Reader, was: seq<Byte>, base: nat, buff: nat, stream: seq<Byte>, i: nat, done: nat)
    requires IsChain(read, was, base, buff, |stream|) && WordWise(read)
    requires i < Fragments(|stream|) && done == 32768 * i <= |stream|
    requires i > 0 ==> SparedAt(base, buff, |stream|, i)
    ensures var d, link := DesAt(read, Stored(was, buff, stream, done), base + 16 * i), Link(base, buff, |stream|, i);
      SamePart(d, link) && (link.lastDes || d == link)
  {
    assert Stands(read, was, base, buff, |stream|, i);
    var now, at := Stored(was, buff, stream, done), base + 16 * i;
    var cell, built, n := now[at..at + 16], was[at..at + 16], if i < Fragments(|stream|) - 1 then 16 else 12;
    forall k | 0 <= k < n
      ensures cell[k] == built[k]
    {
      assert now[at + k] == was[at + k];
    }
    assert cell[..12] == built[..12] && (n == 16 ==> cell == built);
    assert Agree(cell, built, 12) && read(built) == Link(base, buff, |stream|, i);
  }

  /** The turn at a descriptor with the part it should have. */
  lemma TurnWith(read: Reader, was: seq<Byte>, at: nat, buff: nat, stream: seq<Byte>, done: nat, d: Des)
    requires buff + |stream| <= |was| && done <= |stream| && at + 16 <= |was|
    requires DesAt(read, Stored(was, buff, stream, done), at) == d
    requires d.own && d.desChain && d.ptr1 == buff + done && 0 < d.size1 <= |stream| - done
    ensures var n := done + d.size1;
      Engine(read, Stored(was, buff, stream, done), at, stream, done) ==
        if d.lastDes then (n == |stream|, Stored(was, buff, stream, n))
        else Engine(read, Stored(was, buff, stream, n), d.ptr2, stream, n)
  {
    EngineTurn(read, Stored(was, buff, stream, done), at, d, stream, done);
    SpliceNext(was, buff, stream, done, d.size1);
  }

  /** The turn at a descriptor that is spared. */
  lemma TurnSpared(read: Reader, was: seq<Byte>, base: nat, buff: nat, stream: seq<Byte>, i: nat, done: nat)
    requires IsChain(read, was, base, buff, |stream|) && WordWise(read)
    requires i < Fragments(|stream|) && done == 32768 * i <= |stream|
    requires i > 0 ==> SparedAt(base, buff, |stream|, i)
    ensures var n := if |stream| - done <= 32768 then |stream| else done + 32768;
      Engine(read, Stored(was, buff, stream, done), base + 16 * i, stream, done) ==
        if n == |stream| then (true, Stored(was, buff, stream, n))
        else Engine(read, Stored(was, buff, stream, n), base + 16 * (i + 1), stream, n)
  {
    LinkPart(base, buff, |stream|, i);
    FetchSpared(read, was, base, buff, stream, i, done);
    TurnWith(read, was, base + 16 * i, buff, stream, done, DesAt(read, Stored(was, buff, stream, done), base + 16 * i));
  }

  /** A transfer that spares its chain stores the whole stream, and changes nothing else. */
  lemma {:induction false} EngineStores(read: Reader, was: seq<Byte>, base: nat, buff: nat, stream: seq<Byte>,
                                        i: nat, done: nat)
    requires IsChain(read, was, base, buff, |stream|) && WordWise(read) && Spared(base, buff, |stream|)
    requires i < Fragments(|stream|) && done == 32768 * i <= |stream|
    ensures Engine(read, Stored(was, buff, stream, done), base + 16 * i, stream, done) ==
      (true, Splice(was, buff, stream))
    decreases |stream| - done
  {
    TurnSpared(read, was, base, buff, stream, i, done);
    if |stream| - done <= 32768 {
      assert stream[..|stream|] == stream;
    } else {
      EngineStores(read, was, base, buff, stream, i + 1, done + 32768);
    }
  }

  /** As long as the descriptors are spared the engine goes on to the next. */
  lemma {:induction false} EngineReaches(read: Reader, was: seq<Byte>, base: nat, buff: nat, stream: seq<Byte>,
                                         i: nat, done: nat, j: nat)
    requires IsChain(read, was, base, buff, |stream|) && WordWise(read)
    requires i <= j < Fragments(|stream|) && done == 32768 * i <= |stream|
    requires forall k :: 1 <= k < j ==> SparedAt(base, buff, |stream|, k)
    ensures 32768 * j < |stream|
    ensures Engine(read, Stored(was, buff, stream, done), base + 16 * i, stream, done) ==
      Engine(read, Stored(was, buff, stream, 32768 * j), base + 16 * j, stream, 32768 * j)
    decreases j - i
  {
    if i < j {
      TurnSpared(read, was, base, buff, stream, i, done);
      EngineReaches(read, was, base, buff, stream, i + 1, done + 32768, j);
    }
  }

  /** The engine's work is done, and the stream is in the buffer. */
  predicate Fills(r: (bool, seq<Byte>), buff: nat, stream: seq<Byte>) {
    r.0 && buff + |stream| <= |r.1| && r.1[buff..buff + |stream|] == stream
  }

  /** Where the part of the last descriptor goes. */
  function LastPart(buff: nat, byteCnt: nat): nat
    requires byteCnt > 0
  {
    buff + 32768 * (Fragments(byteCnt) - 1)
  }

  /** A memory where a stream of zeros goes wrong when the chain is not spared. */
  predicate Exposed(m: seq<Byte>, base: nat, buff: nat, byteCnt: nat)
    requires byteCnt > 0 && Room(|m|, base, buff, byteCnt)
  {
    && |m| >= 16 && m[0] == m[1] == m[2] == m[3] == 0
    && (Fragments(byteCnt) > 1 && base + 16 * Fragments(byteCnt) - 8 == buff ==> m[LastPart(buff, byteCnt)] == 1)
  }

  /** The engine gave up, or left a byte of the buffer that is not zero. */
  predicate Misses(r: (bool, seq<Byte>), buff: nat, byteCnt: nat)
    requires byteCnt > 0
  {
    r.0 ==> LastPart(buff, byteCnt) < |r.1| && r.1[LastPart(buff, byteCnt)] == 1
  }

  predicate AllZeros(s: seq<Byte>) { forall k :: 0 <= k < |s| ==> s[k] == 0 }

  /** The engine gives up at a descriptor whose flags are gone. */
  lemma NoFlags(read: Reader, m: seq<Byte>, at: nat, stream: seq<Byte>, done: nat)
    requires WordWise(read) && done <= |stream| && at + 16 <= |m|
    requires m[at] == m[at + 1] == m[at + 2] == m[at + 3] == 0
    ensures Engine(read, m, at, stream, done) == (false, m)
  {
    assert ZeroWord(m[at..at + 16], 0);
  }

  /** Zeros over all of a descriptor, or all but its first word, stop the engine there. */
  lemma TouchedEarly(read: Reader, was: seq<Byte>, base: nat, buff: nat, stream: seq<Byte>, j: nat)
    requires IsChain(read, was, base, buff, |stream|) && WordWise(read) && AllZeros(stream)
    requires 1 <= j < Fragments(|stream|) && 32768 * j < |stream|
    requires base + 16 * j < buff + 32768 * j && buff <= base + 16 * j + 4 && base % 4 == buff % 4 == 0
    ensures var done := 32768 * j; !Engine(read, Stored(was, buff, stream, done), base + 16 * j, stream, done).0
  {
    var at, done := base + 16 * j, 32768 * j;
    var now := Stored(was, buff, stream, done);
    if buff <= at {
      NoFlags(read, now, at, stream, done);
    } else {
      assert ZeroWord(now[at..at + 16], 4);
    }
  }

  /** The words before the buffer are those of the chain. */
  lemma LateFields(read: Reader, was: seq<Byte>, base: nat, buff: nat, stream: seq<Byte>, j: nat)
    requires IsChain(read, was, base, buff, |stream|) && WordWise(read) && AllZeros(stream)
    requires 1 <= j < Fragments(|stream|) && 32768 * j < |stream|
    requires buff == base + 16 * j + 8 || buff == base + 16 * j + 12
    ensures var d := DesAt(read, Stored(was, buff, stream, 32768 * j), base + 16 * j);
      var link := Link(base, buff, |stream|, j);
      && SameStart(d, link) && d.ptr2 == 0
      && if buff == base + 16 * j + 8 then d.ptr1 == 0 else d.ptr1 == link.ptr1
  {
    assert Stands(read, was, base, buff, |stream|, j);
    var now, at := Stored(was, buff, stream, 32768 * j), base + 16 * j;
    var cell, built, n := now[at..at + 16], was[at..at + 16], buff - at;
    forall k | 0 <= k < 16
      ensures cell[k] == if k < n then built[k] else 0
    {
      assert cell[k] == now[at + k];
    }
    assert cell[..n] == built[..n];
    assert cell[..8] == cell[..n][..8] && built[..8] == built[..n][..8];
    assert Agree(cell, built, 8) && Agree(cell, built, n);
    assert ZeroWord(cell, 12) && (n == 8 ==> ZeroWord(cell, 8));
  }

  /** Zeros over the end of a descriptor send the engine to address zero, or its part there. */
  lemma TouchedLate(read: Reader, was: seq<Byte>, base: nat, buff: nat, stream: seq<Byte>, j: nat)
    requires IsChain(read, was, base, buff, |stream|) && WordWise(read) && AllZeros(stream)
    requires 1 <= j < Fragments(|stream|) && 32768 * j < |stream| && Exposed(was, base, buff, |stream|)
    requires buff == base + 16 * j + 8 || (buff == base + 16 * j + 12 && j < Fragments(|stream|) - 1)
    ensures var done := 32768 * j;
      Misses(Engine(read, Stored(was, buff, stream, done), base + 16 * j, stream, done), buff, |stream|)
  {
    var at, done := base + 16 * j, 32768 * j;
    var now := Stored(was, buff, stream, done);
    LateFields(read, was, base, buff, stream, j);
    LinkPart(base, buff, |stream|, j);
    LateTurn(read, now, at, DesAt(read, now, at), buff, stream, done);
  }

  /** The turn at such a descriptor. */
  lemma LateTurn(read: Reader, m: seq<Byte>, at: nat, d: Des, buff: nat, stream: seq<Byte>, done: nat)
    requires WordWise(read) && AllZeros(stream) && done < |stream| && buff + |stream| <= |m|
    requires at + 16 <= |m| && DesAt(read, m, at) == d && d.ptr2 == 0
    requires |m| >= 16 && m[0] == m[1] == m[2] == m[3] == 0
    requires d.lastDes ==> d.ptr1 == 0 && var x := LastPart(buff, |stream|); d.size1 <= x < |m| && m[x] == 1
    ensures Misses(Engine(read, m, at, stream, done), buff, |stream|)
  {
    if Usable(d, |m|, |stream| - done) {
      EngineTurn(read, m, at, d, stream, done);
      var next := Splice(m, d.ptr1, stream[done..done + d.size1]);
      if d.lastDes {
        assert next[LastPart(buff, |stream|)] == 1;
      } else if d.desChain {
        NoFlags(read, next, 0, stream, done + d.size1);
      }
    }
  }

  /** A transfer that does not spare its chain fails on zeros, in an exposed memory. */
  lemma EngineMisses(read: Reader, was: seq<Byte>, base: nat, buff: nat, stream: seq<Byte>)
    requires IsChain(read, was, base, buff, |stream|) && WordWise(read) && AllZeros(stream)
    requires Exposed(was, base, buff, |stream|) && base % 4 == buff % 4 == 0 && !Spared(base, buff, |stream|)
    ensures var r := Engine(read, was, base, stream, 0); Misses(r, buff, |stream|) && (r.0 ==> base <= buff)
  {
    var j := FirstTouched(base, buff, |stream|, 1);
    assert Stored(was, buff, stream, 0) == was;
    EngineReaches(read, was, base, buff, stream, 0, 0, j);
    if buff <= base + 16 * j + 4 {
      TouchedEarly(read, was, base, buff, stream, j);
    } else {
      TouchedLate(read, was, base, buff, stream, j);
    }
  }

  lemma FirstTouched(base: nat, buff: nat, byteCnt: nat, from: nat) returns (j: nat)
    requires 1 <= from && forall i :: 1 <= i < from ==> SparedAt(base, buff, byteCnt, i)
    requires !Spared(base, buff, byteCnt)
    ensures 1 <= j < Fragments(byteCnt) && !SparedAt(base, buff, byteCnt, j)
    ensures forall i :: 1 <= i < j ==> SparedAt(base, buff, byteCnt, i)
    decreases Fragments(byteCnt) - from
  {
    if SparedAt(base, buff, byteCnt, from) || from >= Fragments(byteCnt) {
      j := FirstTouched(base, buff, byteCnt, from + 1);
    } else {
      j := from;
    }
  }

  /** The first buffer covers the second descriptor, and the stream puts zeros there. */
  predicate CutsChain(base: nat, buff: nat, stream: seq<Byte>) {
    && |stream| > 32768 && buff <= base + 16 && base + 32 <= buff + 32768
    && forall k :: base + 16 - buff <= k < base + 32 - buff ==> stream[k] == 0
  }

  function Zeros(): seq<Byte> { [0, 0, 0, 0, 0, 0, 0, 0, 0, 0, 0, 0, 0, 0, 0, 0] }

  /** A stream that zeroes the second descriptor before it is fetched stops the engine. */
  lemma EngineStops(read: Reader, was: seq<Byte>, base: nat, buff: nat, stream: seq<Byte>)
    requires IsChain(read, was, base, buff, |stream|) && CutsChain(base, buff, stream) && WordWise(read)
    ensures !Engine(read, was, base, stream, 0).0
  {
    assert Stands(read, was, base, buff, |stream|, 0);
    LinkPart(base, buff, |stream|, 0);
    var next := Splice(was, buff, stream[0..32768]);
    forall j | 0 <= j < 16
      ensures next[base + 16..base + 32][j] == Zeros()[j]
    {
      assert stream[0..32768][base + 16 + j - buff] == stream[base + 16 + j - buff] == 0;
    }
    assert next[base + 16..base + 32] == Zeros() && ZeroWord(Zeros(), 0);
    EngineTurn(read, was, base, Link(base, buff, |stream|, 0), stream, 0);
    assert !Engine(read, next, base + 16, stream, 32768).0;
  }

  /** The engine on the memory itself. */
  method RunRead(read: Reader, ram: array<Byte>, base: nat, stream: seq<Byte>) returns (ok: bool)
    modifies ram
    ensures (ok, ram[..]) == Engine(read, old(ram[..]), base, stream, 0)
  {
    var at: nat, done: nat := base, 0;
    while at + 16 <= ram.Length && Usable(DesAt(read, ram[..], at), ram.Length, |stream| - done)
      invariant done <= |stream|
      invariant Engine(read, ram[..], at, stream, done) == Engine(read, old(ram[..]), base, stream, 0)
      decreases |stream| - done
    {
      var d := DesAt(read, ram[..], at);
      Store(ram, d.ptr1, stream[done..done + d.size1]);
      done := done + d.size1;
      if d.lastDes {
        return done == |stream|;
      }
      if !d.desChain {
        return false;
      }
      at := d.ptr2;
    }
    ok := false;
  }

  /** The engine reading memory for the card. */
  method RunWrite(read: Reader, ram: array<Byte>, base: nat, ghost buff: nat,
                  ghost byteCnt: nat) returns (stream: seq<Byte>)
    requires IsChain(read, ram[..], base, buff, byteCnt)
    ensures stream == ram[buff..buff + byteCnt]
  {
    var at: nat, i: nat := base, 0;
    stream := [];
    while true
      invariant 0 <= i < Fragments(byteCnt) && i * 32768 <= byteCnt && at == base + 16 * i
      invariant stream == ram[buff..buff + i * 32768]
      decreases Fragments(byteCnt) - i
    {
      var d := DesAt(read, ram[..], at);
      assert Stands(read, ram[..], base, buff, byteCnt, i);
      stream := stream + ram[d.ptr1..d.ptr1 + d.size1];
      if d.lastDes || !d.desChain {
        break;
      }
      at, i := d.ptr2, i + 1;
    }
  }

  // ---------- the driver ----------

  /** The body of the loop: the fields of descriptor number i, from all zeros. */
  method Describe(base: nat, buff: nat, i: nat, fragNum: nat, remain: nat) returns (d: Des)
    requires i < fragNum && 0 < remain <= 32768 && buff + (fragNum - 1) * 32768 + remain <= 0x1_0000_0000
    requires base + 16 * fragNum <= 0x1_0000_0000
    ensures d == Link(base, buff, (fragNum - 1) * 32768 + remain, i)
  {
    d := Des(false, false, false, false, false, false, 0, 0, 0);
    d := d.(desChain := true, own := true, dic := true);
    d := d.(size1 := if fragNum > 1 && i != fragNum - 1 then 32768 else remain);
    d := d.(ptr1 := buff + i * 32768);
    if i == 0 {
      d := d.(firstDes := true);
    }
    if i == fragNum - 1 {
      d := d.(dic := false, lastDes := true, endOfRing := true, ptr2 := 0);
    } else {
      d := d.(ptr2 := base + 16 * (i + 1));
    }
  }

  /** One turn of the loop, after i descriptors. */
  method BuildLink(ghost was: seq<Byte>, ram: array<Byte>, base: nat, buff: nat, i: nat, fragNum: nat, remain: nat,
                   ghost byteCnt: nat)
    requires |was| == ram.Length && Room(ram.Length, base, buff, byteCnt)
    requires i < fragNum == Fragments(byteCnt) && 0 < remain <= 32768 && (fragNum - 1) * 32768 + remain == byteCnt
    requires ram[..] == Splice(was, base, Links(base, buff, byteCnt, i))
    modifies ram
    ensures ram[..] == Splice(was, base, Links(base, buff, byteCnt, i + 1))
  {
    var d := Describe(base, buff, i, fragNum, remain);
    ChainNext(was, base, buff, byteCnt, i);
    Store(ram, base + 16 * i, Encode(d));
  }

  /** mmc_trans_data_by_dma: build the chain for a transfer. */
  method BuildChain(ram: array<Byte>, base: nat, buff: nat, byteCnt: nat)
    requires Room(ram.Length, base, buff, byteCnt)
    modifies ram
    ensures ram[..] == WithChain(old(ram[..]), base, buff, byteCnt)
  {
    var fragNum := byteCnt / 32768;
    var remain := byteCnt % 32768;
    if remain != 0 {
      fragNum := fragNum + 1;
    } else {
      remain := 32768;
    }
    for i := 0 to fragNum
      invariant fragNum == Fragments(byteCnt) && 0 < remain <= 32768
      invariant fragNum > 0 ==> (fragNum - 1) * 32768 + remain == byteCnt
      invariant ram[..] == Splice(old(ram[..]), base, Links(base, buff, byteCnt, i))
    {
      BuildLink(old(ram[..]), ram, base, buff, i, fragNum, remain, byteCnt);
    }
    LinksBuild(old(ram[..]), base, buff, byteCnt);
    BuiltOnce(old(ram[..]), ram[..], base, buff, byteCnt);
  }

  /**
   mmc_trans_data_by_cpu on a read: words from the FIFO, byte order little-endian. The FIFO
   runs dry for good at word dry.
   */
  method CpuRead(ram: array<Byte>, buff: nat, stream: seq<Byte>, dry: nat) returns (ret: int)
    requires buff + |stream| <= ram.Length
    modifies ram
    ensures ret == if dry < |stream| / 4 then -1 else 0
    ensures var n := if dry < |stream| / 4 then dry else |stream| / 4;
      ram[..] == Splice(old(ram[..]), buff, stream[..4 * n])
  {
    for i := 0 to |stream| / 4
      invariant i <= dry
      invariant ram[..] == Splice(old(ram[..]), buff, stream[..4 * i])
    {
      if i == dry {
        return -1;
      }
      ram[buff + 4 * i] := stream[4 * i];
      ram[buff + 4 * i + 1] := stream[4 * i + 1];
      ram[buff + 4 * i + 2] := stream[4 * i + 2];
      ram[buff + 4 * i + 3] := stream[4 * i + 3];
    }
    ret := 0;
  }

  /** mmc_trans_data_by_cpu on a write: words to the FIFO, which stays full for good at word full. */
  method CpuWrite(ram: array<Byte>, buff: nat, byteCnt: nat, full: nat) returns (ret: int, stream: seq<Byte>)
    requires buff + byteCnt <= ram.Length
    ensures ret == if full < byteCnt / 4 then -1 else 0
    ensures stream == ram[buff..buff + 4 * if full < byteCnt / 4 then full else byteCnt / 4]
  {
    stream := [];
    for i := 0 to byteCnt / 4
      invariant i <= full
      invariant stream == ram[buff..buff + 4 * i]
    {
      if i == full {
        return -1, stream;
      }
      stream := stream + [ram[buff + 4 * i], ram[buff + 4 * i + 1], ram[buff + 4 * i + 2], ram[buff + 4 * i + 3]];
    }
    ret := 0;
  }

  // ---------- either way ----------

  /** The memory when the data moves: with its chain above 64 bytes, as it is up to there. */
  ghost function Prepared(m: seq<Byte>, base: nat, buff: nat, byteCnt: nat): (r: seq<Byte>)
    requires Room(|m|, base, buff, byteCnt)
    ensures |r| == |m|
  {
    if byteCnt > 64 then WithChain(m, base, buff, byteCnt) else m
  }

  /** The outcome of a DMA read: the chain is built, then the engine stores the stream. */
  ghost function Transferred(read: Reader, m: seq<Byte>, base: nat, buff: nat,
                             stream: seq<Byte>): (r: (bool, seq<Byte>))
    requires Room(|m|, base, buff, |stream|)
    ensures |r.1| == |m|
  {
    Engine(read, WithChain(m, base, buff, |stream|), base, stream, 0)
  }

  /** A transfer that spares its chain fills the buffer, and changes nothing but buffer and chain. */
  lemma TransferFills(read: Reader, m: seq<Byte>, base: nat, buff: nat, stream: seq<Byte>)
    requires Reads(read) && |stream| > 0 && Room(|m|, base, buff, |stream|) && Spared(base, buff, |stream|)
    ensures Transferred(read, m, base, buff, stream) == (true, Splice(WithChain(m, base, buff, |stream|), buff, stream))
  {
    var built := WithChain(m, base, buff, |stream|);
    WithChainStands(read, m, base, buff, |stream|);
    assert Stored(built, buff, stream, 0) == built;
    EngineStores(read, built, base, buff, stream, 0, 0);
  }

  /** A transfer that does not spare its chain fails on zeros, in an exposed memory. */
  lemma TransferMisses(read: Reader, m: seq<Byte>, base: nat, buff: nat, stream: seq<Byte>)
    requires Reads(read) && |stream| > 0 && Room(|m|, base, buff, |stream|) && !Spared(base, buff, |stream|)
    requires AllZeros(stream) && Exposed(m, base, buff, |stream|) && base % 4 == buff % 4 == 0
    ensures var r := Transferred(read, m, base, buff, stream); Misses(r, buff, |stream|) && (r.0 ==> base <= buff)
  {
    WithChainStands(read, m, base, buff, |stream|);
    EngineMisses(read, WithChain(m, base, buff, |stream|), base, buff, stream);
  }

  /**
   A DMA read of n bytes to a word-aligned buffer fills it, whatever the memory holds and the card
   sends, exactly when it spares its chain.
   */
  lemma TransferExactly(read: Reader, len: nat, base: nat, buff: nat, n: nat)
    requires Reads(read) && n > 0 && Room(len, base, buff, n) && base % 4 == buff % 4 == 0
    ensures (forall m: seq<Byte>, s: seq<Byte> | |m| == len && |s| == n ::
               Fills(Transferred(read, m, base, buff, s), buff, s)) <==>
            Spared(base, buff, n)
  {
    if Spared(base, buff, n) {
      forall m: seq<Byte>, s: seq<Byte> | |m| == len && |s| == n
        ensures Fills(Transferred(read, m, base, buff, s), buff, s)
      {
        TransferFills(read, m, base, buff, s);
        FilledBySplice(WithChain(m, base, buff, n), buff, s);
      }
    } else {
      var m: seq<Byte>, s: seq<Byte> := seq(len, a => if a < 4 then 0 else 1), seq(n, k => 0);
      TransferMisses(read, m, base, buff, s);
      FilledIsNotMissed(Transferred(read, m, base, buff, s), buff, s);
    }
  }

  /** An engine that stores nothing but ones leaves a one as it is. */
  lemma {:induction false} OnesStay(read: Reader, m: seq<Byte>, at: nat, stream: seq<Byte>, done: nat, x: nat)
    requires done <= |stream| && (forall k :: 0 <= k < |stream| ==> stream[k] == 1) && x < |m| && m[x] == 1
    ensures Engine(read, m, at, stream, done).1[x] == 1
    decreases |stream| - done
  {
    if at + 16 <= |m| && Usable(DesAt(read, m, at), |m|, |stream| - done) {
      var d := DesAt(read, m, at);
      EngineTurn(read, m, at, d, stream, done);
      if !d.lastDes && d.desChain {
        OnesStay(read, Splice(m, d.ptr1, stream[done..done + d.size1]), d.ptr2, stream, done + d.size1, x);
      }
    }
  }

  lemma FilledIsNotMissed(r: (bool, seq<Byte>), buff: nat, s: seq<Byte>)
    requires |s| > 0 && AllZeros(s)
    ensures Fills(r, buff, s) ==> !Misses(r, buff, |s|)
  {
    var x := LastPart(buff, |s|) - buff;
    if Fills(r, buff, s) {
      assert r.1[buff..buff + |s|][x] == s[x];
    }
  }

  lemma FilledBySplice(m: seq<Byte>, buff: nat, s: seq<Byte>)
    requires buff + |s| <= |m|
    ensures Fills((true, Splice(m, buff, s)), buff, s)
  {
    assert Splice(m, buff, s)[buff..buff + |s|] == s;
  }

  /**
   The data phase of a read command: DMA above 64 bytes, the CPU up to there, with the same
   bytes in the buffer whenever the length is a multiple of 4 and the transfer spares its chain.
   */
  method TransferIn(read: Reader, ram: array<Byte>, base: nat, buff: nat, stream: seq<Byte>) returns (ok: bool)
    requires Reads(read) && Room(ram.Length, base, buff, |stream|) && |stream| % 4 == 0
    modifies ram
    ensures |stream| <= 64 || Spared(base, buff, |stream|) ==>
      ok && ram[..] == Splice(Prepared(old(ram[..]), base, buff, |stream|), buff, stream)
    ensures |stream| > 64 ==> (ok, ram[..]) == Transferred(read, old(ram[..]), base, buff, stream)
    ensures CutsChain(base, buff, stream) ==> !ok
  {
    if |stream| > 64 {
      ghost var m := ram[..];
      BuildChain(ram, base, buff, |stream|);
      if Spared(base, buff, |stream|) {
        TransferFills(read, m, base, buff, stream);
      }
      if CutsChain(base, buff, stream) {
        WithChainStands(read, m, base, buff, |stream|);
        EngineStops(read, ram[..], base, buff, stream);
      }
      ok := RunRead(read, ram, base, stream);
    } else {
      var ret := CpuRead(ram, buff, stream, |stream| / 4);
      ok := true;
      assert stream[..4 * (|stream| / 4)] == stream;
    }
  }

  /** The data phase of a write command. */
  method TransferOut(read: Reader, ram: array<Byte>, base: nat, buff: nat, byteCnt: nat) returns (stream: seq<Byte>)
    requires Reads(read) && Room(ram.Length, base, buff, byteCnt) && byteCnt % 4 == 0
    modifies ram
    ensures ram[..] == Prepared(old(ram[..]), base, buff, byteCnt)
    ensures stream == ram[buff..buff + byteCnt]
  {
    if byteCnt > 64 {
      BuildChain(ram, base, buff, byteCnt);
      WithChainStands(read, old(ram[..]), base, buff, byteCnt);
      stream := RunWrite(read, ram, base, buff, byteCnt);
    } else {
      var ret;
      ret, stream := CpuWrite(ram, buff, byteCnt, byteCnt / 4);
    }
  }
}
