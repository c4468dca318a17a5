/**
 Word-at-a-time memset and memcpy (boot1/misc/mem.c:33-85) against their byte-by-byte meaning,
 on a little-endian machine with 4-byte words.
 */
module Mem {
  import opened Bits

  /** The byte-by-byte forward copy of n bytes: the meaning of memcpy, overlapping or not. */
  function ByteCopy(m: seq<Byte>, dest: nat, src: nat, n: nat): (r: seq<Byte>)
    requires dest + n <= |m| && src + n <= |m|
    ensures |r| == |m|
    decreases n
  {
    if n == 0 then m else ByteCopy(m[dest := m[src]], dest + 1, src + 1, n - 1)
  }

  /** The copy leaves everything outside the destination alone. */
  lemma {:induction false} ByteCopyFrame(m: seq<Byte>, dest: nat, src: nat, n: nat, a: nat)
    requires dest + n <= |m| && src + n <= |m|
    requires a < |m| && !(dest <= a < dest + n)
    ensures ByteCopy(m, dest, src, n)[a] == m[a]
    decreases n
  {
    if n > 0 {
      ByteCopyFrame(m[dest := m[src]], dest + 1, src + 1, n - 1, a);
    }
  }

  /** Regions that are disjoint, or with dest below src, receive the original source. */
  lemma {:induction false} ByteCopyMoves(m: seq<Byte>, dest: nat, src: nat, n: nat, i: nat)
    requires dest + n <= |m| && src + n <= |m| && i < n
    requires dest <= src || src + n <= dest
    ensures ByteCopy(m, dest, src, n)[dest + i] == m[src + i]
    decreases n
  {
    var m1 := m[dest := m[src]];
    if i == 0 {
      ByteCopyFrame(m1, dest + 1, src + 1, n - 1, dest);
    } else {
      ByteCopyMoves(m1, dest + 1, src + 1, n - 1, i - 1);
    }
  }

  /** For a region copied upward, byte i of the destination ends as the final byte i of the source. */
  lemma {:induction false} ByteCopySmears(m: seq<Byte>, dest: nat, src: nat, n: nat, i: nat)
    requires dest + n <= |m| && src < dest && i < n
    ensures ByteCopy(m, dest, src, n)[dest + i] == ByteCopy(m, dest, src, n)[src + i]
    decreases n
  {
    var m1 := m[dest := m[src]];
    if i == 0 {
      ByteCopyFrame(m1, dest + 1, src + 1, n - 1, dest);
      ByteCopyFrame(m1, dest + 1, src + 1, n - 1, src);
    } else {
      ByteCopySmears(m1, dest + 1, src + 1, n - 1, i - 1);
    }
  }

  /** Whatever the memory holds, the copy delivers the original source. */
  ghost predicate Moves(len: nat, dest: nat, src: nat, n: nat)
    requires dest + n <= len && src + n <= len
  {
    forall m: seq<Byte> | |m| == len :: ByteCopy(m, dest, src, n)[dest..dest + n] == m[src..src + n]
  }

  lemma MovesApart(m: seq<Byte>, dest: nat, src: nat, n: nat)
    requires dest + n <= |m| && src + n <= |m| && (dest <= src || src + n <= dest)
    ensures ByteCopy(m, dest, src, n)[dest..dest + n] == m[src..src + n]
  {
    var moved, wanted := ByteCopy(m, dest, src, n)[dest..dest + n], m[src..src + n];
    forall i | 0 <= i < n
      ensures moved[i] == wanted[i]
    {
      ByteCopyMoves(m, dest, src, n, i);
    }
  }

  /** A memory marking only the first source byte: the mark reappears dest - src further on. */
  lemma SmearedMark(m: seq<Byte>, dest: nat, src: nat, n: nat)
    requires dest + n <= |m| && src < dest < src + n && m[src] == 1 && m[dest] == 0
    ensures ByteCopy(m, dest, src, n)[dest..dest + n] != m[src..src + n]
  {
    var d, moved := dest - src, ByteCopy(m, dest, src, n);
    ByteCopyFrame(m, dest, src, n, src);
    ByteCopySmears(m, dest, src, n, 0);
    ByteCopySmears(m, dest, src, n, d);
    assert moved[dest..dest + n][d] == 1;
    assert m[src..src + n][d] == 0;
  }

  /** memcpy delivers the source whatever the memory holds exactly when it does not copy upward onto itself. */
  lemma MovesExactly(len: nat, dest: nat, src: nat, n: nat)
    requires dest + n <= len && src + n <= len
    ensures Moves(len, dest, src, n) <==> dest <= src || src + n <= dest
  {
    if dest <= src || src + n <= dest {
      forall m: seq<Byte> | |m| == len
        ensures ByteCopy(m, dest, src, n)[dest..dest + n] == m[src..src + n]
      {
        MovesApart(m, dest, src, n);
      }
    } else {
      SmearedMark(seq(len, i => if i == src then 1 else 0), dest, src, n);
    }
  }

  /** The memory after the word at s is stored at d. */
  function WithWord(m: seq<Byte>, d: nat, s: nat): (r: seq<Byte>)
    requires d + 4 <= |m| && s + 4 <= |m|
    ensures |r| == |m|
  {
    m[d := m[s]][d + 1 := m[s + 1]][d + 2 := m[s + 2]][d + 3 := m[s + 3]]
  }

  /** Four bytes at a time, when at least four bytes apart. */
  lemma CopyWord(m: seq<Byte>, d: nat, s: nat, n: nat)
    requires d + n <= |m| && s + n <= |m| && n >= 4
    requires d >= s + 4 || s >= d + 4
    ensures ByteCopy(m, d, s, n) == ByteCopy(WithWord(m, d, s), d + 4, s + 4, n - 4)
  {
    var m1 := m[d := m[s]];
    var m2 := m1[d + 1 := m1[s + 1]];
    var m3 := m2[d + 2 := m2[s + 2]];
    var m4 := m3[d + 3 := m3[s + 3]];
    assert ByteCopy(m, d, s, n) == ByteCopy(m1, d + 1, s + 1, n - 1);
    assert ByteCopy(m1, d + 1, s + 1, n - 1) == ByteCopy(m2, d + 2, s + 2, n - 2);
    assert ByteCopy(m2, d + 2, s + 2, n - 2) == ByteCopy(m3, d + 3, s + 3, n - 3);
    assert ByteCopy(m3, d + 3, s + 3, n - 3) == ByteCopy(m4, d + 4, s + 4, n - 4);
  }

  lemma {:induction false} CopySelf(m: seq<Byte>, d: nat, n: nat)
    requires d + n <= |m|
    ensures ByteCopy(m, d, d, n) == m
    decreases n
  {
    if n > 0 {
      assert m[d := m[d]] == m;
      CopySelf(m, d + 1, n - 1);
    }
  }

  /** One load and store of a word. */
  method MoveWord(m: array<Byte>, d: nat, s: nat)
    requires d + 4 <= m.Length && s + 4 <= m.Length
    modifies m
    ensures m[..] == WithWord(old(m[..]), d, s)
  {
    var b0, b1, b2, b3 := m[s], m[s + 1], m[s + 2], m[s + 3];
    m[d], m[d + 1], m[d + 2], m[d + 3] := b0, b1, b2, b3;
  }

  /** The word loop of memcpy, on aligned regions; it returns how many bytes are left. */
  method CopyWords(m: array<Byte>, dest: nat, src: nat, count: nat) returns (left: nat)
    requires dest + count <= m.Length && src + count <= m.Length
    requires dest % 4 == 0 && src % 4 == 0 && dest != src
    modifies m
    ensures left <= count
    ensures ByteCopy(m[..], dest + count - left, src + count - left, left) == ByteCopy(old(m[..]), dest, src, count)
  {
    ghost var goal := ByteCopy(m[..], dest, src, count);
    var d, s := dest, src;
    left := count;
    while left >= 4
      invariant d + left == dest + count && s + left == src + count
      invariant d % 4 == 0 && s % 4 == 0
      invariant ByteCopy(m[..], d, s, left) == goal
    {
      assert d >= s + 4 || s >= d + 4;
      CopyWord(m[..], d, s, left);
      MoveWord(m, d, s);
      d, s, left := d + 4, s + 4, left - 4;
    }
  }

  /** The byte loop of memcpy. */
  method CopyBytes(m: array<Byte>, dest: nat, src: nat, count: nat)
    requires dest + count <= m.Length && src + count <= m.Length
    modifies m
    ensures m[..] == ByteCopy(old(m[..]), dest, src, count)
  {
    ghost var goal := ByteCopy(m[..], dest, src, count);
    var d, s, left := dest, src, count;
    while left > 0
      invariant d + left == dest + count && s + left == src + count
      invariant ByteCopy(m[..], d, s, left) == goal
    {
      ghost var before := m[..];
      m[d] := m[s];
      assert m[..] == before[d := before[s]];
      d, s, left := d + 1, s + 1, left - 1;
    }
  }

  /** memcpy: the same memory as the byte copy, at every alignment and overlap. */
  method Memcpy(m: array<Byte>, dest: nat, src: nat, count: nat)
    requires dest + count <= m.Length && src + count <= m.Length
    modifies m
    ensures m[..] == ByteCopy(old(m[..]), dest, src, count)
  {
    if src == dest {
      CopySelf(m[..], dest, count);
      return;
    }
    var left := count;
    if dest % 4 == 0 && src % 4 == 0 {
      left := CopyWords(m, dest, src, count);
    }
    CopyBytes(m, dest + count - left, src + count - left, left);
  }

  /** Byte k of a word in memory. */
  function ByteOf(w: Word, k: nat): Byte
    requires k < 4
  {
    if k == 0 then w % 0x100 else if k == 1 then w / 0x100 % 0x100 else if k == 2 then w / 0x1_0000 % 0x100
      else w / 0x100_0000
  }

  /** The little-endian word at an address. */
  function Load(m: seq<Byte>, a: nat): Word
    requires a + 4 <= |m|
  {
    var b0: int, b1: int, b2: int, b3: int := m[a], m[a + 1], m[a + 2], m[a + 3];
    b0 + b1 * 0x100 + b2 * 0x1_0000 + b3 * 0x100_0000
  }

  lemma LoadStored(m: seq<Byte>, a: nat, w: Word)
    requires a + 4 <= |m| && forall k :: 0 <= k < 4 ==> m[a + k] == ByteOf(w, k)
    ensures Load(m, a) == w
  {
    assert m[a + 0] == ByteOf(w, 0);
    assert m[a + 1] == ByteOf(w, 1);
    assert m[a + 2] == ByteOf(w, 2);
    assert m[a + 3] == ByteOf(w, 3);
    var x: int := w;
    DivDiv(x, 0x100, 0x100);
    DivDiv(x, 0x1_0000, 0x100);
  }

  lemma LoadSame(m: seq<Byte>, m1: seq<Byte>, a: nat)
    requires |m| == |m1| && a + 4 <= |m| && forall i :: a <= i < a + 4 ==> m1[i] == m[i]
    ensures Load(m1, a) == Load(m, a)
  {
  }

  method StoreWord(ram: array<Byte>, a: nat, w: Word)
    requires a + 4 <= ram.Length
    modifies ram
    ensures Load(ram[..], a) == w
    ensures forall i :: 0 <= i < ram.Length && !(a <= i < a + 4) ==> ram[i] == old(ram[i])
  {
    ram[a], ram[a + 1], ram[a + 2], ram[a + 3] := ByteOf(w, 0), ByteOf(w, 1), ByteOf(w, 2), ByteOf(w, 3);
    LoadStored(ram[..], a, w);
  }

  /** `cl << 8 | b` on a 32-bit word. */
  lemma ShiftIn(cl: Word, b: Byte)
    ensures Or(Shl(cl, 8), b) == cl % 0x100_0000 * 0x100 + b
  {
    assert Pow2(8) == 0x100;
    ShlIsMul(cl, 8);
    var h := cl % 0x100_0000;
    DivModUnique(cl * 0x100, 0x1_0000_0000, cl / 0x100_0000, h * 0x100);
    OrDisjoint(h, b, 8);
  }

  /** The word after i turns of the loop that builds it: i copies of the byte. */
  function Copies(b: Byte, i: nat): Word
    requires i <= 4
  {
    if i == 0 then 0 else if i == 1 then b else if i == 2 then b * 0x101 else if i == 3 then b * 0x1_0101
      else b * 0x101_0101
  }

  lemma NextCopy(b: Byte, i: nat)
    requires i < 4
    ensures Or(Shl(Copies(b, i), 8), b) == Copies(b, i + 1)
  {
    ShiftIn(Copies(b, i), b);
    DivModUnique(Copies(b, i), 0x100_0000, 0, Copies(b, i));
  }

  lemma CopiesBytes(b: Byte, k: nat)
    requires k < 4
    ensures ByteOf(Copies(b, 4), k) == b
  {
    var w := Copies(b, 4);
    if k == 0 {
      DivModUnique(w, 0x100, b * 0x1_0101, b);
    } else if k == 1 {
      DivModUnique(w, 0x100, b * 0x1_0101, b);
      DivModUnique(b * 0x1_0101, 0x100, b * 0x101, b);
    } else if k == 2 {
      DivModUnique(w, 0x1_0000, b * 0x101, b * 0x101);
      DivModUnique(b * 0x101, 0x100, b, b);
    } else {
      DivModUnique(w, 0x100_0000, b, b * 0x1_0101);
    }
  }

  /** The word memset stores: four times the low byte of c. */
  method FillWord(c: int) returns (cl: Word)
    ensures cl == Copies(c % 0x100, 4)
  {
    cl := 0;
    var b: Byte := c % 0x100;
    for i := 0 to 4
      invariant cl == Copies(b, i)
    {
      NextCopy(b, i);
      cl := Or(Shl(cl, 8), b);
    }
  }

  /** memset: every byte of the region becomes the low byte of c, and no other byte changes. */
  method Memset(m: array<Byte>, s: nat, c: int, count: nat)
    requires s + count <= m.Length
    modifies m
    ensures forall i :: s <= i < s + count ==> m[i] == c % 0x100
    ensures forall i :: 0 <= i < m.Length && !(s <= i < s + count) ==> m[i] == old(m[i])
  {
    var at, left := s, count;
    if s % 4 == 0 {
      var cl := FillWord(c);
      CopiesBytes(c % 0x100, 0);
      CopiesBytes(c % 0x100, 1);
      CopiesBytes(c % 0x100, 2);
      CopiesBytes(c % 0x100, 3);
      while left >= 4
        invariant at + left == s + count
        invariant forall i :: s <= i < at ==> m[i] == c % 0x100
        invariant forall i :: 0 <= i < m.Length && !(s <= i < at) ==> m[i] == old(m[i])
      {
        m[at], m[at + 1], m[at + 2], m[at + 3] := ByteOf(cl, 0), ByteOf(cl, 1), ByteOf(cl, 2), ByteOf(cl, 3);
        at, left := at + 4, left - 4;
      }
    }
    while left > 0
      invariant at + left == s + count
      invariant forall i :: s <= i < at ==> m[i] == c % 0x100
      invariant forall i :: 0 <= i < m.Length && !(s <= i < at) ==> m[i] == old(m[i])
    {
      m[at] := c % 0x100;
      at, left := at + 1, left - 1;
    }
  }
}
