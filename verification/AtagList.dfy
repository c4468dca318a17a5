/**
 The kernel's tag list (boot1/apps/Boot_Android/BootOS/bootm.c:45-127 and 163-167) and the walk
 over it (boot1/apps/Boot_Android/BootOS/setup.h:249-253), in little-endian byte memory.
 */
module AtagList {
  import opened Bits
  import opened Mem

  const ATAG_NONE: Word := 0
  const ATAG_CORE: Word := 0x5441_0001
  const ATAG_CMDLINE: Word := 0x5441_0009

  // ---------- reading the list ----------

  /** What for_each_tag visits: tag and payload of each node, and the tag word it stops at. */
  datatype Listing = End(tag: Word) | Node(tag: Word, body: seq<Byte>, rest: Listing) | Broken

  /** The walk from a: it stops at a size of zero, and is broken when a header leaves the memory. */
  function Walk(m: seq<Byte>, a: nat): Listing
    decreases |m| - a
  {
    if a + 8 > |m| then Broken else
      var size: int := Load(m, a);
      if size == 0 then End(Load(m, a + 4))
      else if size == 1 || a + 4 * size > |m| then Broken
      else Node(Load(m, a + 4), m[a + 8..a + 4 * size], Walk(m, a + 4 * size))
  }

  predicate Ends(l: Listing) {
    match l
    case End(_) => true
    case Node(_, _, rest) => Ends(rest)
    case Broken => false
  }

  /** Tag and payload of every node, in order. */
  function Nodes(l: Listing): seq<(Word, seq<Byte>)> {
    match l
    case Node(tag, body, rest) => [(tag, body)] + Nodes(rest)
    case _ => []
  }

  /** The node a walk that ends starts with. */
  lemma FirstNode(m: seq<Byte>, t: nat)
    requires t + 8 <= |m| && Load(m, t) != 0 && Ends(Walk(m, t))
    ensures Load(m, t) >= 2 && t + 4 * Load(m, t) + 8 <= |m|
    ensures var rest := Walk(m, t + 4 * Load(m, t));
      Ends(rest) && Walk(m, t) == Node(Load(m, t + 4), m[t + 8..t + 4 * Load(m, t)], rest)
  {
    assert Walk(m, t) == Node(Load(m, t + 4), m[t + 8..t + 4 * Load(m, t)], Walk(m, t + 4 * Load(m, t)));
    assert !Walk(m, t + 4 * Load(m, t)).Broken?;
  }

  /** One turn of a walk: what was seen and what is left always make up the same list. */
  lemma Turn(m: seq<Byte>, t: nat, seen: seq<(Word, seq<Byte>)>, all: seq<(Word, seq<Byte>)>) returns (next: nat)
    requires t + 8 <= |m| && Load(m, t) != 0 && Ends(Walk(m, t)) && seen + Nodes(Walk(m, t)) == all
    ensures Load(m, t) >= 2 && next == t + 4 * Load(m, t) && next + 8 <= |m| && Ends(Walk(m, next))
    ensures seen + [(Load(m, t + 4), m[t + 8..next])] + Nodes(Walk(m, next)) == all
  {
    FirstNode(m, t);
    next := t + 4 * Load(m, t);
    var one, rest := [(Load(m, t + 4), m[t + 8..next])], Nodes(Walk(m, next));
    assert Nodes(Walk(m, t)) == one + rest;
    assert seen + (one + rest) == seen + one + rest;
  }

  /** One node in memory: its size in words, its tag and its payload. */
  method ReadNode(m: array<Byte>, t: nat) returns (size: nat, tag: Word, body: seq<Byte>)
    requires t + 8 <= m.Length && Load(m[..], t) >= 2 && t + 4 * Load(m[..], t) <= m.Length
    ensures size == Load(m[..], t) && tag == Load(m[..], t + 4) && body == m[..][t + 8..t + 4 * size]
  {
    size, tag := Load(m[..], t), Load(m[..], t + 4);
    body := m[t + 8..t + 4 * size];
  }

  /** for_each_tag, collecting what it visits. */
  method ForEachTag(m: array<Byte>, base: nat) returns (seen: seq<(Word, seq<Byte>)>)
    requires Ends(Walk(m[..], base))
    ensures seen == Nodes(Walk(m[..], base))
  {
    var t := base;
    seen := [];
    ghost var mem, all := m[..], Nodes(Walk(m[..], base));
    while Load(m[..], t) != 0
      invariant t + 8 <= m.Length && Ends(Walk(mem, t))
      invariant seen + Nodes(Walk(mem, t)) == all
      decreases m.Length - t
    {
      ghost var next := Turn(mem, t, seen, all);
      var size, tag, body := ReadNode(m, t);
      seen := seen + [(tag, body)];
      t := t + 4 * size;
      assert t == next;
    }
  }

  // ---------- strings ----------

  /** The characters before the first NUL. */
  function CString(s: seq<Byte>): (r: seq<Byte>)
    ensures r <= s && |r| <= |s| && 0 !in r && (|r| < |s| ==> s[|r|] == 0)
  {
    if s == [] || s[0] == 0 then [] else [s[0]] + CString(s[1..])
  }

  function Spaces(s: seq<Byte>): (n: nat)
    ensures n <= |s| && (n < |s| ==> s[n] != 0x20)
    ensures forall i :: 0 <= i < n ==> s[i] == 0x20
  {
    if s == [] || s[0] != 0x20 then 0 else 1 + Spaces(s[1..])
  }

  /** The string without its leading spaces. */
  function Stripped(s: seq<Byte>): seq<Byte> { s[Spaces(s)..] }

  lemma {:induction false} CStringUnique(s: seq<Byte>, n: nat)
    requires n <= |s| && (n < |s| ==> s[n] == 0) && 0 !in s[..n]
    ensures CString(s) == s[..n]
  {
    if n > 0 {
      assert s[..n][0] == s[0];
      assert s[..n] == [s[0]] + s[1..][..n - 1];
      CStringUnique(s[1..], n - 1);
    }
  }

  lemma {:induction false} CStringAtMost(s: seq<Byte>, n: nat)
    requires n < |s| && s[n] == 0
    ensures |CString(s)| <= n
  {
    if n > 0 {
      CStringAtMost(s[1..], n - 1);
    }
  }

  lemma {:induction false} CStringAtLeast(s: seq<Byte>, n: nat)
    requires n <= |s| && 0 !in s[..n]
    ensures |CString(s)| >= n
  {
    if n > 0 {
      assert s[..n][0] == s[0];
      assert s[..n] == [s[0]] + s[1..][..n - 1];
      CStringAtLeast(s[1..], n - 1);
    }
  }

  lemma {:induction false} CStringDrop(s: seq<Byte>, n: nat)
    requires n <= |CString(s)|
    ensures CString(s[n..]) == CString(s)[n..]
  {
    if n > 0 {
      assert s[n..] == s[1..][n - 1..];
      CStringDrop(s[1..], n - 1);
    }
  }

  /** A buffer with a NUL in it holds a terminated string, and does not end within its leading spaces. */
  lemma {:induction false} Terminated(s: seq<Byte>)
    requires 0 in s
    ensures |CString(s)| < |s| && Spaces(s) < |s|
  {
    if s[0] != 0 {
      Terminated(s[1..]);
    }
  }

  lemma SpacesUnique(s: seq<Byte>, n: nat)
    requires n <= |s| && (n < |s| ==> s[n] != 0x20) && forall i :: 0 <= i < n ==> s[i] == 0x20
    ensures Spaces(s) == n
  {
  }

  /** The text setup_commandline_tag hands to the kernel; none when the line is blank. */
  function Text(line: seq<Byte>, length: nat): seq<Byte>
    requires length < |line|
  {
    CString(line[length := 0][Spaces(line)..])
  }

  /** Nothing but spaces before the terminator. */
  predicate Blank(line: seq<Byte>) {
    Spaces(line) == |line| || line[Spaces(line)] == 0
  }

  /**
   The text is the line cut at cmdline_length, without leading spaces, exactly when the first
   other character does not lie beyond the cut.
   */
  lemma TextIsCutAndStripped(line: seq<Byte>, length: nat)
    requires length < |line| && !Blank(line)
    ensures Text(line, length) == Stripped(CString(line[length := 0])) <==> Spaces(line) <= length
  {
    var cut := line[length := 0];
    var start, whole := Spaces(line), CString(cut);
    CStringAtMost(cut, length);
    if start <= length {
      CStringAtLeast(cut, start);
      SpacesUnique(whole, start);
      CStringDrop(cut, start);
    } else {
      assert Text(line, length)[0] == line[start];
      SpacesUnique(whole, |whole|);
    }
  }

  /** A line is blank exactly when its string is nothing but spaces. */
  lemma BlankIsSpaces(line: seq<Byte>)
    ensures Blank(line) <==> forall i :: 0 <= i < |CString(line)| ==> CString(line)[i] == 0x20
  {
    CStringAtLeast(line, Spaces(line));
    if Blank(line) {
      CStringUnique(line, Spaces(line));
    } else {
      CStringAtLeast(line, Spaces(line) + 1);
      assert CString(line)[Spaces(line)] != 0x20;
    }
  }

  /** A cut within the leading spaces cuts nothing: the text is the whole line without them. */
  lemma TextBeyondCut(line: seq<Byte>, length: nat)
    requires length < Spaces(line) && !Blank(line)
    ensures Text(line, length) == Stripped(CString(line))
  {
    var start := Spaces(line);
    assert line[length := 0][start..] == line[start..];
    CStringAtLeast(line, start + 1);
    CStringDrop(line, start);
    SpacesUnique(CString(line), start);
  }

  /** A line cut where it is already terminated loses nothing. */
  lemma TextUncut(line: seq<Byte>, length: nat)
    requires length < |line| && !Blank(line) && |CString(line)| <= length
    ensures Text(line, length) == Stripped(CString(line))
  {
    var cut, whole := line[length := 0], CString(line);
    assert CString(cut) == whole by {
      assert cut[..|whole|] == line[..|whole|];
      CStringUnique(cut, |whole|);
    }
    CStringAtLeast(line, Spaces(line) + 1);
    TextIsCutAndStripped(line, length);
  }

  // ---------- writing the list ----------

  /** Words the command-line tag takes: header, string, NUL, and slack. */
  function CmdlineSize(length: nat): nat { (8 + length + 1 + 4) / 4 }

  predicate Zeroed(m: seq<Byte>, from: nat, to: nat)
    requires from <= to <= |m|
  {
    forall i :: from <= i < to ==> m[i] == 0
  }

  /** The later tags leave the earlier ones alone. */
  lemma TagsKept(m0: seq<Byte>, m1: seq<Byte>, m2: seq<Byte>, a: nat, text: seq<Byte>, given: bool)
    requires |m0| == |m1| == |m2| && a + 28 + (if given then 4 * CmdlineSize(|text|) else 0) <= |m0|
    requires Load(m0, a) == 5 && Load(m0, a + 4) == ATAG_CORE && Zeroed(m0, a + 8, a + 20)
    requires given ==> CmdlineTag(m1, a + 20, text)
    requires forall i :: a <= i < a + 20 ==> m1[i] == m0[i]
    requires var e := a + 20 + if given then 4 * CmdlineSize(|text|) else 0;
      forall i :: a <= i < e ==> m2[i] == m1[i]
    ensures Load(m2, a) == 5 && Load(m2, a + 4) == ATAG_CORE && Zeroed(m2, a + 8, a + 20)
    ensures given ==> CmdlineTag(m2, a + 20, text)
  {
    LoadSame(m0, m2, a);
    LoadSame(m0, m2, a + 4);
    if given {
      LoadSame(m1, m2, a + 20);
      LoadSame(m1, m2, a + 24);
      assert m2[a + 28..a + 28 + |text|] == m1[a + 28..a + 28 + |text|];
    }
  }

  method Strlen(line: array<Byte>, p: nat) returns (n: nat)
    requires p <= line.Length && 0 in line[p..]
    ensures n == |CString(line[p..])| && p + n < line.Length
  {
    n := 0;
    ghost var text := CString(line[p..]);
    Terminated(line[p..]);
    while line[p + n] != 0
      invariant n <= |text|
      decreases |text| - n
    {
      assert line[p..][n] != 0;
      n := n + 1;
    }
    CStringUnique(line[p..], n);
  }

  method Strcpy(ram: array<Byte>, d: nat, line: array<Byte>, p: nat)
    requires ram != line
    requires p <= line.Length && 0 in line[p..]
    requires d + |CString(line[p..])| < ram.Length
    modifies ram
    ensures forall i :: 0 <= i < |CString(line[p..])| ==> ram[d + i] == CString(line[p..])[i]
    ensures ram[d + |CString(line[p..])|] == 0
    ensures forall i :: 0 <= i < ram.Length && !(d <= i <= d + |CString(line[p..])|) ==> ram[i] == old(ram[i])
  {
    var n := Strlen(line, p);
    ghost var text := CString(line[p..]);
    for i := 0 to n
      invariant forall k :: 0 <= k < i ==> ram[d + k] == text[k]
      invariant forall k :: 0 <= k < ram.Length && !(d <= k < d + i) ==> ram[k] == old(ram[k])
    {
      ram[d + i] := line[p + i];
    }
    ram[d + n] := 0;
  }

  /** A command-line tag at a: its size, its tag word, the text and a NUL. */
  predicate CmdlineTag(m: seq<Byte>, a: nat, text: seq<Byte>)
    requires a + 8 + |text| < |m|
  {
    && Load(m, a) == CmdlineSize(|text|) && Load(m, a + 4) == ATAG_CMDLINE
    && m[a + 8..a + 8 + |text|] == text && m[a + 8 + |text|] == 0
  }

  /** Copying the text behind a header completes the tag. */
  lemma TagComplete(headed: seq<Byte>, m: seq<Byte>, a: nat, text: seq<Byte>)
    requires |m| == |headed| && a + 8 + |text| < |m|
    requires Load(headed, a) == CmdlineSize(|text|) && Load(headed, a + 4) == ATAG_CMDLINE
    requires forall i :: a <= i < a + 8 ==> m[i] == headed[i]
    requires forall i :: 0 <= i < |text| ==> m[a + 8 + i] == text[i]
    requires m[a + 8 + |text|] == 0
    ensures CmdlineTag(m, a, text)
  {
    LoadSame(headed, m, a);
    LoadSame(headed, m, a + 4);
    assert m[a + 8..a + 8 + |text|] == text;
  }

  method SkipSpaces(line: array<Byte>) returns (p: nat)
    requires 0 in line[..]
    ensures p == Spaces(line[..]) < line.Length
  {
    p := 0;
    Terminated(line[..]);
    while line[p] == 0x20
      invariant p <= Spaces(line[..])
      decreases Spaces(line[..]) - p
    {
      p := p + 1;
    }
  }

  /** A terminated line that is not blank is still terminated after its spaces once it is cut. */
  lemma TerminatorKept(line: seq<Byte>, length: nat)
    requires 0 in line && length < |line| && !Blank(line)
    ensures 0 in line[length := 0][Spaces(line)..]
  {
    var z :| 0 <= z < |line| && line[z] == 0;
    assert line[length := 0][Spaces(line)..][z - Spaces(line)] == 0;
  }

  /**
   The walk's result: the core tag with its payload, then the command line, whose payload holds
   the text and its NUL with one to four bytes to spare, then the end.
   */
  predicate Built(l: Listing, m: seq<Byte>, a: nat, text: seq<Byte>, given: bool)
    requires a + 20 <= |m|
  {
    && l.Node? && l.tag == ATAG_CORE && l.body == m[a + 8..a + 20]
    && if !given then l.rest == End(ATAG_NONE) else
         && l.rest.Node? && l.rest.tag == ATAG_CMDLINE && l.rest.rest == End(ATAG_NONE)
         && CString(l.rest.body) == text && |text| + 2 <= |l.rest.body| <= |text| + 5
  }

  /** What the walk finds where a core tag, an optional command-line tag and the end tag stand. */
  lemma WalkBuilt(m: seq<Byte>, a: nat, text: seq<Byte>, given: bool)
    requires a + 28 + (if given then 4 * CmdlineSize(|text|) else 0) <= |m|
    requires Load(m, a) == 5 && Load(m, a + 4) == ATAG_CORE
    requires given ==> CmdlineTag(m, a + 20, text) && 0 !in text
    requires var e := a + 20 + if given then 4 * CmdlineSize(|text|) else 0;
      Load(m, e) == 0 && Load(m, e + 4) == ATAG_NONE
    ensures Built(Walk(m, a), m, a, text, given)
  {
    var e := a + 20 + if given then 4 * CmdlineSize(|text|) else 0;
    assert Walk(m, e) == End(ATAG_NONE);
    if given {
      var body := m[a + 28..e];
      assert Walk(m, a + 20) == Node(ATAG_CMDLINE, body, End(ATAG_NONE));
      assert body[..|text|] == text;
      CStringUnique(body, |text|);
    }
  }

  class TagList {
    const ram: array<Byte>
    var params: nat

    constructor (ram: array<Byte>)
      ensures this.ram == ram
    {
      this.ram := ram;
      params := 0;
    }

    /** tag_next. */
    function Next(): nat
      requires params + 4 <= ram.Length
      reads this, ram
    {
      params + 4 * Load(ram[..], params)
    }

    method SetupStartTag(paddr: nat)
      requires paddr + 20 <= ram.Length
      modifies `params, ram
      ensures params == paddr + 20
      ensures Load(ram[..], paddr) == 5 && Load(ram[..], paddr + 4) == ATAG_CORE
      ensures Zeroed(ram[..], paddr + 8, paddr + 20)
      ensures forall i :: 0 <= i < ram.Length && !(paddr <= i < paddr + 20) ==> ram[i] == old(ram[i])
    {
      params := paddr;
      StoreWord(ram, params + 4, ATAG_CORE);
      StoreWord(ram, params, 5);
      ghost var headed := ram[..];
      ClearCore();
      LoadSame(headed, ram[..], params);
      LoadSame(headed, ram[..], params + 4);
      params := Next();
    }

    /** The payload of the core tag: flags, page size and root device are zero. */
    method ClearCore()
      requires params + 20 <= ram.Length
      modifies ram
      ensures Zeroed(ram[..], params + 8, params + 20)
      ensures forall i :: 0 <= i < ram.Length && !(params + 8 <= i < params + 20) ==> ram[i] == old(ram[i])
    {
      StoreWord(ram, params + 8, 0);
      StoreWord(ram, params + 12, 0);
      StoreWord(ram, params + 16, 0);
    }

    /** The tag for the string at p: header, text and NUL. */
    method PutCommandline(line: array<Byte>, p: nat, ghost text: seq<Byte>)
      requires line != ram && p <= line.Length && 0 in line[p..] && line.Length + 13 < 0x1_0000_0000
      requires text == CString(line[p..]) && params + 4 * CmdlineSize(|text|) <= ram.Length
      modifies `params, ram
      ensures params == old(params) + 4 * CmdlineSize(|text|)
      ensures CmdlineTag(ram[..], old(params), text)
      ensures forall i :: 0 <= i < ram.Length && !(old(params) <= i <= old(params) + 8 + |text|) ==>
        ram[i] == old(ram[i])
    {
      PutHeader(line, p, text);
      ghost var headed := ram[..];
      Strcpy(ram, params + 8, line, p);
      TagComplete(headed, ram[..], params, text);
      params := Next();
    }

    method PutHeader(line: array<Byte>, p: nat, ghost text: seq<Byte>)
      requires p <= line.Length && 0 in line[p..] && line.Length + 13 < 0x1_0000_0000
      requires text == CString(line[p..]) && params + 8 <= ram.Length && line != ram
      modifies ram
      ensures Load(ram[..], params) == CmdlineSize(|text|) && Load(ram[..], params + 4) == ATAG_CMDLINE
      ensures forall i :: 0 <= i < ram.Length && !(params <= i < params + 8) ==> ram[i] == old(ram[i])
    {
      StoreWord(ram, params + 4, ATAG_CMDLINE);
      var n := Strlen(line, p);
      ghost var tagged := ram[..];
      StoreWord(ram, params, CmdlineSize(n));
      LoadSame(tagged, ram[..], params + 4);
    }

    /** The command line is absent, blank, or becomes one tag; its buffer is cut in place. */
    method SetupCommandlineTag(line: array?<Byte>, length: nat)
      requires line != null ==> line != ram && 0 in line[..] && line.Length + 13 < 0x1_0000_0000
      requires line != null && !Blank(line[..]) ==>
        length < line.Length && params + 4 * CmdlineSize(|Text(line[..], length)|) <= ram.Length
      modifies `params, ram
      modifies if line == null then {} else {line}
      ensures line == null || Blank(old(line[..])) ==>
        params == old(params) && ram[..] == old(ram[..]) && (line != null ==> line[..] == old(line[..]))
      ensures line != null && !Blank(old(line[..])) ==>
        var text := Text(old(line[..]), length);
        && line[..] == old(line[..])[length := 0]
        && params == old(params) + 4 * CmdlineSize(|text|)
        && CmdlineTag(ram[..], old(params), text)
        && forall i :: 0 <= i < ram.Length && !(old(params) <= i <= old(params) + 8 + |text|) ==> ram[i] == old(ram[i])
    {
      if line == null {
        return;
      }
      var p := SkipSpaces(line);
      if line[p] == 0 {
        return;
      }
      ghost var cut := line[..][length := 0];
      TerminatorKept(line[..], length);
      line[length] := 0;
      assert line[..] == cut;
      PutCommandline(line, p, CString(cut[p..]));
    }

    method SetupEndTag()
      requires params + 8 <= ram.Length
      modifies ram
      ensures Load(ram[..], params) == 0 && Load(ram[..], params + 4) == ATAG_NONE
      ensures forall i :: 0 <= i < ram.Length && !(params <= i < params + 8) ==> ram[i] == old(ram[i])
    {
      StoreWord(ram, params + 4, ATAG_NONE);
      StoreWord(ram, params, 0);
    }

    /** do_boot_linux: the whole list, and what the kernel's walk makes of it. */
    method DoBootLinux(paddr: nat, line: array?<Byte>, length: nat)
      requires line != null ==> line != ram && 0 in line[..] && line.Length + 13 < 0x1_0000_0000
      requires paddr + 28 <= ram.Length
      requires line != null && !Blank(line[..]) ==>
        length < line.Length && paddr + 28 + 4 * CmdlineSize(|Text(line[..], length)|) <= ram.Length
      modifies `params, ram
      modifies if line == null then {} else {line}
      ensures line == null || Blank(old(line[..])) ==> Built(Walk(ram[..], paddr), ram[..], paddr, [], false)
      ensures line != null && !Blank(old(line[..])) ==>
        && Built(Walk(ram[..], paddr), ram[..], paddr, Text(old(line[..]), length), true)
        && line[..] == old(line[..])[length := 0]
      ensures Zeroed(ram[..], paddr + 8, paddr + 20)
      ensures params + 8 <= ram.Length
      ensures forall i :: 0 <= i < ram.Length && !(paddr <= i < params + 8) ==> ram[i] == old(ram[i])
    {
      ghost var given := line != null && !Blank(line[..]);
      ghost var text := if given then Text(line[..], length) else [];
      SetupStartTag(paddr);
      ghost var started := ram[..];
      SetupCommandlineTag(line, length);
      ghost var lined := ram[..];
      SetupEndTag();
      TagsKept(started, lined, ram[..], paddr, text, given);
      WalkBuilt(ram[..], paddr, text, given);
    }
  }
}
