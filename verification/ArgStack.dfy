/** userprog/process.c, setup_stack_arguments: a command line is split by strtok_r and laid out on the
    initial user stack so that a program finds argc and argv there. */
module ArgStack {
  import opened Basics
  import opened Bits
  import opened CText
  import opened InodeIO

  const SPACE: Byte := 32
  const PHYS_BASE: nat := 0xc000_0000
  const PGSIZE: nat := 4096
  const MAX_ARGS: nat := 128

  // The part of user memory below PHYS_BASE that arguments can reach: the page setup_stack maps, and
  // one more, which a page fault brings in when the strings and pointers outgrow the first.
  const STACK_SIZE: nat := 2 * PGSIZE
  const STACK: nat := PHYS_BASE - STACK_SIZE

  // ------------------------------------------------------------------
  // Space-separated words

  function SkipSpaces(s: Text): Text {
    if s != [] && s[0] == SPACE then SkipSpaces(s[1..]) else s
  }

  function WordLength(s: Text): (n: nat)
    ensures n <= |s| && (n < |s| ==> s[n] == SPACE) && forall i :: 0 <= i < n ==> s[i] != SPACE
  {
    if s == [] || s[0] == SPACE then 0 else 1 + WordLength(s[1..])
  }

  lemma {:induction false} SkipShrinks(s: Text)
    ensures |SkipSpaces(s)| <= |s| && (SkipSpaces(s) != [] ==> SkipSpaces(s)[0] != SPACE)
  {
    if s != [] && s[0] == SPACE { SkipShrinks(s[1..]); }
  }

  function Tokens(s: Text): (r: seq<Text>)
    decreases |s|
  {
    SkipShrinks(s);
    var w := SkipSpaces(s);
    if w == [] then []
    else
      var n := WordLength(w);
      [w[..n]] + Tokens(w[n..])
  }

  /** The laws that say what the words of a line are: nothing has none, a leading space makes no difference,
      and a word ends at the end or at the next space. */
  lemma WordLaws(w: Text, s: Text)
    requires w != [] && forall i :: 0 <= i < |w| ==> w[i] != 32
    ensures Tokens([]) == [] && Tokens([32] + s) == Tokens(s) && Tokens(w) == [w]
            && Tokens(w + [32] + s) == [w] + Tokens(s)
  {
    var t := [32] + s;
    assert t[1..] == s;
    SpaceSkipped(t);
    WordFirst(w, []);
    assert w + [] == w;
    WordFirst(w, t);
    assert w + t == w + [32] + s;
  }

  lemma WordFirst(w: Text, t: Text)
    requires w != [] && (forall i :: 0 <= i < |w| ==> w[i] != 32) && (t != [] ==> t[0] == 32)
    ensures Tokens(w + t) == [w] + Tokens(t)
  {
    var s := w + t;
    WordEnds(s, |w|);
    assert SkipSpaces(s) == s && s[..|w|] == w && s[|w|..] == t;
  }

  lemma {:induction false} WordEnds(s: Text, n: nat)
    requires n <= |s| && (forall i :: 0 <= i < n ==> s[i] != 32) && (n < |s| ==> s[n] == 32)
    ensures WordLength(s) == n
  {
    if n > 0 { WordEnds(s[1..], n - 1); }
  }

  // ------------------------------------------------------------------
  // strtok_r

  /** The string that starts at p is s. */
  ghost predicate StrAt(buf: seq<Byte>, p: nat, s: Text) {
    p + |s| < |buf| && buf[p..p + |s|] == s && buf[p + |s|] == 0
  }

  /** strtok_r's first loop: past any spaces, to a token or to the end. */
  method SkipDelimiters(buf: array<Byte>, from: nat, ghost n: nat) returns (s: nat)
    requires from <= n < buf.Length && buf[n] == 0 && NoNulls(buf[from..n])
    ensures from <= s <= n && SkipSpaces(buf[from..n]) == buf[s..n] && buf[s] != SPACE && (buf[s] == 0 <==> s == n)
  {
    s := from;
    while buf[s] == SPACE
      invariant from <= s <= n && SkipSpaces(buf[from..n]) == SkipSpaces(buf[s..n])
      decreases n - s
    {
      assert buf[s..n][1..] == buf[s + 1..n];
      s := s + 1;
    }
    NullIsEnd(buf[..], from, n, s);
  }

  /** strtok_r's second loop: to the end of the token. */
  method TokenEnd(buf: array<Byte>, t: nat, ghost n: nat) returns (s: nat)
    requires t <= n < buf.Length && buf[n] == 0 && NoNulls(buf[t..n])
    ensures t <= s <= n && s - t == WordLength(buf[t..n]) && (buf[s] == 0 <==> s == n) && (s < n ==> buf[s] == SPACE)
  {
    s := t;
    while buf[s] != 0 && buf[s] != SPACE
      invariant t <= s <= n && WordLength(buf[t..n]) == s - t + WordLength(buf[s..n])
      decreases n - s
    {
      assert buf[s..n][1..] == buf[s + 1..n];
      s := s + 1;
    }
    NullIsEnd(buf[..], t, n, s);
  }

  lemma NullIsEnd(buf: seq<Byte>, from: nat, n: nat, s: nat)
    requires from <= s <= n < |buf| && NoNulls(buf[from..n]) && buf[n] == 0
    ensures buf[s] == 0 <==> s == n
  {
    assert s < n ==> buf[from..n][s - from] == buf[s];
  }

  /** strtok_r (.., " ", ..) from position `from` of a string that ends at n: the next token ends in
      a null byte, and what is left starts at `save`. */
  method Strtok(buf: array<Byte>, from: nat, ghost n: nat) returns (token: Option<nat>, save: nat)
    requires from <= n < buf.Length && buf[n] == 0 && NoNulls(buf[from..n])
    modifies buf
    ensures from <= save <= n && buf[n] == 0 && buf[..from] == old(buf[..from]) && NoNulls(buf[save..n])
    ensures if token == None then Tokens(old(buf[from..n])) == [] && buf[..] == old(buf[..])
            else
              && from <= token.value < save && Tokens(old(buf[from..n])) != []
              && var word := Tokens(old(buf[from..n]))[0];
                 && (token.value + |word| < save || token.value + |word| == save == n)
                 && StrAt(buf[..], token.value, word)
                 && Tokens(buf[save..n]) == Tokens(old(buf[from..n]))[1..]
  {
    var s: nat;
    token, s := FindToken(buf, from, n);
    Later(buf[..], from, s, n);
    if token == None {
      return None, s;
    }
    ghost var t, word := token.value, buf[token.value..s];
    assert Tokens(old(buf[from..n])) == [word] + Tokens(old(buf[s..n]));
    if buf[s] != 0 {
      SpaceSkipped(buf[s..n]);
      assert buf[s..n][1..] == buf[s + 1..n];
      buf[s] := 0;
      save := s + 1;
      assert buf[save..n] == old(buf[s..n])[1..];
    } else {
      save := s;
    }
    assert buf[t..s] == word;
  }

  method FindToken(buf: array<Byte>, from: nat, ghost n: nat) returns (token: Option<nat>, s: nat)
    requires from <= n < buf.Length && buf[n] == 0 && NoNulls(buf[from..n])
    ensures from <= s <= n && (buf[s] == 0 <==> s == n) && (token.Some? && s < n ==> buf[s] == SPACE)
    ensures token == None ==> Tokens(buf[from..n]) == []
    ensures token.Some? ==> from <= token.value < s && Tokens(buf[from..n]) == [buf[token.value..s]] + Tokens(buf[s..n])
  {
    var t := SkipDelimiters(buf, from, n);
    SkipShrinks(buf[from..n]);
    if buf[t] == 0 {
      return None, t;
    }
    Later(buf[..], from, t, n);
    s := TokenEnd(buf, t, n);
    ghost var w := buf[t..n];
    assert w[..s - t] == buf[t..s] && w[s - t..] == buf[s..n];
    token := Some(t);
  }

  lemma Later(buf: seq<Byte>, from: nat, t: nat, n: nat)
    requires from <= t <= n <= |buf| && NoNulls(buf[from..n])
    ensures NoNulls(buf[t..n])
  {
    assert buf[t..n] == buf[from..n][t - from..];
  }

  lemma SpaceSkipped(s: Text)
    requires s != [] && s[0] == SPACE
    ensures Tokens(s) == Tokens(s[1..])
  {
    SkipShrinks(s);
    SkipShrinks(s[1..]);
  }

  // ------------------------------------------------------------------
  // The stack image

  /** A 32-bit word, least significant byte first. */
  function Le32(w: nat): (s: seq<Byte>)
    ensures |s| == 4
  {
    [w % 256, w / 256 % 256, w / 65536 % 256, w / 16777216 % 256]
  }

  function WordAt(s: seq<Byte>, o: nat): nat
    requires o + 4 <= |s|
  {
    s[o] as int + 256 * (s[o + 1] as int) + 65536 * (s[o + 2] as int) + 16777216 * (s[o + 3] as int)
  }

  lemma WordRoundTrip(w: nat)
    requires w < 0x1_0000_0000
    ensures WordAt(Le32(w), 0) == w
  {
    var a, b, c := w / 256, w / 65536, w / 16777216;
    assert b == a / 256 && c == b / 256 && c < 256;
    assert w == w % 256 + 256 * a && a == a % 256 + 256 * b && b == b % 256 + 256 * c;
  }

  /** The argument strings, each with its null byte, first argument lowest. */
  function Strings(ts: seq<Text>): seq<Byte> {
    if ts == [] then [] else ts[0] + [0] + Strings(ts[1..])
  }

  /** Where argument i ends up. */
  function AddrOf(ts: seq<Text>, i: nat): int
    requires i <= |ts|
  {
    PHYS_BASE - |Strings(ts[i..])|
  }

  /** What the padding formula, (4 - addr % 4) % 4, comes to. */
  function Padding(addr: int): (n: nat)
    ensures n == (4 - addr % 4) % 4
  {
    if addr % 4 == 0 then 0 else 4 - addr % 4
  }

  function Zeros(n: nat): (s: seq<Byte>)
    ensures |s| == n
  {
    if n == 0 then [] else [0] + Zeros(n - 1)
  }

  function Pointers(ts: seq<Text>, i: nat): (s: seq<Byte>)
    requires i <= |ts| && |Strings(ts)| <= PHYS_BASE
    ensures |s| == 4 * (|ts| - i)
    decreases |ts| - i
  {
    if i == |ts| then []
    else
      StringsSuffix(ts, i);
      Le32(AddrOf(ts, i)) + Pointers(ts, i + 1)
  }

  lemma {:induction false} StringsSuffix(ts: seq<Text>, i: nat)
    requires i <= |ts|
    ensures |Strings(ts[i..])| <= |Strings(ts)|
    ensures Strings(ts)[|Strings(ts)| - |Strings(ts[i..])|..] == Strings(ts[i..])
    decreases i
  {
    if i == 0 {
      assert ts[0..] == ts;
    } else {
      assert ts[1..][i - 1..] == ts[i..];
      StringsSuffix(ts[1..], i - 1);
    }
  }

  /** Bytes from the final stack pointer up to PHYS_BASE. */
  function Footprint(ts: seq<Text>): nat {
    |Strings(ts)| + Padding(AddrOf(ts, 0)) + 4 * |ts| + 16
  }

  function ArgvAddr(ts: seq<Text>): int { PHYS_BASE - Footprint(ts) + 12 }

  /** Everything below the strings: return address, argc, argv, the pointers, the null sentinel and
      the padding. */
  function Image(ts: seq<Text>): (s: seq<Byte>)
    requires Footprint(ts) <= STACK_SIZE
    ensures |s| == Footprint(ts)
  {
    assert ts[0..] == ts;
    Le32(0) + Le32(|ts|) + Le32(ArgvAddr(ts)) + Pointers(ts, 0) + Le32(0) + Zeros(Padding(AddrOf(ts, 0))) + Strings(ts)
  }

  /** strlcpy (cmd_copy, cmd_line, PGSIZE) */
  function Copied(line: Text): (r: Text)
    ensures r <= line && |r| == if |line| <= 4095 then |line| else 4095
  {
    if |line| < PGSIZE then line else line[..PGSIZE - 1]
  }

  /** Whatever the command line, its arguments fit two pages, unless there are too many of them; a
      line of at most 127 characters leaves room to spare in one. */
  lemma LinesFit(line: Text)
    ensures |Tokens(Copied(line))| < MAX_ARGS ==> Footprint(Tokens(Copied(line))) <= STACK_SIZE
    ensures |line| <= 127 ==> Footprint(Tokens(Copied(line))) <= 403 && |Tokens(Copied(line))| <= 64
  {
    TokensBound(Copied(line));
    assert Tokens(Copied(line))[0..] == Tokens(Copied(line));
  }

  lemma {:induction false} TokensBound(s: Text)
    ensures |Strings(Tokens(s))| <= |s| + 1 && 2 * |Tokens(s)| <= |s| + 1
    ensures Tokens(s) != [] ==> forall i :: 0 <= i < |Tokens(s)| ==> Tokens(s)[i] != []
    decreases |s|
  {
    SkipShrinks(s);
    var w := SkipSpaces(s);
    if w != [] {
      var n := WordLength(w);
      var rest := w[n..];
      if rest == [] {
        assert Tokens(rest) == [] by { SkipShrinks(rest); }
      } else {
        SpaceSkipped(rest);
        TokensBound(rest[1..]);
      }
      assert Tokens(s)[1..] == Tokens(rest);
    }
  }

  // ------------------------------------------------------------------
  // Reading the stack back

  /** What a program sees: s is memory from the stack pointer esp up to PHYS_BASE. */
  function Argc(s: seq<Byte>): nat
    requires |s| >= 12
  {
    WordAt(s, 4)
  }

  /** argv[i], as an address. */
  function Argv(s: seq<Byte>, esp: nat, i: nat): nat
    requires |s| >= 12 && esp <= WordAt(s, 8) && WordAt(s, 8) - esp + 4 * i + 4 <= |s|
  {
    WordAt(s, WordAt(s, 8) - esp + 4 * i)
  }

  lemma WordIn(a: seq<Byte>, b: seq<Byte>, c: seq<Byte>, o: nat)
    requires o + 4 <= |b|
    ensures WordAt(a + b + c, |a| + o) == WordAt(b, o)
  {
    var s := a + b + c;
    assert forall k :: 0 <= k < |b| ==> s[|a| + k] == b[k];
  }

  lemma {:induction false} PointerAt(ts: seq<Text>, j: nat, i: nat)
    requires j <= i < |ts| && |Strings(ts)| <= PHYS_BASE
    ensures WordAt(Pointers(ts, j), 4 * (i - j)) == AddrOf(ts, i)
    decreases i - j
  {
    StringsSuffix(ts, j);
    var head, tail := Le32(AddrOf(ts, j)), Pointers(ts, j + 1);
    if i == j {
      WordRoundTrip(AddrOf(ts, j));
      WordIn([], head, tail, 0);
      assert [] + head + tail == Pointers(ts, j);
    } else {
      PointerAt(ts, j + 1, i);
      WordIn(head, tail, [], 4 * (i - j - 1));
      assert head + tail + [] == Pointers(ts, j);
    }
  }

  lemma HeadWords(a: seq<Byte>, b: seq<Byte>, c: seq<Byte>, rest: seq<Byte>)
    requires |a| == |b| == |c| == 4
    ensures var s := a + b + c + rest;
            WordAt(s, 0) == WordAt(a, 0) && WordAt(s, 4) == WordAt(b, 0) && WordAt(s, 8) == WordAt(c, 0)
  {
  }

  /** argc, argv and the null sentinel. */
  lemma HeaderDecodes(ts: seq<Text>)
    requires Footprint(ts) <= STACK_SIZE
    ensures var s, esp := Image(ts), PHYS_BASE - Footprint(ts);
            && WordAt(s, 0) == 0 && Argc(s) == |ts| && WordAt(s, 8) == esp + 12
            && Argv(s, esp, |ts|) == 0
  {
    var s := Image(ts);
    var ptrs, tail := Pointers(ts, 0), Zeros(Padding(AddrOf(ts, 0))) + Strings(ts);
    WordRoundTrip(0);
    WordRoundTrip(|ts|);
    WordRoundTrip(ArgvAddr(ts));
    HeadWords(Le32(0), Le32(|ts|), Le32(ArgvAddr(ts)), ptrs + Le32(0) + tail);
    assert s == Le32(0) + Le32(|ts|) + Le32(ArgvAddr(ts)) + (ptrs + Le32(0) + tail);
    SentinelAt(Le32(0) + Le32(|ts|) + Le32(ArgvAddr(ts)), ptrs, tail, s);
  }

  lemma SentinelAt(head: seq<Byte>, ptrs: seq<Byte>, tail: seq<Byte>, s: seq<Byte>)
    requires s == head + (ptrs + Le32(0) + tail)
    ensures WordAt(s, |head| + |ptrs|) == 0
  {
    WordIn(head + ptrs, Le32(0), tail, 0);
    assert s == head + ptrs + Le32(0) + tail;
  }

  /** argv[i] points to argument i, which lies on the stack above everything else. */
  lemma ArgumentDecodes(ts: seq<Text>, i: nat)
    requires Footprint(ts) <= STACK_SIZE && i < |ts| && NoNulls(ts[i])
    ensures var s, esp := Image(ts), PHYS_BASE - Footprint(ts);
            && WordAt(s, 8) == esp + 12 && Argv(s, esp, i) == AddrOf(ts, i)
            && esp + 16 + 4 * |ts| <= AddrOf(ts, i) && AddrOf(ts, i) + |ts[i]| + 1 == AddrOf(ts, i + 1) <= PHYS_BASE
            && CString(s[AddrOf(ts, i) - esp..]) == ts[i]
  {
    HeaderDecodes(ts);
    PointerDecodes(ts, i);
    StringDecodes(ts, i);
  }

  lemma PointerDecodes(ts: seq<Text>, i: nat)
    requires Footprint(ts) <= STACK_SIZE && i < |ts|
    ensures WordAt(Image(ts), 12 + 4 * i) == AddrOf(ts, i)
  {
    var s := Image(ts);
    var head, ptrs, tail := Le32(0) + Le32(|ts|) + Le32(ArgvAddr(ts)), Pointers(ts, 0),
        Le32(0) + Zeros(Padding(AddrOf(ts, 0))) + Strings(ts);
    assert s == head + ptrs + tail;
    PointerAt(ts, 0, i);
    WordIn(head, ptrs, tail, 4 * i);
  }

  lemma StringDecodes(ts: seq<Text>, i: nat)
    requires Footprint(ts) <= STACK_SIZE && i < |ts| && NoNulls(ts[i])
    ensures var s, esp := Image(ts), PHYS_BASE - Footprint(ts);
            && esp + 16 + 4 * |ts| <= AddrOf(ts, i) && AddrOf(ts, i) + |ts[i]| + 1 == AddrOf(ts, i + 1) <= PHYS_BASE
            && CString(s[AddrOf(ts, i) - esp..]) == ts[i]
  {
    var s, esp, strings := Image(ts), PHYS_BASE - Footprint(ts), Strings(ts);
    StringsSuffix(ts, i);
    assert ts[0..] == ts;
    StringsFrom(ts, i);
    CStringIs(ts[i], Strings(ts[i + 1..]));
    Tail(s[..|s| - |strings|], strings, |strings| - |Strings(ts[i..])|);
    ImageEnds(ts);
  }

  lemma StringsFrom(ts: seq<Text>, i: nat)
    requires i < |ts|
    ensures Strings(ts[i..]) == ts[i] + [0] + Strings(ts[i + 1..])
  {
    assert ts[i..][0] == ts[i] && ts[i..][1..] == ts[i + 1..];
  }

  lemma ImageEnds(ts: seq<Text>)
    requires Footprint(ts) <= STACK_SIZE
    ensures |Strings(ts)| <= |Image(ts)| && Image(ts) == Image(ts)[..|Image(ts)| - |Strings(ts)|] + Strings(ts)
  {
    assert ts[0..] == ts;
  }

  lemma Tail(a: seq<Byte>, b: seq<Byte>, k: nat)
    requires k <= |b|
    ensures (a + b)[|a| + k..] == b[k..]
  {
  }

  /** The padding leaves the pointers word-aligned exactly if the strings take an even number of bytes. */
  lemma AlignedIffEven(ts: seq<Text>)
    requires Footprint(ts) <= STACK_SIZE
    ensures ArgvAddr(ts) % 4 == 0 <==> |Strings(ts)| % 2 == 0
  {
    assert ts[0..] == ts;
    PaddingParity(AddrOf(ts, 0), |ts|);
    EvenBase(|Strings(ts)|);
  }

  lemma EvenBase(n: nat)
    requires n <= PHYS_BASE
    ensures (PHYS_BASE - n) % 2 == 0 <==> n % 2 == 0
  {
    DivModUnique(PHYS_BASE - n, 2, PHYS_BASE / 2 - n / 2 - n % 2, n % 2);
  }

  lemma PaddingParity(addr: nat, n: nat)
    ensures (addr - Padding(addr) - 4 * n - 4) % 4 == 0 <==> addr % 2 == 0
  {
    var q, r := addr / 4, addr % 4;
    DivModUnique(addr, 2, 2 * q + r / 2, r % 2);
    if r == 0 {
      Mod4(q - n - 1, 0);
    } else if r == 1 {
      Mod4(q - n - 2, 2);
    } else if r == 2 {
      Mod4(q - n - 1, 0);
    } else {
      Mod4(q - n - 1, 2);
    }
  }

  lemma Mod4(q: int, r: nat)
    requires r < 4
    ensures (4 * q + r) % 4 == r
  {
    DivModUnique(4 * q + r, 4, q, r);
  }

  // ------------------------------------------------------------------
  // setup_stack_arguments

  /** Splits the copy of the command line in place; fails at 128 arguments. */
  method Split(buf: array<Byte>, n: nat) returns (ok: bool, argv: seq<nat>)
    requires n < buf.Length && buf[n] == 0 && NoNulls(buf[..n])
    modifies buf
    ensures ok <==> |Tokens(old(buf[..n]))| < 128
    ensures ok ==>
              && |argv| == |Tokens(old(buf[..n]))|
              && forall i :: 0 <= i < |argv| ==> StrAt(buf[..], argv[i], Tokens(old(buf[..n]))[i])
  {
    assert buf[0..n] == buf[..n];
    ghost var all := Tokens(buf[..n]);
    argv := [];
    var from := 0;
    var token: Option<nat>;
    token, from := Strtok(buf, 0, n);
    while token.Some?
      invariant from <= n && buf[n] == 0 && NoNulls(buf[from..n])
      invariant |argv| < MAX_ARGS && |argv| <= |all|
      invariant Found(buf[..], argv, all, from, n)
      invariant if token == None then |argv| == |all|
                else
                  && |argv| < |all| && InBuf(buf[..], token.value, all[|argv|], from, n)
                  && Tokens(buf[from..n]) == all[|argv| + 1..]
      decreases |all| - |argv|
    {
      argv := argv + [token.value];
      if |argv| >= MAX_ARGS {
        return false, argv;
      }
      ghost var before, start := buf[..], from;
      token, from := Strtok(buf, from, n);
      StillFound(before, buf[..], argv, all, start, from, n);
    }
    ok := true;
  }

  /** A token before `from`, or ending at the very end. */
  ghost predicate InBuf(buf: seq<Byte>, p: nat, t: Text, from: nat, n: nat) {
    StrAt(buf, p, t) && (p + |t| < from || p + |t| == n == from)
  }

  ghost predicate Found(buf: seq<Byte>, argv: seq<nat>, all: seq<Text>, from: nat, n: nat)
    requires |argv| <= |all|
  {
    forall i {:trigger argv[i]} :: 0 <= i < |argv| ==> InBuf(buf, argv[i], all[i], from, n)
  }

  /** Tokens found stay as they are while the rest is split. */
  lemma StillFound(buf: seq<Byte>, buf': seq<Byte>, argv: seq<nat>, all: seq<Text>, from: nat, from': nat, n: nat)
    requires |argv| <= |all| && Found(buf, argv, all, from, n) && from <= from' <= n < |buf| == |buf'|
    requires buf'[..from] == buf[..from] && buf'[n] == 0
    ensures Found(buf', argv, all, from', n)
  {
    forall i | 0 <= i < |argv| ensures InBuf(buf', argv[i], all[i], from', n) {
      var p, t := argv[i], all[i];
      assert InBuf(buf, p, t, from, n);
      assert buf'[p..p + |t|] == buf'[..from][p..p + |t|] == buf[..from][p..p + |t|] == buf[p..p + |t|];
      assert p + |t| < from ==> buf'[p + |t|] == buf'[..from][p + |t|] == buf[..from][p + |t|];
    }
  }

  /** *esp -= |bytes|, and the bytes are stored there.  mem[0] is at STACK. */
  method Push(mem: array<Byte>, esp: nat, bytes: seq<Byte>) returns (esp': nat)
    requires mem.Length == STACK_SIZE && STACK + |bytes| <= esp <= PHYS_BASE
    modifies mem
    ensures esp' == esp - |bytes| && mem[esp' - STACK..] == bytes + old(mem[esp - STACK..])
    ensures forall k :: 0 <= k < esp' - STACK ==> mem[k] == old(mem[k])
  {
    esp' := esp - |bytes|;
    var at := esp' - STACK;
    forall k | 0 <= k < |bytes| {
      mem[at + k] := bytes[k];
    }
  }

  /** strlen, and the string itself, for memcpy. */
  method ReadString(buf: array<Byte>, p: nat, ghost t: Text) returns (s: Text)
    requires StrAt(buf[..], p, t) && NoNulls(t)
    ensures s == t
  {
    ghost var w := buf[p..p + |t|];
    assert forall k :: 0 <= k < |t| ==> w[k] == buf[p + k];
    var n := 0;
    while buf[p + n] != 0
      invariant n <= |t|
      decreases |t| - n
    {
      n := n + 1;
    }
    s := buf[p..p + n];
  }

  /** Step 1: the strings, last argument first. */
  method PushStrings(mem: array<Byte>, buf: array<Byte>, argv: seq<nat>, ghost ts: seq<Text>)
        returns (esp: nat, addrs: seq<nat>)
    requires mem.Length == STACK_SIZE && mem != buf && |argv| == |ts| && |Strings(ts)| <= STACK_SIZE
    requires forall i :: 0 <= i < |ts| ==> StrAt(buf[..], argv[i], ts[i]) && NoNulls(ts[i])
    modifies mem
    ensures esp == PHYS_BASE - |Strings(ts)| && mem[esp - STACK..] == Strings(ts)
    ensures forall k :: 0 <= k < esp - STACK ==> mem[k] == old(mem[k])
    ensures |addrs| == |ts| && forall i :: 0 <= i < |ts| ==> addrs[i] == AddrOf(ts, i)
  {
    var i := |argv|;
    esp, addrs := PHYS_BASE, argv;
    while i > 0
      invariant 0 <= i <= |ts| == |addrs| && esp == AddrOf(ts, i) && |Strings(ts[i..])| <= |Strings(ts)|
      invariant mem[esp - STACK..] == Strings(ts[i..]) && forall k :: 0 <= k < esp - STACK ==> mem[k] == old(mem[k])
      invariant forall j :: i <= j < |ts| ==> addrs[j] == AddrOf(ts, j)
    {
      i := i - 1;
      StringsSuffix(ts, i);
      assert ts[i..][0] == ts[i] && ts[i..][1..] == ts[i + 1..];
      var s := ReadString(buf, argv[i], ts[i]);
      assert (s + [0]) + Strings(ts[i + 1..]) == Strings(ts[i..]);
      esp := Push(mem, esp, s + [0]);
      addrs := addrs[i := esp];
    }
    assert ts[0..] == ts;
  }

  /** Steps 2 and 3: padding, the null sentinel, and the pointers, last argument first. */
  method PushPointers(mem: array<Byte>, esp0: nat, addrs: seq<nat>, ghost ts: seq<Text>) returns (esp: nat)
    requires mem.Length == STACK_SIZE && Footprint(ts) <= STACK_SIZE && esp0 == AddrOf(ts, 0)
             && mem[esp0 - STACK..] == Strings(ts)
    requires |addrs| == |ts| && forall i :: 0 <= i < |ts| ==> addrs[i] == AddrOf(ts, i)
    modifies mem
    ensures esp == ArgvAddr(ts) && mem[esp - STACK..] == Pointers(ts, 0) + Above(ts)
    ensures forall k :: 0 <= k < esp - STACK ==> mem[k] == old(mem[k])
  {
    assert ts[0..] == ts;
    esp := PushPadding(mem, esp0, ts);
    esp := PushAddresses(mem, esp, addrs, ts, ArgvAddr(ts));
  }

  method PushAddresses(mem: array<Byte>, esp0: nat, addrs: seq<nat>, ghost ts: seq<Text>, ghost base: nat)
        returns (esp: nat)
    requires mem.Length == STACK_SIZE && |Strings(ts)| <= PHYS_BASE
    requires STACK <= base && esp0 == base + 4 * |ts| <= PHYS_BASE && mem[esp0 - STACK..] == Above(ts)
    requires |addrs| == |ts| && forall i :: 0 <= i < |ts| ==> addrs[i] == AddrOf(ts, i)
    modifies mem
    ensures esp == base && mem[esp - STACK..] == Pointers(ts, 0) + Above(ts)
    ensures forall k :: 0 <= k < esp - STACK ==> mem[k] == old(mem[k])
  {
    esp := esp0;
    var i := |addrs|;
    assert Pointers(ts, i) + Above(ts) == Above(ts);
    while i > 0
      invariant 0 <= i <= |ts| && esp == base + 4 * i && mem[esp - STACK..] == Pointers(ts, i) + Above(ts)
      invariant forall k :: 0 <= k < esp - STACK ==> mem[k] == old(mem[k])
    {
      i := i - 1;
      esp := PushPointer(mem, esp, addrs[i], ts, i);
    }
  }

  method PushPointer(mem: array<Byte>, esp0: nat, addr: nat, ghost ts: seq<Text>, ghost i: nat) returns (esp: nat)
    requires mem.Length == STACK_SIZE && i < |ts| && |Strings(ts)| <= PHYS_BASE && addr == AddrOf(ts, i)
    requires STACK + 4 <= esp0 <= PHYS_BASE && mem[esp0 - STACK..] == Pointers(ts, i + 1) + Above(ts)
    modifies mem
    ensures esp == esp0 - 4 && mem[esp - STACK..] == Pointers(ts, i) + Above(ts)
    ensures forall k :: 0 <= k < esp - STACK ==> mem[k] == old(mem[k])
  {
    PointerPushed(ts, i);
    esp := Push(mem, esp0, Le32(addr));
  }

  method PushPadding(mem: array<Byte>, esp0: nat, ghost ts: seq<Text>) returns (esp: nat)
    requires mem.Length == STACK_SIZE && Footprint(ts) <= STACK_SIZE && esp0 == AddrOf(ts, 0)
             && mem[esp0 - STACK..] == Strings(ts)
    requires esp0 == PHYS_BASE - |Strings(ts)|
    modifies mem
    ensures esp == ArgvAddr(ts) + 4 * |ts| && mem[esp - STACK..] == Above(ts)
    ensures forall k :: 0 <= k < esp - STACK ==> mem[k] == old(mem[k])
  {
    var align := (4 - esp0 % 4) % 4;
    esp := Push(mem, esp0, Zeros(align));
    esp := Push(mem, esp, Le32(0));
  }

  /** What lies above the pointers. */
  ghost function Above(ts: seq<Text>): seq<Byte> {
    Le32(0) + (Zeros(Padding(AddrOf(ts, 0))) + Strings(ts))
  }

  lemma PointerPushed(ts: seq<Text>, i: nat)
    requires i < |ts| && |Strings(ts)| <= PHYS_BASE
    ensures AddrOf(ts, i) >= 0 && Le32(AddrOf(ts, i)) + (Pointers(ts, i + 1) + Above(ts)) == Pointers(ts, i) + Above(ts)
  {
    StringsSuffix(ts, i);
  }

  lemma ImageParts(ts: seq<Text>)
    requires Footprint(ts) <= STACK_SIZE && |Strings(ts)| <= PHYS_BASE
    ensures Le32(0) + (Le32(|ts|) + (Le32(ArgvAddr(ts)) + (Pointers(ts, 0) + Above(ts)))) == Image(ts)
  {
  }

  /** Steps 4 to 6: argv, argc and a return address. */
  method PushHeader(mem: array<Byte>, esp0: nat, argc: nat, ghost ts: seq<Text>) returns (esp: nat)
    requires mem.Length == STACK_SIZE && Footprint(ts) <= STACK_SIZE && |Strings(ts)| <= PHYS_BASE && argc == |ts|
             && esp0 == ArgvAddr(ts)
    requires mem[esp0 - STACK..] == Pointers(ts, 0) + Above(ts)
    modifies mem
    ensures esp == PHYS_BASE - Footprint(ts) && mem[esp - STACK..] == Image(ts)
    ensures forall k :: 0 <= k < esp - STACK ==> mem[k] == old(mem[k])
  {
    esp := Push(mem, esp0, Le32(esp0));
    esp := Push(mem, esp, Le32(argc));
    esp := Push(mem, esp, Le32(0));
    ImageParts(ts);
  }

  /** The stack holds exactly the image of the tokens, and nothing below it has been touched; with
      128 tokens or more, or without a page for the copy, the stack is left alone. */
  method SetupStackArguments(mem: array<Byte>, line: Text, memory: bool) returns (ok: bool, esp: nat)
    requires mem.Length == STACK_SIZE && NoNulls(line)
    modifies mem
    ensures ok <==> memory && |Tokens(Copied(line))| < 128
    ensures !ok ==> mem[..] == old(mem[..])
    ensures ok ==>
              var ts := Tokens(Copied(line));
              && Footprint(ts) <= STACK_SIZE && esp == 0xc000_0000 - Footprint(ts) && mem[esp - STACK..] == Image(ts)
              && forall k :: 0 <= k < esp - STACK ==> mem[k] == old(mem[k])
  {
    if !memory {
      return false, PHYS_BASE;
    }
    var copy := Copied(line);
    var buf := new Byte[PGSIZE](i requires 0 <= i => if i < |copy| then copy[i] else 0);
    assert buf[..|copy|] == copy;
    var argv;
    ok, argv := Split(buf, |copy|);
    if !ok {
      return false, PHYS_BASE;
    }
    ghost var ts := Tokens(copy);
    TokensAreText(copy);
    LinesFit(line);
    var addrs;
    esp, addrs := PushStrings(mem, buf, argv, ts);
    assert ts[0..] == ts;
    esp := PushPointers(mem, esp, addrs, ts);
    esp := PushHeader(mem, esp, |addrs|, ts);
  }

  lemma {:induction false} TokensAreText(s: Text)
    requires NoNulls(s)
    ensures forall i :: 0 <= i < |Tokens(s)| ==> NoNulls(Tokens(s)[i])
    decreases |s|
  {
    SkipShrinks(s);
    SkippedText(s);
    var w := SkipSpaces(s);
    if w != [] {
      var n := WordLength(w);
      TokensAreText(w[n..]);
    }
  }

  lemma {:induction false} SkippedText(s: Text)
    requires NoNulls(s)
    ensures NoNulls(SkipSpaces(s))
  {
    if s != [] && s[0] == SPACE { SkippedText(s[1..]); }
  }

  /** For every command line with fewer than 128 arguments, a program finds them. */
  lemma RoundTrip(line: Text, i: nat)
    requires NoNulls(line) && |Tokens(Copied(line))| < 128
    ensures var ts := Tokens(Copied(line));
            && Footprint(ts) <= STACK_SIZE
            && var s, esp := Image(ts), PHYS_BASE - Footprint(ts);
               && Argc(s) == |ts| && WordAt(s, 8) == esp + 12 && Argv(s, esp, |ts|) == 0
               && (i < |ts| ==>
                     && esp <= Argv(s, esp, i) < PHYS_BASE
                     && CString(s[Argv(s, esp, i) - esp..]) == ts[i])
  {
    LinesFit(line);
    TokensAreText(Copied(line));
    var ts := Tokens(Copied(line));
    HeaderDecodes(ts);
    if i < |ts| { ArgumentDecodes(ts, i); }
  }
}
