/** threads/malloc.c: a size-class allocator whose arenas are found again by rounding addresses down.

    Pages are numbered from the base of the kernel pool; `base` is the page number of the pool in the
    address space.  `others` are pages that the rest of the kernel holds, `live` the blocks handed
    out and not yet freed, with the sizes asked for.  An ASSERT that would fail sets `panic`. */
module Malloc {
  import opened Basics
  import opened Bitmap
  import opened Bits

  const PGSIZE: nat := 4096
  const HEADER: nat := 12          // sizeof (struct arena)
  const DESC_CNT: nat := 7

  datatype Arena = Arena(desc: Option<nat>, freeCnt: nat)

  datatype Heap = Heap(
    base: nat,
    used: seq<bool>,
    others: set<nat>,
    arenas: map<nat, Arena>,
    owner: seq<Option<nat>>,     // history: the arena that each page belongs to
    free: seq<seq<nat>>,
    live: map<nat, nat>,
    panic: bool)

  // ------------------------------------------------------------------
  // Descriptors

  function BlockSize(k: nat): nat
    requires k < DESC_CNT
  {
    [16, 32, 64, 128, 256, 512, 1024][k]
  }

  function PerArena(k: nat): nat
    requires k < DESC_CNT
  {
    [255, 127, 63, 31, 15, 7, 3][k]
  }

  /** malloc_init fills exactly the seven descriptors. */
  method Init() returns (sizes: seq<nat>, counts: seq<nat>)
    ensures |sizes| == |counts| == DESC_CNT <= 10
    ensures forall k :: 0 <= k < DESC_CNT ==> sizes[k] == BlockSize(k) && counts[k] == PerArena(k)
  {
    var size := 16;
    sizes, counts := [], [];
    while size < PGSIZE / 2
      invariant |sizes| == |counts| <= DESC_CNT
      invariant size == [16, 32, 64, 128, 256, 512, 1024, 2048][|sizes|]
      invariant forall k :: 0 <= k < |sizes| ==> sizes[k] == BlockSize(k) && counts[k] == PerArena(k)
      decreases PGSIZE - size
    {
      sizes := sizes + [size];
      counts := counts + [(PGSIZE - HEADER) / size];
      size := size * 2;
    }
  }

  /** The descriptor a request is given: the smallest that is large enough. */
  function DescFor(size: nat, k: nat): (r: Option<nat>)
    requires k <= DESC_CNT
    ensures r.Some? ==> k <= r.value < DESC_CNT && BlockSize(r.value) >= size
    ensures forall j :: k <= j < DESC_CNT && (r.Some? ==> j < r.value) ==> BlockSize(j) < size
    decreases DESC_CNT - k
  {
    if k == DESC_CNT then None else if BlockSize(k) >= size then Some(k) else DescFor(size, k + 1)
  }

  // ------------------------------------------------------------------
  // Addresses

  /** arena_to_block */
  function BlockAt(page: nat, k: nat, i: nat): nat
    requires k < DESC_CNT
  {
    page * PGSIZE + HEADER + i * BlockSize(k)
  }

  /** The address is that of a block of a page cut up for descriptor k. */
  predicate IsBlock(k: nat, b: nat)
    requires k < DESC_CNT
  {
    var ofs := b % PGSIZE;
    ofs >= HEADER && (ofs - HEADER) % BlockSize(k) == 0 && ofs + BlockSize(k) <= PGSIZE
  }

  function BlockList(page: nat, k: nat): (s: seq<nat>)
    requires k < DESC_CNT
    ensures |s| == PerArena(k)
  {
    seq(PerArena(k), i requires 0 <= i < PerArena(k) => BlockAt(page, k, i))
  }

  /** pg_round_down finds the arena of each of its blocks, and the blocks fit in the page. */
  lemma BlockInPage(page: nat, k: nat, i: nat)
    requires k < DESC_CNT && i < PerArena(k)
    ensures BlockAt(page, k, i) / PGSIZE == page && IsBlock(k, BlockAt(page, k, i))
  {
    OffsetFits(k, i);
    var b, ofs := BlockAt(page, k, i), HEADER + i * BlockSize(k);
    DivModUnique(b, PGSIZE, page, ofs);
  }

  lemma OffsetFits(k: nat, i: nat)
    requires k < DESC_CNT && i < PerArena(k)
    ensures HEADER + i * BlockSize(k) + BlockSize(k) <= PGSIZE && i * BlockSize(k) % BlockSize(k) == 0
  {
    if k == 0 { Multiple(i, 16); }
    else if k == 1 { Multiple(i, 32); }
    else if k == 2 { Multiple(i, 64); }
    else if k == 3 { Multiple(i, 128); }
    else if k == 4 { Multiple(i, 256); }
    else if k == 5 { Multiple(i, 512); }
    else { Multiple(i, 1024); }
  }

  lemma Multiple(i: nat, s: nat)
    requires s > 0
    ensures i * s % s == 0
  {
    DivModUnique(i * s, s, i, 0);
  }

  lemma BlockIndex(page: nat, k: nat, b: nat) returns (i: nat)
    requires k < DESC_CNT && IsBlock(k, b) && b / PGSIZE == page
    ensures i < PerArena(k) && b == BlockAt(page, k, i)
  {
    var ofs := b % PGSIZE;
    i := (ofs - HEADER) / BlockSize(k);
    if k == 0 { assert ofs == 12 + i * 16; }
    else if k == 1 { assert ofs == 12 + i * 32; }
    else if k == 2 { assert ofs == 12 + i * 64; }
    else if k == 3 { assert ofs == 12 + i * 128; }
    else if k == 4 { assert ofs == 12 + i * 256; }
    else if k == 5 { assert ofs == 12 + i * 512; }
    else { assert ofs == 12 + i * 1024; }
  }

  /** Two blocks of one page are the same or do not overlap. */
  lemma BlocksApart(k: nat, b: nat, c: nat)
    requires k < DESC_CNT && IsBlock(k, b) && IsBlock(k, c) && b / PGSIZE == c / PGSIZE && b < c
    ensures b + BlockSize(k) <= c
  {
    var page := b / PGSIZE;
    var i := BlockIndex(page, k, b);
    var j := BlockIndex(page, k, c);
    if k == 0 { assert c - b == (j - i) * 16; }
    else if k == 1 { assert c - b == (j - i) * 32; }
    else if k == 2 { assert c - b == (j - i) * 64; }
    else if k == 3 { assert c - b == (j - i) * 128; }
    else if k == 4 { assert c - b == (j - i) * 256; }
    else if k == 5 { assert c - b == (j - i) * 512; }
    else { assert c - b == (j - i) * 1024; }
  }

  ghost function BlockSet(page: nat, k: nat): set<nat>
    requires k < DESC_CNT
  {
    set i | 0 <= i < PerArena(k) :: BlockAt(page, k, i)
  }

  lemma BlockSetIs(page: nat, k: nat, b: nat)
    requires k < DESC_CNT
    ensures b in BlockSet(page, k) <==> b / PGSIZE == page && IsBlock(k, b)
    ensures b in BlockList(page, k) <==> b in BlockSet(page, k)
  {
    if b in BlockSet(page, k) {
      var i :| 0 <= i < PerArena(k) && BlockAt(page, k, i) == b;
      BlockInPage(page, k, i);
      assert BlockList(page, k)[i] == b;
    }
    if b / PGSIZE == page && IsBlock(k, b) {
      var i := BlockIndex(page, k, b);
    }
  }

  // ------------------------------------------------------------------
  // The calls

  function PageOf(h: Heap, b: nat): int { b / PGSIZE - h.base }

  /** palloc_get_multiple from the kernel pool: the first run of free pages. */
  function GetPages(h: Heap, cnt: nat): (Heap, Option<nat>) {
    match FirstRun(h.used, 0, cnt, false)
    case None => (h, None)
    case Some(p) => (h.(used := SetRange(h.used, p, cnt, true)), Some(p))
  }

  function PutPages(h: Heap, p: nat, cnt: nat): Heap {
    if p + cnt <= |h.used| && AllAre(h.used, p, cnt, true) then h.(used := SetRange(h.used, p, cnt, false))
    else h.(panic := true)
  }

  /** What block_to_arena asserts about a block and the arena it rounds down to. */
  predicate Rightful(h: Heap, b: nat) {
    var p := PageOf(h, b);
    && p >= 0 && p in h.arenas
    && match h.arenas[p].desc
       case None => b % PGSIZE == HEADER
       case Some(k) => k < DESC_CNT && b % PGSIZE >= HEADER && (b % PGSIZE - HEADER) % BlockSize(k) == 0
  }

  function Pages(a: Arena): nat { if a.desc == None then a.freeCnt else 1 }

  function Owning(h: Heap, p: nat, a: Arena, o: Option<nat>): seq<Option<nat>> {
    if p + Pages(a) <= |h.owner| then SetRange(h.owner, p, Pages(a), o) else h.owner
  }

  function AddArena(h: Heap, p: nat, a: Arena): Heap {
    h.(arenas := h.arenas[p := a], owner := Owning(h, p, a, Some(p)))
  }

  function DropArena(h: Heap, p: nat): Heap
    requires p in h.arenas
  {
    h.(arenas := h.arenas - {p}, owner := Owning(h, p, h.arenas[p], None))
  }

  function MallocBig(h: Heap, size: nat): (Heap, nat) {
    var cnt := (size + HEADER + PGSIZE - 1) / PGSIZE;
    var (h1, p) := GetPages(h, cnt);
    if p == None then (h1, 0)
    else
      var b := (h.base + p.value) * PGSIZE + HEADER;
      (AddArena(h1, p.value, Arena(None, cnt)).(live := h1.live[b := size]), b)
  }

  /** A new arena, all of whose blocks go on the free list. */
  function NewArena(h: Heap, k: nat): Option<Heap>
    requires k < DESC_CNT == |h.free|
  {
    var (h1, p) := GetPages(h, 1);
    if p == None then None
    else Some(AddArena(h1, p.value, Arena(Some(k), PerArena(k)))
              .(free := h1.free[k := h1.free[k] + BlockList(h.base + p.value, k)]))
  }

  function TakeBlock(h: Heap, k: nat, size: nat): (Heap, nat)
    requires k < DESC_CNT == |h.free| && h.free[k] != []
  {
    var b := h.free[k][0];
    if !Rightful(h, b) || h.arenas[PageOf(h, b)].freeCnt == 0 then (h.(panic := true), 0)
    else
      var p := PageOf(h, b);
      var a := h.arenas[p];
      (h.(free := h.free[k := h.free[k][1..]], arenas := h.arenas[p := a.(freeCnt := a.freeCnt - 1)],
          live := h.live[b := size]), b)
  }

  function Malloc(h: Heap, size: nat): (Heap, nat)
    requires |h.free| == DESC_CNT
  {
    if size == 0 then (h, 0)
    else match DescFor(size, 0)
      case None => MallocBig(h, size)
      case Some(k) =>
        var ready := if h.free[k] == [] then NewArena(h, k) else Some(h);
        if ready == None then (h, 0) else TakeBlock(ready.value, k, size)
  }

  function RemoveEach(list: seq<nat>, blocks: seq<nat>): seq<nat>
    decreases |blocks|
  {
    if blocks == [] then list else RemoveEach(Without(list, blocks[0]), blocks[1..])
  }

  /** All blocks of an entirely unused arena leave the free list, and its page goes back. */
  function ReturnArena(h: Heap, p: nat, k: nat): Heap
    requires k < DESC_CNT == |h.free| && p in h.arenas
  {
    var blocks := BlockList(h.base + p, k);
    if h.arenas[p].freeCnt != PerArena(k) || exists i :: 0 <= i < |blocks| && blocks[i] !in h.free[k]
    then h.(panic := true)
    else PutPages(DropArena(h, p).(free := h.free[k := RemoveEach(h.free[k], blocks)]), p, 1)
  }

  function PushBlock(h: Heap, k: nat, p: nat, b: nat): Heap
    requires k < DESC_CNT == |h.free| && p in h.arenas
  {
    var a := h.arenas[p];
    h.(free := h.free[k := [b] + h.free[k]], arenas := h.arenas[p := a.(freeCnt := a.freeCnt + 1)],
        live := h.live - {b})
  }

  function Free(h: Heap, b: nat): Heap
    requires |h.free| == DESC_CNT
  {
    if b == 0 then h
    else if !Rightful(h, b) then h.(panic := true)
    else
      var p := PageOf(h, b);
      match h.arenas[p].desc
      case None => PutPages(DropArena(h, p).(live := h.live - {b}), p, h.arenas[p].freeCnt)
      case Some(k) =>
        var h1 := PushBlock(h, k, p, b);
        if h1.arenas[p].freeCnt >= PerArena(k) then ReturnArena(h1, p, k) else h1
  }

  function UsableSize(h: Heap, b: nat): int
    requires Rightful(h, b)
  {
    var a := h.arenas[PageOf(h, b)];
    if a.desc.Some? then BlockSize(a.desc.value) else PGSIZE * a.freeCnt - b % PGSIZE
  }

  function Realloc(h: Heap, was: nat, size: nat): (Heap, nat)
    requires |h.free| == DESC_CNT
  {
    if size == 0 then (Free(h, was), 0)
    else
      var (h1, b) := Malloc(h, size);
      if was != 0 && b != 0 && |h1.free| == DESC_CNT then (Free(h1, was), b) else (h1, b)
  }

  // ------------------------------------------------------------------
  // The invariant

  /** The free blocks of a page. */
  ghost function FreeOn(list: seq<nat>, page: nat): set<nat> { set b | b in list && b / PGSIZE == page }

  function BigBlock(h: Heap, p: nat): nat { (h.base + p) * PGSIZE + HEADER }

  /** `full` is the one arena that may be entirely unused, inside a call. */
  ghost predicate ArenaOk(h: Heap, p: nat, full: Option<nat>)
    requires p in h.arenas && |h.free| == DESC_CNT
  {
    var a := h.arenas[p];
    match a.desc
    case None => a.freeCnt >= 1 && BigBlock(h, p) in h.live
    case Some(k) =>
      && k < DESC_CNT && a.freeCnt == |FreeOn(h.free[k], h.base + p)|
      && a.freeCnt <= PerArena(k) && (a.freeCnt == PerArena(k) ==> full == Some(p))
  }

  ghost predicate InArena(h: Heap, k: nat, b: nat)
    requires k < DESC_CNT
  {
    var p := PageOf(h, b);
    p >= 0 && p in h.arenas && h.arenas[p].desc == Some(k) && IsBlock(k, b)
  }

  ghost predicate LiveOk(h: Heap, b: nat)
    requires b in h.live
  {
    && Rightful(h, b) && 0 < h.live[b] <= UsableSize(h, b)
    && var p := PageOf(h, b);
       h.arenas[p].desc.Some? ==> InArena(h, h.arenas[p].desc.value, b)
  }

  ghost predicate ListOk(h: Heap, k: nat)
    requires k < DESC_CNT == |h.free|
  {
    && NoDup(h.free[k])
    && (forall b :: b in h.free[k] ==> InArena(h, k, b))
    && (forall b {:trigger InArena(h, k, b)} :: InArena(h, k, b) ==> (b in h.free[k] <==> b !in h.live))
  }

  ghost predicate PageOk(h: Heap, q: nat)
    requires q < |h.used| == |h.owner|
  {
    && h.used[q] == (q in h.others || h.owner[q].Some?)
    && (h.owner[q].Some? ==>
          && q !in h.others && h.owner[q].value in h.arenas
          && h.owner[q].value <= q < h.owner[q].value + Pages(h.arenas[h.owner[q].value]))
  }

  ghost predicate Owner(h: Heap, p: nat)
    requires p in h.arenas
  {
    && Pages(h.arenas[p]) >= 1 && p + Pages(h.arenas[p]) <= |h.owner|
    && forall q :: p <= q < p + Pages(h.arenas[p]) ==> h.owner[q] == Some(p)
  }

  /** Pages in use are those of the arenas, once each, and those of others. */
  ghost predicate PagesOk(h: Heap) {
    && |h.owner| == |h.used| && (forall q :: q in h.others ==> q < |h.used|)
    && (forall q: nat {:trigger PageOk(h, q)} :: q < |h.used| ==> PageOk(h, q))
    && (forall p {:trigger Owner(h, p)} :: p in h.arenas ==> Owner(h, p))
  }

  ghost predicate Inv(h: Heap, full: Option<nat>) {
    && !h.panic && h.base >= 1 && |h.free| == DESC_CNT
    && (forall p {:trigger ArenaOk(h, p, full)} :: p in h.arenas ==> ArenaOk(h, p, full))
    && (forall k: nat {:trigger ListOk(h, k)} :: k < DESC_CNT ==> ListOk(h, k))
    && (forall b {:trigger LiveOk(h, b)} :: b in h.live ==> LiveOk(h, b))
    && PagesOk(h)
  }

  // ------------------------------------------------------------------
  // Pages

  lemma GetPagesFinds(h: Heap, cnt: nat)
    requires PagesOk(h)
    ensures var (h1, r) := GetPages(h, cnt);
            && h1 == h.(used := h1.used) && (r == None ==> h1 == h)
            && (r.Some? ==>
                  && r.value + cnt <= |h.used| && h1.used == SetRange(h.used, r.value, cnt, true)
                  && (forall q :: r.value <= q < r.value + cnt ==> !h.used[q]))
  {
  }

  lemma FreePageNoArena(h: Heap, p: nat)
    requires PagesOk(h) && p < |h.used| && !h.used[p]
    ensures p !in h.arenas
  {
    assert PageOk(h, p);
    assert p in h.arenas ==> Owner(h, p);
  }

  /** A new arena on free pages. */
  lemma PagesGrow(h: Heap, p: nat, a: Arena, h': Heap)
    requires PagesOk(h) && p + Pages(a) <= |h.used| && Pages(a) >= 1
    requires forall q :: p <= q < p + Pages(a) ==> !h.used[q]
    requires h'.arenas == AddArena(h, p, a).arenas && h'.owner == AddArena(h, p, a).owner
    requires h'.used == SetRange(h.used, p, Pages(a), true) && h'.others == h.others
    ensures PagesOk(h') && p !in h.arenas
  {
    FreePageNoArena(h, p);
    forall q: nat | q < |h'.used| ensures PageOk(h', q) {
      assert PageOk(h, q);
    }
    forall p' | p' in h'.arenas ensures Owner(h', p') {
      if p' != p {
        assert Owner(h, p');
        forall q: nat | p' <= q < p' + Pages(h.arenas[p']) ensures h'.owner[q] == Some(p') {
          assert PageOk(h, q);
        }
      }
    }
  }

  lemma PagesShrink(h: Heap, p: nat, h': Heap)
    requires PagesOk(h) && p in h.arenas && p + Pages(h.arenas[p]) <= |h.used|
    requires h'.arenas == DropArena(h, p).arenas && h'.owner == DropArena(h, p).owner && h'.others == h.others
    requires h'.used == SetRange(h.used, p, Pages(h.arenas[p]), false)
    ensures PagesOk(h')
  {
    assert Owner(h, p);
    forall q: nat | q < |h'.used| ensures PageOk(h', q) {
      assert PageOk(h, q);
    }
    forall p' | p' in h'.arenas ensures Owner(h', p') {
      assert Owner(h, p');
    }
  }

  lemma ArenaPages(h: Heap, p: nat)
    requires PagesOk(h) && p in h.arenas
    ensures p + Pages(h.arenas[p]) <= |h.used| && AllAre(h.used, p, Pages(h.arenas[p]), true)
  {
    assert Owner(h, p);
    forall q: nat | p <= q < p + Pages(h.arenas[p]) ensures h.used[q] {
      assert PageOk(h, q);
    }
  }

  /** Live blocks lie in arenas. */
  lemma LivePage(h: Heap, b: nat)
    requires Inv(h, None)
    ensures b in h.live ==> PageOf(h, b) >= 0 && PageOf(h, b) in h.arenas
  {
    assert b in h.live ==> LiveOk(h, b);
  }

  // ------------------------------------------------------------------
  // Big blocks

  lemma MallocBigKeeps(h: Heap, size: nat)
    requires Inv(h, None) && size > 0
    ensures var (h', b) := MallocBig(h, size);
            Inv(h', None) && (if b == 0 then h' == h else b !in h.live && h'.live == h.live[b := size])
  {
    var cnt := (size + HEADER + PGSIZE - 1) / PGSIZE;
    GetPagesFinds(h, cnt);
    var (h1, r) := GetPages(h, cnt);
    if r.Some? {
      var h' := MallocBig(h, size).0;
      PagesGrow(h, r.value, Arena(None, cnt), h');
      BigAddedKeeps(h, h', r.value, cnt, size);
    }
  }

  /** h' is h with a big block of cnt pages at page p. */
  ghost predicate BigAdded(h: Heap, h': Heap, p: nat, cnt: nat, size: nat) {
    && p !in h.arenas && cnt >= 1 && 0 < size <= PGSIZE * cnt - HEADER
    && h'.base == h.base && h'.free == h.free && h'.panic == h.panic
    && h'.arenas == h.arenas[p := Arena(None, cnt)] && h'.live == h.live[BigBlock(h, p) := size]
  }

  lemma BigAddedKeeps(h: Heap, h': Heap, p: nat, cnt: nat, size: nat)
    requires Inv(h, None) && PagesOk(h') && BigAdded(h, h', p, cnt, size)
    ensures Inv(h', None) && BigBlock(h, p) !in h.live
  {
    var b := BigBlock(h, p);
    assert b / PGSIZE == h.base + p && b % PGSIZE == HEADER;
    LivePage(h, b);
    forall q | q in h'.arenas ensures ArenaOk(h', q, None) {
      if q != p { assert ArenaOk(h, q, None); }
    }
    forall k: nat | k < DESC_CNT ensures ListOk(h', k) {
      assert ListOk(h, k);
      ListFrame(h, h', k);
    }
    forall c | c in h'.live ensures LiveOk(h', c) {
      if c != b { assert LiveOk(h, c); }
    }
  }

  /** The blocks of descriptor k see only their own arenas, their list, and which of them are live. */
  lemma ListFrame(h: Heap, h': Heap, k: nat)
    requires k < DESC_CNT == |h.free| == |h'.free| && ListOk(h, k) && h'.free[k] == h.free[k] && h'.base == h.base
    requires forall b :: InArena(h, k, b) <==> InArena(h', k, b)
    requires forall b :: InArena(h, k, b) ==> (b in h.live <==> b in h'.live)
    ensures ListOk(h', k)
  {
    forall b | InArena(h', k, b) ensures b in h'.free[k] <==> b !in h'.live {
      assert InArena(h, k, b);
    }
  }

  /** A live block sees only its own arena. */
  lemma LiveFrame(h: Heap, h': Heap, c: nat)
    requires c in h.live && LiveOk(h, c) && c in h'.live && h'.live[c] == h.live[c] && h'.base == h.base
    requires var p := PageOf(h, c);
             && p in h'.arenas && h'.arenas[p].desc == h.arenas[p].desc
             && (h.arenas[p].desc == None ==> h'.arenas[p] == h.arenas[p])
    ensures LiveOk(h', c)
  {
  }

  lemma FreeBigKeeps(h: Heap, b: nat)
    requires Inv(h, None) && b in h.live && Rightful(h, b) && h.arenas[PageOf(h, b)].desc == None
    ensures Inv(Free(h, b), None) && Free(h, b).live == h.live - {b}
  {
    var p, h' := PageOf(h, b), Free(h, b);
    assert LiveOk(h, b) && b != 0;
    ArenaPages(h, p);
    PagesShrink(h, p, h');
    forall q | q in h'.arenas ensures ArenaOk(h', q, None) {
      assert ArenaOk(h, q, None);
      assert BigBlock(h, q) / PGSIZE == h.base + q;
    }
    forall k: nat | k < DESC_CNT ensures ListOk(h', k) {
      assert ListOk(h, k);
      ListFrame(h, h', k);
    }
    forall c | c in h'.live ensures LiveOk(h', c) {
      assert LiveOk(h, c);
      assert PageOf(h, c) != p;
    }
  }

  // ------------------------------------------------------------------
  // Small blocks

  lemma BlockListIs(page: nat, k: nat)
    requires k < DESC_CNT
    ensures NoDup(BlockList(page, k))
    ensures forall b :: b in BlockList(page, k) <==> b >= 0 && b / PGSIZE == page && IsBlock(k, b)
    ensures FreeOn(BlockList(page, k), page) == BlockSet(page, k) && |BlockSet(page, k)| == PerArena(k)
  {
    var l := BlockList(page, k);
    forall i, j | 0 <= i < j < |l| ensures l[i] < l[j] {
      BlockOrder(page, k, i, j);
    }
    forall b: nat ensures b in l <==> b / PGSIZE == page && IsBlock(k, b) {
      BlockSetIs(page, k, b);
    }
    forall b ensures b in FreeOn(l, page) <==> b in BlockSet(page, k) {
      if b >= 0 { BlockSetIs(page, k, b); }
    }
    SeqSet(l, BlockSet(page, k));
  }

  lemma BlockOrder(page: nat, k: nat, i: nat, j: nat)
    requires k < DESC_CNT && i < j
    ensures BlockAt(page, k, i) < BlockAt(page, k, j)
  {
    var s := BlockSize(k);
    assert j * s == i * s + (j - i) * s;
    assert (j - i) * s >= 1 * s by { MulGrows(j - i, s); }
  }

  lemma MulGrows(n: nat, s: nat)
    requires n >= 1
    ensures n * s >= s
  {
  }

  lemma {:induction false} SeqSet<T>(l: seq<T>, s: set<T>)
    requires NoDup(l) && forall x :: x in l <==> x in s
    ensures |s| == |l|
  {
    if l == [] {
      assert s == {};
    } else {
      var x := l[0];
      PoppedMembers(l);
      SeqSet(l[1..], s - {x});
    }
  }

  /** h' is h with a new arena of descriptor k on page p. */
  ghost predicate Extended(h: Heap, h': Heap, k: nat, p: nat) {
    && k < DESC_CNT == |h.free| == |h'.free| && p !in h.arenas && p < |h.used|
    && h'.base == h.base && h'.live == h.live && h'.panic == h.panic
    && h'.arenas == h.arenas[p := Arena(Some(k), PerArena(k))]
    && h.free[k] == [] && h'.free == h.free[k := BlockList(h.base + p, k)]
  }

  lemma ExtendedArena(h: Heap, h': Heap, k: nat, p: nat, q: nat)
    requires Extended(h, h', k, p) && q in h'.arenas && (q != p ==> ArenaOk(h, q, None))
    ensures ArenaOk(h', q, Some(p))
  {
    if q == p { BlockListIs(h.base + p, k); } else { OtherPageFree(h, q, k, h.base + p); }
  }

  lemma NewArenaKeeps(h: Heap, k: nat)
    requires Inv(h, None) && k < DESC_CNT && h.free[k] == [] && NewArena(h, k).Some?
    ensures var h' := NewArena(h, k).value; var p := GetPages(h, 1).1.value;
            && Inv(h', Some(p)) && h'.live == h.live && h'.free[k] != [] && h'.base == h.base
            && PageOf(h', h'.free[k][0]) == p && p in h'.arenas && h'.arenas[p].desc == Some(k)
  {
    GetPagesFinds(h, 1);
    var p, h' := GetPages(h, 1).1.value, NewArena(h, k).value;
    PagesGrow(h, p, Arena(Some(k), PerArena(k)), h');
    assert h'.free[k] == BlockList(h.base + p, k);
    assert Extended(h, h', k, p);
    ExtendedKeeps(h, h', k, p);
    BlockInPage(h.base + p, k, 0);
  }

  lemma ExtendedKeeps(h: Heap, h': Heap, k: nat, p: nat)
    requires Inv(h, None) && Extended(h, h', k, p) && PagesOk(h')
    ensures Inv(h', Some(p))
  {
    forall q | q in h'.arenas ensures ArenaOk(h', q, Some(p)) {
      if q != p { assert ArenaOk(h, q, None); }
      ExtendedArena(h, h', k, p, q);
    }
    forall j: nat | j < DESC_CNT ensures ListOk(h', j) {
      assert ListOk(h, j);
      if j == k { FreshList(h, h', k, p); } else { ListFrame(h, h', j); }
    }
    forall c | c in h'.live ensures LiveOk(h', c) {
      assert LiveOk(h, c);
    }
  }

  /** An arena of descriptor k has no free block while the list is empty; the new page's are not its. */
  lemma OtherPageFree(h: Heap, q: nat, k: nat, page: nat)
    requires k < DESC_CNT == |h.free| && h.free[k] == [] && h.base + q != page
    ensures FreeOn(h.free[k], h.base + q) == FreeOn(BlockList(page, k), h.base + q)
  {
    BlockListIs(page, k);
  }

  lemma FreshList(h: Heap, h': Heap, k: nat, p: nat)
    requires Inv(h, None) && k < DESC_CNT && h.free[k] == [] && p !in h.arenas && h'.base == h.base
             && |h'.free| == DESC_CNT
    requires h'.arenas == h.arenas[p := Arena(Some(k), PerArena(k))] && h'.live == h.live
    requires h'.free[k] == BlockList(h.base + p, k)
    ensures ListOk(h', k)
  {
    BlockListIs(h.base + p, k);
    assert ListOk(h, k);
    forall b | InArena(h', k, b) ensures b in h'.free[k] <==> b !in h'.live {
      LivePage(h, b);
      if PageOf(h, b) != p { assert InArena(h, k, b); }
    }
  }

  // Taking a block

  lemma TakeKeeps(h: Heap, k: nat, size: nat, full: Option<nat>)
    requires Inv(h, full) && k < DESC_CNT && h.free[k] != [] && 0 < size <= BlockSize(k)
    requires full.Some? ==> PageOf(h, h.free[k][0]) == full.value
    ensures var (h', b) := TakeBlock(h, k, size);
            b == h.free[k][0] && b != 0 && b !in h.live && h'.live == h.live[b := size] && Inv(h', None)
  {
    var b := h.free[k][0];
    assert ListOk(h, k) && b in h.free[k] && InArena(h, k, b);
    var p := PageOf(h, b);
    assert ArenaOk(h, p, full);
    assert b in FreeOn(h.free[k], h.base + p);
    TakenKeeps(h, TakeBlock(h, k, size).0, k, p, size, full);
  }

  /** What is on a free list really is a block of an arena with a block to spare. */
  lemma FrontIsRightful(h: Heap, k: nat, full: Option<nat>)
    requires Inv(h, full) && k < DESC_CNT && h.free[k] != []
    ensures Rightful(h, h.free[k][0]) && h.arenas[PageOf(h, h.free[k][0])].freeCnt > 0
  {
    var b := h.free[k][0];
    assert ListOk(h, k) && b in h.free[k] && InArena(h, k, b);
    assert ArenaOk(h, PageOf(h, b), full);
    assert b in FreeOn(h.free[k], h.base + PageOf(h, b));
  }

  /** h' is h after the first block of list k, in arena p, has been handed out. */
  ghost predicate Taken(h: Heap, h': Heap, k: nat, p: nat, size: nat) {
    && k < DESC_CNT == |h.free| && h.free[k] != [] && p in h.arenas && h.arenas[p].desc == Some(k)
    && h.arenas[p].freeCnt > 0
    && h'.base == h.base && h'.used == h.used && h'.others == h.others && h'.owner == h.owner && h'.panic == h.panic
    && h'.free == h.free[k := h.free[k][1..]]
    && h'.arenas == h.arenas[p := h.arenas[p].(freeCnt := h.arenas[p].freeCnt - 1)]
    && h'.live == h.live[h.free[k][0] := size] && h.free[k][0] / PGSIZE == h.base + p
  }

  lemma TakenArena(h: Heap, h': Heap, k: nat, p: nat, size: nat, full: Option<nat>, q: nat)
    requires Taken(h, h', k, p, size) && q in h.arenas && ArenaOk(h, q, full) && NoDup(h.free[k])
    requires full.Some? ==> full.value == p
    ensures ArenaOk(h', q, None)
  {
    PoppedFree(h.free[k], h.base + q);
  }

  lemma TakenKeeps(h: Heap, h': Heap, k: nat, p: nat, size: nat, full: Option<nat>)
    requires Inv(h, full) && Taken(h, h', k, p, size) && InArena(h, k, h.free[k][0]) && 0 < size <= BlockSize(k)
    requires full.Some? ==> full.value == p
    ensures Inv(h', None)
  {
    TakePages(h, h', p);
    assert ListOk(h, k);
    forall q | q in h'.arenas ensures ArenaOk(h', q, None) {
      assert ArenaOk(h, q, full);
      TakenArena(h, h', k, p, size, full, q);
    }
    SameInArena(h, h', p);
    forall j: nat | j < DESC_CNT ensures ListOk(h', j) {
      assert ListOk(h, j);
      if j == k { TakenList(h, h', k); } else { ListFrame(h, h', j); }
    }
    forall c | c in h'.live ensures LiveOk(h', c) {
      if c != h.free[k][0] {
        assert LiveOk(h, c);
        LiveFrame(h, h', c);
      }
    }
  }

  /** The counts do not matter for which addresses are blocks. */
  lemma SameInArena(h: Heap, h': Heap, p: nat)
    requires h'.base == h.base && p in h.arenas && p in h'.arenas && h'.arenas[p].desc == h.arenas[p].desc
    requires h'.arenas == h.arenas[p := h'.arenas[p]]
    ensures forall k: nat, b: nat :: k < DESC_CNT ==> (InArena(h, k, b) <==> InArena(h', k, b))
  {
  }

  lemma TakePages(h: Heap, h': Heap, p: nat)
    requires PagesOk(h) && p in h.arenas && h.arenas[p].desc.Some? && h'.arenas.Keys == h.arenas.Keys
    requires h'.used == h.used && h'.owner == h.owner && h'.others == h.others
    requires forall q :: q in h.arenas ==> Pages(h'.arenas[q]) == Pages(h.arenas[q])
    ensures PagesOk(h')
  {
    forall q: nat | q < |h'.used| ensures PageOk(h', q) {
      assert PageOk(h, q);
    }
    forall q | q in h'.arenas ensures Owner(h', q) {
      assert Owner(h, q);
    }
  }

  lemma PoppedFree(list: seq<nat>, page: nat)
    requires list != [] && NoDup(list)
    ensures |FreeOn(list[1..], page)| == |FreeOn(list, page)| - if list[0] / PGSIZE == page then 1 else 0
  {
    PoppedMembers(list);
    assert FreeOn(list[1..], page) == FreeOn(list, page) - {list[0]};
  }

  lemma TakenList(h: Heap, h': Heap, k: nat)
    requires k < DESC_CNT == |h.free| == |h'.free| && ListOk(h, k) && h.free[k] != [] && h'.base == h.base
    requires h'.free[k] == h.free[k][1..] && (forall b :: b in h'.live <==> b in h.live || b == h.free[k][0])
    requires forall b :: InArena(h, k, b) <==> InArena(h', k, b)
    ensures ListOk(h', k)
  {
    PoppedMembers(h.free[k]);
    forall b | InArena(h', k, b) ensures b in h'.free[k] <==> b !in h'.live {
      assert InArena(h, k, b);
    }
  }

  // Freeing a block

  lemma PushKeeps(h: Heap, b: nat)
    requires Inv(h, None) && b in h.live && Rightful(h, b) && h.arenas[PageOf(h, b)].desc.Some?
    ensures var p := PageOf(h, b); var h' := PushBlock(h, h.arenas[p].desc.value, p, b);
            && Inv(h', Some(p)) && h'.live == h.live - {b} && h'.arenas[p].desc == h.arenas[p].desc
            && (h'.arenas[p].freeCnt != PerArena(h.arenas[p].desc.value) ==> Inv(h', None))
  {
    var p := PageOf(h, b);
    var k := h.arenas[p].desc.value;
    var h' := PushBlock(h, k, p, b);
    assert LiveOk(h, b) && ListOk(h, k);
    PushedKeeps(h, h', k, p, b);
    if h'.arenas[p].freeCnt != PerArena(k) {
      forall q | q in h'.arenas ensures ArenaOk(h', q, None) {
        assert ArenaOk(h', q, Some(p));
      }
    }
  }

  /** h' is h after block b of arena p has been put in front of list k. */
  ghost predicate Pushed(h: Heap, h': Heap, k: nat, p: nat, b: nat) {
    && k < DESC_CNT == |h.free| && p in h.arenas && h.arenas[p].desc == Some(k) && b / PGSIZE == h.base + p
    && b in h.live
    && h'.base == h.base && h'.used == h.used && h'.others == h.others && h'.owner == h.owner && h'.panic == h.panic
    && h'.free == h.free[k := [b] + h.free[k]]
    && h'.arenas == h.arenas[p := h.arenas[p].(freeCnt := h.arenas[p].freeCnt + 1)]
    && h'.live == h.live - {b}
  }

  lemma PushedArena(h: Heap, h': Heap, k: nat, p: nat, b: nat, q: nat)
    requires Pushed(h, h', k, p, b) && q in h.arenas && ArenaOk(h, q, None) && NoDup(h.free[k]) && b !in h.free[k]
    ensures ArenaOk(h', q, Some(p))
  {
    PushedMembers(h.free[k], b);
    assert h'.free[k][1..] == h.free[k];
    PoppedFree(h'.free[k], h.base + q);
    assert BigBlock(h, q) / PGSIZE == h.base + q;
  }

  lemma PushedKeeps(h: Heap, h': Heap, k: nat, p: nat, b: nat)
    requires Inv(h, None) && Pushed(h, h', k, p, b) && InArena(h, k, b)
    ensures Inv(h', Some(p))
  {
    TakePages(h, h', p);
    assert ListOk(h, k);
    forall q | q in h'.arenas ensures ArenaOk(h', q, Some(p)) {
      assert ArenaOk(h, q, None);
      PushedArena(h, h', k, p, b, q);
    }
    forall j: nat | j < DESC_CNT ensures ListOk(h', j) {
      assert ListOk(h, j);
      PushedLists(h, h', k, p, b, j);
    }
    forall c | c in h'.live ensures LiveOk(h', c) {
      assert LiveOk(h, c);
      LiveFrame(h, h', c);
    }
  }

  lemma PushedLists(h: Heap, h': Heap, k: nat, p: nat, b: nat, j: nat)
    requires Pushed(h, h', k, p, b) && InArena(h, k, b) && j < DESC_CNT && ListOk(h, j)
    ensures ListOk(h', j)
  {
    SameInArena(h, h', p);
    if j == k {
      PushedList(h, h', k, b);
    } else {
      NotOther(h, j, k, b);
      ListFrame(h, h', j);
    }
  }

  lemma NotOther(h: Heap, j: nat, k: nat, b: nat)
    requires j < DESC_CNT && k < DESC_CNT && j != k && InArena(h, k, b)
    ensures !InArena(h, j, b)
  {
  }

  lemma PushedList(h: Heap, h': Heap, k: nat, b: nat)
    requires k < DESC_CNT == |h.free| == |h'.free| && ListOk(h, k) && InArena(h, k, b) && b in h.live
             && h'.base == h.base
    requires h'.free[k] == [b] + h.free[k] && h'.live == h.live - {b}
    requires forall c :: InArena(h, k, c) <==> InArena(h', k, c)
    ensures ListOk(h', k)
  {
    PushedMembers(h.free[k], b);
    forall c | InArena(h', k, c) ensures c in h'.free[k] <==> c !in h'.live {
      assert InArena(h, k, c);
    }
  }

  // Returning an arena

  lemma {:induction false} RemoveEachIs(list: seq<nat>, blocks: seq<nat>)
    requires NoDup(list) && NoDup(blocks) && forall b :: b in blocks ==> b in list
    ensures NoDup(RemoveEach(list, blocks))
    ensures forall b :: b in RemoveEach(list, blocks) <==> b in list && b !in blocks
    decreases |blocks|
  {
    if blocks != [] {
      assert blocks[0] in blocks;
      WithoutIs(list, blocks[0]);
      PoppedMembers(blocks);
      RemoveEachIs(Without(list, blocks[0]), blocks[1..]);
    }
  }

  /** An arena whose count has reached its number of blocks has every block on the free list. */
  lemma AllFree(h: Heap, p: nat, k: nat)
    requires Inv(h, Some(p)) && p in h.arenas && h.arenas[p].desc == Some(k) && k < DESC_CNT
             && h.arenas[p].freeCnt == PerArena(k)
    ensures forall b :: b in BlockList(h.base + p, k) ==> b in h.free[k]
  {
    var page := h.base + p;
    assert ArenaOk(h, p, Some(p)) && ListOk(h, k);
    BlockListIs(page, k);
    forall b | b in FreeOn(h.free[k], page) ensures b in BlockSet(page, k) {
      assert InArena(h, k, b);
      BlockSetIs(page, k, b);
    }
    SubsetSame(FreeOn(h.free[k], page), BlockSet(page, k));
    forall b | b in BlockList(page, k) ensures b in h.free[k] {
      BlockSetIs(page, k, b);
    }
  }

  ghost predicate Returned(h: Heap, h': Heap, k: nat, p: nat) {
    && k < DESC_CNT == |h.free| && p in h.arenas && h.arenas[p].desc == Some(k)
    && h'.base == h.base && h'.live == h.live && h'.panic == h.panic && h'.arenas == h.arenas - {p}
    && h'.free == h.free[k := RemoveEach(h.free[k], BlockList(h.base + p, k))]
  }

  lemma ReturnKeeps(h: Heap, p: nat, k: nat)
    requires Inv(h, Some(p)) && p in h.arenas && h.arenas[p].desc == Some(k) && k < DESC_CNT
             && h.arenas[p].freeCnt == PerArena(k)
    ensures Inv(ReturnArena(h, p, k), None) && ReturnArena(h, p, k).live == h.live
  {
    AllFree(h, p, k);
    ArenaPages(h, p);
    var h' := ReturnArena(h, p, k);
    var blocks := BlockList(h.base + p, k);
    assert forall i :: 0 <= i < |blocks| ==> blocks[i] in blocks;
    assert Returned(h, h', k, p);
    PagesShrink(h, p, h');
    ReturnedKeeps(h, h', k, p);
  }

  lemma ReturnedKeeps(h: Heap, h': Heap, k: nat, p: nat)
    requires Inv(h, Some(p)) && Returned(h, h', k, p) && PagesOk(h')
    requires forall b :: b in BlockList(h.base + p, k) ==> b in h.free[k]
    ensures Inv(h', None)
  {
    var page := h.base + p;
    assert ListOk(h, k);
    BlockListIs(page, k);
    RemoveEachIs(h.free[k], BlockList(page, k));
    forall q | q in h'.arenas ensures ArenaOk(h', q, None) {
      assert ArenaOk(h, q, Some(p));
      assert h.arenas[q].desc == Some(k) ==> FreeOn(h'.free[k], h.base + q) == FreeOn(h.free[k], h.base + q);
    }
    forall j: nat | j < DESC_CNT ensures ListOk(h', j) {
      assert ListOk(h, j);
      if j == k { ReturnedList(h, h', k, p); } else { ListFrame(h, h', j); }
    }
    forall c | c in h'.live ensures LiveOk(h', c) {
      assert LiveOk(h, c);
      LiveNotReturned(h, k, p, c);
      LiveFrame(h, h', c);
    }
  }

  lemma ReturnedList(h: Heap, h': Heap, k: nat, p: nat)
    requires Returned(h, h', k, p) && ListOk(h, k) && NoDup(h'.free[k])
    requires forall b :: b in h'.free[k] <==> b in h.free[k] && b !in BlockList(h.base + p, k)
    ensures ListOk(h', k)
  {
    BlockListIs(h.base + p, k);
    forall b | b in h'.free[k] ensures InArena(h', k, b) {
      assert InArena(h, k, b);
    }
    forall b | InArena(h', k, b) ensures b in h'.free[k] <==> b !in h'.live {
      assert InArena(h, k, b);
    }
  }

  lemma LiveNotReturned(h: Heap, k: nat, p: nat, c: nat)
    requires k < DESC_CNT == |h.free| && p in h.arenas && h.arenas[p].desc == Some(k) && ListOk(h, k)
    requires forall b :: b in BlockList(h.base + p, k) ==> b in h.free[k]
    requires c in h.live && LiveOk(h, c)
    ensures PageOf(h, c) != p
  {
    if PageOf(h, c) == p {
      assert InArena(h, k, c);
      BlockListIs(h.base + p, k);
    }
  }

  // ------------------------------------------------------------------
  // Every call

  lemma MallocKeeps(h: Heap, size: nat)
    requires Inv(h, None)
    ensures var (h', b) := Malloc(h, size);
            && Inv(h', None) && (size == 0 ==> b == 0 && h' == h)
            && (if b == 0 then h'.live == h.live else b !in h.live && h'.live == h.live[b := size])
  {
    if size > 0 {
      match DescFor(size, 0)
      case None => MallocBigKeeps(h, size);
      case Some(k) =>
        if h.free[k] != [] {
          TakeKeeps(h, k, size, None);
        } else if NewArena(h, k).Some? {
          NewArenaKeeps(h, k);
          TakeKeeps(NewArena(h, k).value, k, size, Some(GetPages(h, 1).1.value));
        }
    }
  }

  lemma FreeKeeps(h: Heap, b: nat)
    requires Inv(h, None) && (b == 0 || b in h.live)
    ensures Inv(Free(h, b), None) && Free(h, b).live == h.live - {b}
  {
    if b != 0 {
      assert LiveOk(h, b);
      var p := PageOf(h, b);
      match h.arenas[p].desc
      case None => FreeBigKeeps(h, b);
      case Some(k) =>
        PushKeeps(h, b);
        var h1 := PushBlock(h, k, p, b);
        assert ArenaOk(h1, p, Some(p));
        if h1.arenas[p].freeCnt == PerArena(k) { ReturnKeeps(h1, p, k); }
    } else {
      LivePage(h, 0);
      assert h.live - {0} == h.live;
    }
  }

  lemma ReallocKeeps(h: Heap, was: nat, size: nat)
    requires Inv(h, None) && (was == 0 || was in h.live)
    ensures var (h', b) := Realloc(h, was, size);
            && Inv(h', None)
            && h'.live == if size == 0 then h.live - {was} else if b == 0 then h.live else h.live[b := size] - {was}
  {
    if size == 0 {
      FreeKeeps(h, was);
    } else {
      MallocKeeps(h, size);
      var (h1, b) := Malloc(h, size);
      LivePage(h, 0);
      if was != 0 && b != 0 { FreeKeeps(h1, was); } else if b != 0 { assert 0 !in h1.live; }
    }
  }

  /** malloc takes the block freed last if there is one of the size, and otherwise the lowest pages that
      are free. */
  lemma MallocWhere(h: Heap, size: nat)
    requires Inv(h, None) && Malloc(h, size).1 != 0
    ensures var b, d := Malloc(h, size).1, DescFor(size, 0);
            if d.Some? && h.free[d.value] != [] then b == h.free[d.value][0]
            else
              var p := FirstRun(h.used, 0, PagesNeeded(h, size), false);
              p.Some? && b == (h.base + p.value) * PGSIZE + HEADER
  {
    var d := DescFor(size, 0);
    if d.Some? && h.free[d.value] == [] {
      var p := FirstRun(h.used, 0, 1, false);
      assert NewArena(h, d.value).Some?;
      assert BlockList(h.base + p.value, d.value)[0] == BlockAt(h.base + p.value, d.value, 0);
    }
  }

  /** What has been freed is what comes next: a block goes back to the front of its list. */
  lemma FreedFirst(h: Heap, b: nat, size: nat)
    requires Inv(h, None) && b in h.live && DescFor(size, 0).Some? && size > 0
    requires Rightful(h, b) && h.arenas[PageOf(h, b)].desc == DescFor(size, 0)
    requires h.arenas[PageOf(h, b)].freeCnt + 1 < PerArena(DescFor(size, 0).value)
    ensures |Free(h, b).free| == DESC_CNT && Malloc(Free(h, b), size).1 == b
  {
    assert LiveOk(h, b);
    FreeKeeps(h, b);
    var k, h1 := DescFor(size, 0).value, Free(h, b);
    assert h1.free[k] == [b] + h.free[k];
    assert ListOk(h1, k) && h1.free[k][0] in h1.free[k];
    assert InArena(h1, k, b);
  }

  /** realloc returns what malloc would, and null for size 0. */
  lemma ReallocWhen(h: Heap, was: nat, size: nat)
    requires Inv(h, None) && (was == 0 || was in h.live)
    ensures Realloc(h, was, size).1 == if size == 0 then 0 else Malloc(h, size).1
  {
  }

  /** The page count of a big request as size_t arithmetic computes it. */
  function PageCount32(size: nat): nat {
    ((size + HEADER) % 0x1_0000_0000 + PGSIZE - 1) % 0x1_0000_0000 / PGSIZE
  }

  /** The count is enough for the request exactly if the arithmetic does not wrap around; if it does
      wrap around, at most one page is asked for. */
  lemma PageCountFits(size: nat)
    requires size < 0x1_0000_0000
    ensures PageCount32(size) * PGSIZE >= size + HEADER <==> size + HEADER + PGSIZE - 1 < 0x1_0000_0000
    ensures if size + HEADER + PGSIZE - 1 < 0x1_0000_0000
            then PageCount32(size) == (size + HEADER + PGSIZE - 1) / PGSIZE
            else PageCount32(size) <= 1
  {
    if size + HEADER >= 0x1_0000_0000 {
      assert (size + HEADER) % 0x1_0000_0000 == size + HEADER - 0x1_0000_0000;
    } else if size + HEADER + PGSIZE - 1 >= 0x1_0000_0000 {
      assert (size + HEADER + PGSIZE - 1) % 0x1_0000_0000 == size + HEADER + PGSIZE - 1 - 0x1_0000_0000;
    }
  }

  /** How many pages malloc must find; none if a block of the right size is free. */
  function PagesNeeded(h: Heap, size: nat): nat
    requires |h.free| == DESC_CNT
  {
    match DescFor(size, 0)
    case None => (size + HEADER + PGSIZE - 1) / PGSIZE
    case Some(k) => if h.free[k] == [] then 1 else 0
  }

  /** malloc fails only for size 0 or for want of that many pages in a row, and a small request gets
      the smallest block size that is large enough. */
  lemma MallocFails(h: Heap, size: nat)
    requires Inv(h, None)
    ensures Malloc(h, size).1 == 0 <==>
              size == 0 || (PagesNeeded(h, size) > 0 && FirstRun(h.used, 0, PagesNeeded(h, size), false) == None)
    ensures var (h', b) := Malloc(h, size);
            b != 0 ==>
              && Rightful(h', b)
              && (if size <= 1024 then 16 <= UsableSize(h', b) < 2 * size + 16 && size <= UsableSize(h', b)
                  else size <= UsableSize(h', b) < size + PGSIZE)
  {
    MallocKeeps(h, size);
    var (h', b) := Malloc(h, size);
    if b != 0 { assert LiveOk(h', b); }
    if size > 0 {
      match DescFor(size, 0)
      case None =>
      case Some(k) =>
        if h.free[k] != [] {
          TakenFits(h, k, size, None);
        } else if NewArena(h, k).Some? {
          NewArenaKeeps(h, k);
          TakenFits(NewArena(h, k).value, k, size, Some(GetPages(h, 1).1.value));
        }
    }
  }

  lemma TakenFits(h: Heap, k: nat, size: nat, full: Option<nat>)
    requires Inv(h, full) && k < DESC_CNT && h.free[k] != [] && 0 < size && DescFor(size, 0) == Some(k)
    requires full.Some? ==> PageOf(h, h.free[k][0]) == full.value
    ensures var (h', b) := TakeBlock(h, k, size); b != 0 && Rightful(h', b) && UsableSize(h', b) == BlockSize(k)
    ensures size <= 1024 && size <= BlockSize(k) && 16 <= BlockSize(k) < 2 * size + 16
  {
    TakeKeeps(h, k, size, full);
    FrontIsRightful(h, k, full);
    assert ListOk(h, k) && h.free[k][0] in h.free[k] && InArena(h, k, h.free[k][0]);
    assert k > 0 ==> BlockSize(k - 1) < size;
  }

  datatype Op = OMalloc(size: nat) | OFree(b: nat) | ORealloc(b: nat, size: nat) | OGet(cnt: nat) | OPut(q: nat)

  /** Only blocks that are live may be freed; other users of the pool free only what they hold. */
  predicate Enabled(h: Heap, op: Op) {
    match op
    case OFree(b) => b == 0 || b in h.live
    case ORealloc(b, size) => b == 0 || b in h.live
    case OPut(q) => q in h.others
    case _ => true
  }

  function Apply(h: Heap, op: Op): Heap
    requires |h.free| == DESC_CNT
  {
    match op
    case OMalloc(size) => Malloc(h, size).0
    case OFree(b) => Free(h, b)
    case ORealloc(b, size) => Realloc(h, b, size).0
    case OGet(cnt) => OthersGet(h, cnt)
    case OPut(q) => PutPages(h.(others := h.others - {q}), q, 1)
  }

  /** Another user of the page allocator takes pages. */
  function OthersGet(h: Heap, cnt: nat): Heap {
    var (h1, p) := GetPages(h, cnt);
    if p == None then h1 else h1.(others := h1.others + Span(p.value, cnt))
  }

  function Span(p: nat, cnt: nat): (s: set<nat>)
    ensures forall q :: q in s <==> p <= q < p + cnt
  {
    if cnt == 0 then {} else Span(p, cnt - 1) + {p + cnt - 1}
  }

  lemma OthersKeep(h: Heap, h': Heap)
    requires Inv(h, None) && PagesOk(h') && h' == h.(used := h'.used, others := h'.others)
    ensures Inv(h', None)
  {
    forall p | p in h'.arenas ensures ArenaOk(h', p, None) {
      assert ArenaOk(h, p, None);
    }
    forall k: nat | k < DESC_CNT ensures ListOk(h', k) {
      assert ListOk(h, k);
      ListFrame(h, h', k);
    }
    forall b | b in h'.live ensures LiveOk(h', b) {
      assert LiveOk(h, b);
    }
  }

  lemma OthersPages(h: Heap, h': Heap)
    requires PagesOk(h) && h' == h.(used := h'.used, others := h'.others) && |h'.used| == |h.used|
    requires forall q :: q in h'.others ==> q < |h.used|
    requires forall q: nat :: q < |h.used| && h.owner[q].Some? ==> q !in h'.others && h'.used[q]
    requires forall q: nat :: q < |h.used| && h.owner[q] == None ==> (h'.used[q] <==> q in h'.others)
    ensures PagesOk(h')
  {
    forall q: nat | q < |h'.used| ensures PageOk(h', q) {
      assert PageOk(h, q);
    }
    forall p | p in h'.arenas ensures Owner(h', p) {
      assert Owner(h, p);
    }
  }

  lemma GetKeeps(h: Heap, cnt: nat)
    requires Inv(h, None)
    ensures Inv(OthersGet(h, cnt), None)
  {
    var h' := OthersGet(h, cnt);
    GetPagesFinds(h, cnt);
    forall q: nat | q < |h.used|
      ensures h.owner[q].Some? ==> q !in h'.others && h'.used[q]
      ensures h.owner[q] == None ==> (h'.used[q] <==> q in h'.others)
    {
      assert PageOk(h, q);
    }
    OthersPages(h, h');
    OthersKeep(h, h');
  }

  lemma PutKeeps(h: Heap, q: nat)
    requires Inv(h, None) && q in h.others
    ensures Inv(PutPages(h.(others := h.others - {q}), q, 1), None)
  {
    assert PageOk(h, q);
    var h' := PutPages(h.(others := h.others - {q}), q, 1);
    forall r: nat | r < |h.used|
      ensures h.owner[r].Some? ==> r !in h'.others && h'.used[r]
      ensures h.owner[r] == None ==> (h'.used[r] <==> r in h'.others)
    {
      assert PageOk(h, r);
    }
    OthersPages(h, h');
    OthersKeep(h, h');
  }

  lemma OpKeeps(h: Heap, op: Op)
    requires Inv(h, None) && Enabled(h, op)
    ensures Inv(Apply(h, op), None)
  {
    match op
    case OMalloc(size) => MallocKeeps(h, size);
    case OFree(b) => FreeKeeps(h, b);
    case ORealloc(b, size) => ReallocKeeps(h, b, size);
    case OGet(cnt) => GetKeeps(h, cnt);
    case OPut(q) => PutKeeps(h, q);
  }

  // ------------------------------------------------------------------
  // What the invariant says

  /** The bytes of a block that its user may touch. */
  predicate InBlock(h: Heap, b: nat, x: nat)
    requires b in h.live
  {
    b <= x < b + h.live[b]
  }

  /** Live blocks do not overlap each other, any arena's header, any free block, or a page that is not
      theirs; and each holds at least what was asked for. */
  ghost predicate BlocksExclusive(h: Heap)
    requires |h.free| == DESC_CNT
  {
    && (forall b, c, x: nat {:trigger InBlock(h, b, x), InBlock(h, c, x)} ::
          b in h.live && c in h.live && InBlock(h, b, x) && InBlock(h, c, x) ==> b == c)
    && (forall b, x: nat {:trigger InBlock(h, b, x)} :: b in h.live && InBlock(h, b, x) ==> ByteOk(h, b, x))
  }

  /** Byte x is in a page of block b's arena, past the header, and in no free block. */
  ghost predicate ByteOk(h: Heap, b: nat, x: nat)
    requires |h.free| == DESC_CNT
  {
    var q := PageOf(h, x);
    && 0 <= q < |h.owner| && q < |h.used| && h.used[q] && q !in h.others && h.owner[q].Some?
    && h.owner[q] == Some(PageOf(h, b)) && x >= PageOf(h, b) * PGSIZE + h.base * PGSIZE + HEADER
    && forall k: nat, f :: k < DESC_CNT && f in h.free[k] ==> !(f <= x < f + BlockSize(k))
  }

  /** Each small arena's count is its number of free blocks, and no arena is entirely unused. */
  ghost predicate CountsExact(h: Heap)
    requires |h.free| == DESC_CNT
  {
    forall p :: p in h.arenas && h.arenas[p].desc.Some? ==>
      var k := h.arenas[p].desc.value;
      k < DESC_CNT && h.arenas[p].freeCnt == |FreeOn(h.free[k], h.base + p)| < PerArena(k)
  }

  /** Every page in use is accounted for; with no live block, everything has gone back. */
  ghost predicate PagesConserved(h: Heap) {
    && |h.owner| == |h.used|
    && (forall q: nat :: q < |h.used| ==> (h.used[q] <==> q in h.others || h.owner[q].Some?))
    && (h.live == map[] ==> h.arenas == map[] && forall q: nat :: q < |h.used| ==> (h.used[q] <==> q in h.others))
  }

  lemma LiveByte(h: Heap, b: nat, x: nat)
    requires Inv(h, None) && b in h.live && InBlock(h, b, x)
    ensures var p, q := PageOf(h, b), PageOf(h, x);
            && p in h.arenas && 0 <= q < |h.owner| && h.owner[q] == Some(p) && x >= (h.base + p) * PGSIZE + HEADER
            && (h.arenas[p].desc.Some? ==> q == p)
  {
    assert LiveOk(h, b);
    var p, q := PageOf(h, b), PageOf(h, x);
    assert Owner(h, p);
    var a := h.arenas[p];
    if a.desc.Some? {
      assert x / PGSIZE == b / PGSIZE;
    } else {
      BigBytes(h.base + p, a.freeCnt, b, x);
    }
  }

  lemma BigBytes(page: nat, cnt: nat, b: nat, x: nat)
    requires b / PGSIZE == page && b % PGSIZE == HEADER && b <= x < page * PGSIZE + cnt * PGSIZE
    ensures page <= x / PGSIZE < page + cnt
  {
  }

  /** A free block's bytes are in its own page. */
  lemma FreeByte(h: Heap, k: nat, f: nat, x: nat)
    requires Inv(h, None) && k < DESC_CNT && f in h.free[k] && f <= x < f + BlockSize(k)
    ensures InArena(h, k, f) && PageOf(h, x) == PageOf(h, f) && f !in h.live
    ensures var p := PageOf(h, f); 0 <= p < |h.owner| && h.owner[p] == Some(p)
  {
    assert ListOk(h, k);
    assert InArena(h, k, f);
    assert Owner(h, PageOf(h, f));
  }

  lemma LiveFreeApart(h: Heap, b: nat, x: nat, k: nat, f: nat)
    requires Inv(h, None) && b in h.live && InBlock(h, b, x) && k < DESC_CNT && f in h.free[k]
    ensures !(f <= x < f + BlockSize(k))
  {
    if f <= x < f + BlockSize(k) {
      LiveByte(h, b, x);
      FreeByte(h, k, f, x);
      assert LiveOk(h, b);
      if b < f { BlocksApart(k, b, f); } else { BlocksApart(k, f, b); }
    }
  }

  lemma LivesApart(h: Heap, b: nat, c: nat, x: nat)
    requires Inv(h, None) && b in h.live && c in h.live && InBlock(h, b, x) && InBlock(h, c, x) && b <= c
    ensures b == c
  {
    LiveByte(h, b, x);
    LiveByte(h, c, x);
    assert LiveOk(h, b) && LiveOk(h, c);
    if b < c && h.arenas[PageOf(h, b)].desc.Some? { BlocksApart(h.arenas[PageOf(h, b)].desc.value, b, c); }
  }

  lemma InvMeansBlocks(h: Heap)
    requires Inv(h, None)
    ensures BlocksExclusive(h)
  {
    forall b, c, x: nat | b in h.live && c in h.live && InBlock(h, b, x) && InBlock(h, c, x) ensures b == c {
      if b <= c { LivesApart(h, b, c, x); } else { LivesApart(h, c, b, x); }
    }
    forall b, x: nat | b in h.live && InBlock(h, b, x) ensures ByteOk(h, b, x) {
      LiveByte(h, b, x);
      assert PageOk(h, PageOf(h, x));
      forall k: nat, f | k < DESC_CNT && f in h.free[k] ensures !(f <= x < f + BlockSize(k)) {
        LiveFreeApart(h, b, x, k, f);
      }
    }
  }

  lemma InvMeansCounts(h: Heap)
    requires Inv(h, None)
    ensures CountsExact(h) && PagesConserved(h)
  {
    forall p | p in h.arenas ensures ArenaOk(h, p, None) {
    }
    forall q: nat | q < |h.used| ensures h.used[q] <==> q in h.others || h.owner[q].Some? {
      assert PageOk(h, q);
    }
    if h.live == map[] {
      forall p | p in h.arenas ensures false {
        SomeLive(h, p);
      }
      forall q: nat | q < |h.used| ensures h.used[q] <==> q in h.others {
        assert PageOk(h, q);
      }
    }
  }

  /** Every arena has a live block. */
  lemma SomeLive(h: Heap, p: nat)
    requires Inv(h, None) && p in h.arenas
    ensures h.live != map[]
  {
    assert ArenaOk(h, p, None);
    if h.arenas[p].desc.Some? && h.live == map[] {
      var k, page := h.arenas[p].desc.value, h.base + p;
      assert ListOk(h, k);
      BlockListIs(page, k);
      forall b | b in BlockSet(page, k) ensures b in FreeOn(h.free[k], page) {
        BlockSetIs(page, k, b);
        assert InArena(h, k, b);
      }
      SubsetSize(BlockSet(page, k), FreeOn(h.free[k], page));
    }
  }

  // ------------------------------------------------------------------
  // Runs

  ghost predicate IsRun(h: Heap, run: seq<Op>)
    decreases |run|
  {
    |h.free| == DESC_CNT && (run != [] ==> Enabled(h, run[0]) && IsRun(Apply(h, run[0]), run[1..]))
  }

  ghost function After(h: Heap, run: seq<Op>): Heap
    requires IsRun(h, run)
    decreases |run|
  {
    if run == [] then h else After(Apply(h, run[0]), run[1..])
  }

  /** malloc_init, with the pages that others already hold. */
  function Fresh(base: nat, others: set<nat>, pages: nat): Heap {
    Heap(base, seq(pages, q => q in others), others, map[], seq(pages, _ => None), [[], [], [], [], [], [], []],
        map[], false)
  }

  lemma FreshHolds(base: nat, others: set<nat>, pages: nat)
    requires base >= 1 && forall q :: q in others ==> q < pages
    ensures Inv(Fresh(base, others, pages), None)
  {
    var h := Fresh(base, others, pages);
    forall k: nat | k < DESC_CNT ensures ListOk(h, k) {
    }
    forall q: nat | q < |h.used| ensures PageOk(h, q) {
    }
  }

  /** Any sequence of calls keeps blocks exclusive, counts exact and pages conserved, without panic. */
  lemma {:induction false} RunKeeps(h: Heap, run: seq<Op>)
    requires Inv(h, None) && IsRun(h, run)
    ensures var h' := After(h, run);
            |h'.free| == DESC_CNT && !h'.panic && BlocksExclusive(h') && CountsExact(h') && PagesConserved(h')
    decreases |run|
  {
    if run == [] {
      InvMeansBlocks(h);
      InvMeansCounts(h);
    } else {
      OpKeeps(h, run[0]);
      RunKeeps(Apply(h, run[0]), run[1..]);
    }
  }
}
