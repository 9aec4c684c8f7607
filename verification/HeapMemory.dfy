/** What malloc.c does to memory: the bytes of a block stay as its owner left them, whatever is
    allocated, freed or resized meanwhile.

    The allocator's own data, arena headers and the links of free blocks, is written without further
    notice; freed blocks and freed pages are filled with 0xcc. */
module HeapMemory {
  import opened Basics
  import opened Malloc

  type Mem = nat -> int

  /** A byte of an arena header or of a free block. */
  ghost predicate Book(h: Heap, x: nat)
    requires |h.free| == DESC_CNT
  {
    || (PageOf(h, x) in h.arenas && x % PGSIZE < HEADER)
    || exists k: nat, f :: k < DESC_CNT && f in h.free[k] && f <= x < f + BlockSize(k)
  }

  /** A byte of the room behind b, which can be more than was asked for. */
  ghost predicate Within(h: Heap, b: nat, x: nat) {
    Rightful(h, b) && b <= x < b + UsableSize(h, b)
  }

  /** A byte that free (b) fills with 0xcc: of the block, of its page if the arena is now unused, or of
      the pages of a big block. */
  ghost predicate Filled(h: Heap, b: nat, x: nat) {
    && Rightful(h, b)
    && var p, q := PageOf(h, b), PageOf(h, x);
       match h.arenas[p].desc
       case None => p <= q < p + h.arenas[p].freeCnt
       case Some(k) => b <= x < b + BlockSize(k) || (h.arenas[p].freeCnt + 1 >= PerArena(k) && q == p)
  }

  /** malloc writes headers and links, and in a new arena links in the block it then hands out. */
  ghost predicate MallocWrites(h: Heap, size: nat, m: Mem, m': Mem)
    requires |h.free| == DESC_CNT && |Malloc.Malloc(h, size).0.free| == DESC_CNT
  {
    var (h', b) := Malloc.Malloc(h, size);
    forall x: nat :: m'(x) != m(x) ==> Book(h, x) || Book(h', x) || (b != 0 && Within(h', b, x))
  }

  ghost predicate FreeWrites(h: Heap, b: nat, m: Mem, m': Mem)
    requires |h.free| == DESC_CNT && |Free(h, b).free| == DESC_CNT
  {
    if b == 0 then forall x: nat :: m'(x) == m(x)
    else
      forall x: nat ::
        if Filled(h, b, x) then m'(x) == 0xcc || Book(Free(h, b), x)
        else m'(x) == m(x) || Book(h, x) || Book(Free(h, b), x)
  }

  /** Memory after memcpy (to, from, n), for regions that do not overlap. */
  function Copied(m: Mem, to: nat, from: nat, n: nat): Mem {
    (x: nat) => if to <= x < to + n then m(x - to + from) else m(x)
  }

  /** How much realloc copies. */
  function CopySize(h: Heap, was: nat, size: nat): (n: nat) {
    if !Rightful(h, was) || UsableSize(h, was) < 0 then 0
    else if size < UsableSize(h, was) then size else UsableSize(h, was)
  }

  /** Memory is `got` once malloc has returned, then the copy is made, then the old block is freed. */
  ghost predicate ReallocWrites(h: Heap, was: nat, size: nat, m: Mem, got: Mem, m': Mem)
    requires Inv(h, None) && (was == 0 || was in h.live)
  {
    FreeKeeps(h, was);
    if size == 0 then FreeWrites(h, was, m, m')
    else
      MallocKeeps(h, size);
      var (h1, b) := Malloc.Malloc(h, size);
      && MallocWrites(h, size, m, got)
      && if b == 0 || was == 0 then forall x: nat :: m'(x) == got(x)
         else
           FreeKeeps(h1, was);
           FreeWrites(h1, was, Copied(got, b, was, CopySize(h1, was, size)), m')
  }

  // ------------------------------------------------------------------
  // What the writes leave alone

  lemma BookSpares(h: Heap, c: nat, x: nat)
    requires Inv(h, None) && c in h.live && InBlock(h, c, x)
    ensures !Book(h, x)
  {
    LiveByte(h, c, x);
    if PageOf(h, x) in h.arenas { assert Owner(h, PageOf(h, x)); }
    forall k: nat, f | k < DESC_CNT && f in h.free[k] ensures !(f <= x < f + BlockSize(k)) {
      LiveFreeApart(h, c, x, k, f);
    }
  }

  /** Live blocks do not overlap even in the room that was not asked for. */
  lemma WholeApart(h: Heap, b: nat, c: nat, x: nat)
    requires Inv(h, None) && b in h.live && c in h.live && c != b && InBlock(h, c, x)
    ensures !Within(h, b, x)
  {
    if Within(h, b, x) {
      LiveByte(h, c, x);
      assert LiveOk(h, b) && LiveOk(h, c) && Owner(h, PageOf(h, b));
      if h.arenas[PageOf(h, b)].desc.Some? {
        var k := h.arenas[PageOf(h, b)].desc.value;
        assert x / PGSIZE == b / PGSIZE;
        if b < c { BlocksApart(k, b, c); } else { BlocksApart(k, c, b); }
      } else {
        BigBytes(b / PGSIZE, h.arenas[PageOf(h, b)].freeCnt, b, x);
      }
    }
  }

  /** When a whole page is filled, the arena is gone. */
  lemma FillDrops(h: Heap, b: nat)
    requires Inv(h, None) && b in h.live && Rightful(h, b)
    requires var a := h.arenas[PageOf(h, b)]; a.desc.Some? ==> a.freeCnt + 1 >= PerArena(a.desc.value)
    ensures Inv(Free(h, b), None) && PageOf(h, b) !in Free(h, b).arenas
  {
    assert LiveOk(h, b);
    FreeKeeps(h, b);
    LivePage(h, 0);
  }

  lemma FillSpares(h: Heap, b: nat, c: nat, x: nat)
    requires Inv(h, None) && b in h.live && c in h.live && c != b && InBlock(h, c, x)
    ensures !Filled(h, b, x)
  {
    assert LiveOk(h, b);
    var p := PageOf(h, b);
    var a := h.arenas[p];
    WholeApart(h, b, c, x);
    LiveByte(h, c, x);
    assert Owner(h, p);
    FreeKeeps(h, b);
    if a.desc.Some? ==> a.freeCnt + 1 >= PerArena(a.desc.value) {
      FillDrops(h, b);
      LivePage(Free(h, b), c);
      SameBase(h, b);
    }
  }

  lemma SameBase(h: Heap, b: nat)
    requires |h.free| == DESC_CNT
    ensures Free(h, b).base == h.base
  {
  }

  /** The bytes of block c are the same. */
  ghost predicate Kept(h: Heap, c: nat, m: Mem, m': Mem)
    requires c in h.live
  {
    forall x: nat :: InBlock(h, c, x) ==> m'(x) == m(x)
  }

  lemma MallocSpares(h: Heap, size: nat, m: Mem, m': Mem, c: nat)
    requires Inv(h, None) && c in h.live
    requires |Malloc.Malloc(h, size).0.free| == DESC_CNT && MallocWrites(h, size, m, m')
    ensures Kept(h, c, m, m')
  {
    MallocKeeps(h, size);
    var (h', b) := Malloc.Malloc(h, size);
    forall x: nat | InBlock(h, c, x) ensures m'(x) == m(x) {
      BookSpares(h, c, x);
      BookSpares(h', c, x);
      if b != 0 { WholeApart(h', b, c, x); }
    }
  }

  lemma FreeSpares(h: Heap, b: nat, m: Mem, m': Mem, c: nat)
    requires Inv(h, None) && (b == 0 || b in h.live) && c in h.live && c != b
    requires |Free(h, b).free| == DESC_CNT && FreeWrites(h, b, m, m')
    ensures Kept(h, c, m, m')
  {
    FreeKeeps(h, b);
    if b != 0 {
      forall x: nat | InBlock(h, c, x) ensures m'(x) == m(x) {
        FillSpares(h, b, c, x);
        BookSpares(h, c, x);
        BookSpares(Free(h, b), c, x);
      }
    }
  }

  // ------------------------------------------------------------------
  // realloc

  /** After realloc the new block starts with the old one's bytes, and all other live blocks are as
      they were. */
  ghost predicate Moved(h: Heap, was: nat, b: nat, size: nat, m: Mem, m': Mem)
    requires was in h.live
  {
    && (forall x: nat :: b <= x < b + size && x - b < h.live[was] ==> m'(x) == m(x - b + was))
    && (forall c :: c in h.live && c != was ==> Kept(h, c, m, m'))
  }

  lemma ReallocMoves(h: Heap, was: nat, size: nat, m: Mem, got: Mem, m': Mem)
    requires Inv(h, None) && was in h.live && size > 0 && ReallocWrites(h, was, size, m, got, m')
    ensures var (h', b) := Realloc(h, was, size);
            if b == 0 then forall c :: c in h.live ==> c in h'.live && Kept(h, c, m, m')
            else b !in h.live && h'.live == h.live[b := size] - {was} && Moved(h, was, b, size, m, m')
  {
    ReallocKeeps(h, was, size);
    MallocKeeps(h, size);
    LivePage(h, was);
    var (h1, b) := Malloc.Malloc(h, size);
    forall c | c in h.live ensures Kept(h, c, m, got) {
      MallocSpares(h, size, m, got, c);
    }
    if b != 0 {
      FreeKeeps(h1, was);
      assert was != 0 by { assert LiveOk(h, was); }
      CopyThenFree(h1, was, b, got, m');
      MovedBefore(h, h1, was, b, size, m, got, m');
    }
  }

  lemma CopyThenFree(h: Heap, was: nat, b: nat, m: Mem, m': Mem)
    requires Inv(h, None) && was in h.live && b in h.live && was != b && was != 0
    requires |Free(h, was).free| == DESC_CNT
    requires FreeWrites(h, was, Copied(m, b, was, CopySize(h, was, h.live[b])), m')
    ensures forall x: nat :: InBlock(h, b, x) && x - b < h.live[was] ==> m'(x) == m(x - b + was)
    ensures forall c :: c in h.live && c != was && c != b ==> Kept(h, c, m, m')
  {
    var mid := Copied(m, b, was, CopySize(h, was, h.live[b]));
    CopyLands(h, was, b, m);
    FreeSpares(h, was, mid, m', b);
    forall c | c in h.live && c != was && c != b ensures Kept(h, c, m, m') {
      FreeSpares(h, was, mid, m', c);
      CopySpares(h, was, b, m, c);
      KeptTwice(h, c, m, mid, m');
    }
  }

  lemma CopyLands(h: Heap, was: nat, b: nat, m: Mem)
    requires Inv(h, None) && was in h.live && b in h.live
    ensures var mid := Copied(m, b, was, CopySize(h, was, h.live[b]));
            forall x: nat :: InBlock(h, b, x) && x - b < h.live[was] ==> mid(x) == m(x - b + was)
  {
    assert LiveOk(h, was);
  }

  lemma CopySpares(h: Heap, was: nat, b: nat, m: Mem, c: nat)
    requires Inv(h, None) && b in h.live && c in h.live && c != b
    ensures Kept(h, c, m, Copied(m, b, was, CopySize(h, was, h.live[b])))
  {
    assert LiveOk(h, b);
    forall x: nat | InBlock(h, c, x) ensures !(b <= x < b + h.live[b]) {
      WholeApart(h, b, c, x);
    }
  }

  lemma KeptTwice(h: Heap, c: nat, m: Mem, m1: Mem, m2: Mem)
    requires c in h.live && Kept(h, c, m, m1) && Kept(h, c, m1, m2)
    ensures Kept(h, c, m, m2)
  {
  }

  lemma MovedBefore(h: Heap, h1: Heap, was: nat, b: nat, size: nat, m: Mem, got: Mem, m': Mem)
    requires was in h.live && b !in h.live && h1.live == h.live[b := size]
    requires forall c :: c in h.live ==> Kept(h, c, m, got)
    requires forall x: nat :: InBlock(h1, b, x) && x - b < h.live[was] ==> m'(x) == got(x - b + was)
    requires forall c :: c in h1.live && c != was && c != b ==> Kept(h1, c, got, m')
    ensures Moved(h, was, b, size, m, m')
  {
    forall x: nat | b <= x < b + size && x - b < h.live[was] ensures m'(x) == m(x - b + was) {
      assert InBlock(h1, b, x) && InBlock(h, was, x - b + was) && Kept(h, was, m, got);
    }
    forall c | c in h.live && c != was ensures Kept(h, c, m, m') {
      assert Kept(h, c, m, got) && Kept(h1, c, got, m');
      forall x: nat | InBlock(h, c, x) ensures m'(x) == m(x) {
        assert InBlock(h1, c, x);
      }
    }
  }

  // ------------------------------------------------------------------
  // Runs

  /** A call, or a write by the owner of a block, with the memory it leaves behind. */
  datatype Event =
    | Get(size: nat, after: Mem)
    | Release(b: nat, after: Mem)
    | Resize(b: nat, size: nat, got: Mem, after: Mem)
    | Pool(op: Op, after: Mem)
    | Store(b: nat, after: Mem)

  /** A byte of a page that belongs to an arena. */
  predicate Owned(h: Heap, x: nat) {
    var q := PageOf(h, x);
    0 <= q < |h.owner| && h.owner[q].Some?
  }

  ghost predicate Possible(h: Heap, m: Mem, e: Event)
    requires Inv(h, None)
  {
    match e
    case Get(size, after) => MallocKeeps(h, size); MallocWrites(h, size, m, after)
    case Release(b, after) => (b == 0 || b in h.live) && (FreeKeeps(h, b); FreeWrites(h, b, m, after))
    case Resize(b, size, got, after) => (b == 0 || b in h.live) && ReallocWrites(h, b, size, m, got, after)
    case Pool(op, after) =>
      (op.OGet? || op.OPut?) && Enabled(h, op) && forall x: nat :: after(x) != m(x) ==> !Owned(h, x)
    case Store(b, after) => b in h.live && forall x: nat :: after(x) != m(x) ==> InBlock(h, b, x)
  }

  ghost function HeapAfter(h: Heap, e: Event): (h': Heap)
    requires Inv(h, None) && (e.Release? || e.Resize? ==> e.b == 0 || e.b in h.live) && (e.Pool? ==> Enabled(h, e.op))
    ensures Inv(h', None)
  {
    match e
    case Get(size, _) => OpKeeps(h, OMalloc(size)); Apply(h, OMalloc(size))
    case Release(b, _) => OpKeeps(h, OFree(b)); Apply(h, OFree(b))
    case Resize(b, size, _, _) => OpKeeps(h, ORealloc(b, size)); Apply(h, ORealloc(b, size))
    case Pool(op, _) => OpKeeps(h, op); Apply(h, op)
    case Store(_, _) => h
  }

  ghost predicate IsTrace(h: Heap, m: Mem, run: seq<Event>)
    requires Inv(h, None)
    decreases |run|
  {
    run != [] ==> Possible(h, m, run[0]) && IsTrace(HeapAfter(h, run[0]), run[0].after, run[1..])
  }

  /** The memory at the end. */
  ghost function MemoryAfter(m: Mem, run: seq<Event>): Mem {
    if run == [] then m else MemoryAfter(run[0].after, run[1..])
  }

  ghost function HeapEnd(h: Heap, m: Mem, run: seq<Event>): (h': Heap)
    requires Inv(h, None) && IsTrace(h, m, run)
    ensures Inv(h', None)
    decreases |run|
  {
    if run == [] then h else HeapEnd(HeapAfter(h, run[0]), run[0].after, run[1..])
  }

  /** The event is not about block c. */
  predicate Elsewhere(e: Event, c: nat) { e.Release? || e.Resize? || e.Store? ==> e.b != c }

  lemma EventSpares(h: Heap, m: Mem, e: Event, c: nat)
    requires Inv(h, None) && Possible(h, m, e) && c in h.live && Elsewhere(e, c)
    ensures var h' := HeapAfter(h, e); c in h'.live && h'.live[c] == h.live[c]
    ensures Kept(h, c, m, e.after)
  {
    match e
    case Get(size, after) => MallocKeeps(h, size); MallocSpares(h, size, m, after, c);
    case Release(b, after) => FreeKeeps(h, b); FreeSpares(h, b, m, after, c);
    case Resize(b, size, got, after) => ResizeSpares(h, b, size, m, got, after, c);
    case Pool(op, after) => PoolSpares(h, op, m, after, c);
    case Store(b, after) => StoreSpares(h, b, m, after, c);
  }

  lemma ResizeSpares(h: Heap, b: nat, size: nat, m: Mem, got: Mem, m': Mem, c: nat)
    requires Inv(h, None) && (b == 0 || b in h.live) && ReallocWrites(h, b, size, m, got, m') && c in h.live && c != b
    ensures var h' := Realloc(h, b, size).0; c in h'.live && h'.live[c] == h.live[c]
    ensures Kept(h, c, m, m')
  {
    ReallocKeeps(h, b, size);
    if size == 0 {
      FreeKeeps(h, b);
      FreeSpares(h, b, m, m', c);
    } else if b != 0 {
      ReallocMoves(h, b, size, m, got, m');
    } else {
      MallocKeeps(h, size);
      MallocSpares(h, size, m, got, c);
    }
  }

  lemma PoolSpares(h: Heap, op: Op, m: Mem, m': Mem, c: nat)
    requires Inv(h, None) && (op.OGet? || op.OPut?) && c in h.live
    requires forall x: nat :: m'(x) != m(x) ==> !Owned(h, x)
    ensures Apply(h, op).live == h.live && Kept(h, c, m, m')
  {
    forall x: nat | InBlock(h, c, x) ensures m'(x) == m(x) {
      LiveByte(h, c, x);
    }
  }

  lemma StoreSpares(h: Heap, b: nat, m: Mem, m': Mem, c: nat)
    requires Inv(h, None) && b in h.live && c in h.live && c != b
    requires forall x: nat :: m'(x) != m(x) ==> InBlock(h, b, x)
    ensures Kept(h, c, m, m')
  {
    forall x: nat | InBlock(h, c, x) ensures m'(x) == m(x) {
      if InBlock(h, b, x) {
        if b <= c { LivesApart(h, b, c, x); } else { LivesApart(h, c, b, x); }
      }
    }
  }

  /** However long a run, a block that is neither freed, resized nor written by its owner stays live and
      keeps its bytes. */
  lemma {:induction false} BytesKept(h: Heap, m: Mem, run: seq<Event>, c: nat)
    requires Inv(h, None) && IsTrace(h, m, run) && c in h.live
    requires forall i :: 0 <= i < |run| ==> Elsewhere(run[i], c)
    ensures var h' := HeapEnd(h, m, run); c in h'.live && h'.live[c] == h.live[c]
    ensures Kept(h, c, m, MemoryAfter(m, run))
    decreases |run|
  {
    if run != [] {
      var h1, m1 := HeapAfter(h, run[0]), run[0].after;
      assert Elsewhere(run[0], c);
      EventSpares(h, m, run[0], c);
      forall i | 0 <= i < |run[1..]| ensures Elsewhere(run[1..][i], c) {
        assert run[1..][i] == run[i + 1];
      }
      BytesKept(h1, m1, run[1..], c);
      forall x: nat | InBlock(h, c, x) ensures MemoryAfter(m, run)(x) == m(x) {
        assert InBlock(h1, c, x);
      }
    }
  }
}
