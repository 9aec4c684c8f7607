/** Page directories over physical memory (pagedir.c), the two page pools (palloc.c) and the demand-zero
    page fault handler (exception.c).

    Pages are named by their page number in physical memory.  The kernel pool is pages kBase ..
    kBase + |kUsed|, the user pool pages uBase .. uBase + |uUsed|. */
module Mmu {
  import opened Basics
  import opened Bitmap
  import opened PageTable

  function Filled(e: Word): Page { seq(1024, _ => e) }

  // ------------------------------------------------------------------
  // What a page directory means

  /** The page table for directory index i. */
  function TableAt(mem: seq<Page>, d: nat, i: nat): Option<nat>
    requires d < |mem| && i < 1024
  {
    if mem[d][i] == 0 then None else Some(Frame(mem[d][i]))
  }

  /** The page table entry of user page u, 0 if there is no table for it. */
  function Entry(mem: seq<Page>, d: nat, u: nat): Word
    requires d < |mem| && u < USER_PAGES
  {
    var t := TableAt(mem, d, u / 1024);
    if t.Some? && t.value < |mem| then mem[t.value][u % 1024] else 0
  }

  /** The translation of user page u. */
  function Translate(mem: seq<Page>, d: nat, u: nat): Option<nat>
    requires d < |mem| && u < USER_PAGES
  {
    var e := Entry(mem, d, u);
    if Present(e) then Some(Frame(e)) else None
  }

  /** History: whose table and whose frame each page is. */
  datatype Owners = Owners(tables: map<nat, nat>, frames: map<nat, nat>)

  ghost predicate TableOk(mem: seq<Page>, d: nat, o: Owners, i: nat)
    requires d < |mem| && i < USER_TABLES
  {
    var t := TableAt(mem, d, i);
    t.Some? ==> Present(mem[d][i]) && t.value < |mem| && t.value in o.tables && o.tables[t.value] == i
  }

  ghost predicate EntryOk(mem: seq<Page>, d: nat, o: Owners, u: nat)
    requires d < |mem| && u < USER_PAGES
  {
    var e := Entry(mem, d, u);
    e != 0 ==> Present(e) && Frame(e) in o.frames && o.frames[Frame(e)] == u
  }

  ghost predicate TableHome(mem: seq<Page>, d: nat, o: Owners, ti: nat, t: nat)
    requires d < |mem| && t in o.tables
  {
    ti <= o.tables[t] < USER_TABLES && TableAt(mem, d, o.tables[t]) == Some(t) && t < |mem| && t !in o.frames
  }

  ghost predicate FrameHome(mem: seq<Page>, d: nat, o: Owners, ui: nat, f: nat)
    requires d < |mem| && f in o.frames
  {
    f < |mem| && ui <= o.frames[f] < USER_PAGES && Translate(mem, d, o.frames[f]) == Some(f)
  }

  /** The directory from table index ti and user page ui on; the whole directory is SpaceFrom(.., 0, 0).
      Tables and frames belong to one index and one user page each, and point back to it. */
  ghost predicate SpaceFrom(mem: seq<Page>, d: nat, o: Owners, ti: nat, ui: nat) {
    && d < |mem| && d !in o.tables && d !in o.frames
    && (forall i {:trigger TableOk(mem, d, o, i)} :: ti <= i < USER_TABLES ==> TableOk(mem, d, o, i))
    && (forall u {:trigger EntryOk(mem, d, o, u)} :: ui <= u < USER_PAGES ==> EntryOk(mem, d, o, u))
    && (forall t {:trigger TableHome(mem, d, o, ti, t)} :: t in o.tables ==> TableHome(mem, d, o, ti, t))
    && (forall f {:trigger FrameHome(mem, d, o, ui, f)} :: f in o.frames ==> FrameHome(mem, d, o, ui, f))
  }

  ghost predicate SpaceOk(mem: seq<Page>, d: nat, o: Owners) { SpaceFrom(mem, d, o, 0, 0) }

  /** The directory is a partial injective map: no frame is mapped twice. */
  lemma Injective(mem: seq<Page>, d: nat, o: Owners, u: nat, v: nat)
    requires SpaceOk(mem, d, o) && u < USER_PAGES && v < USER_PAGES
    requires Translate(mem, d, u).Some? && Translate(mem, d, u) == Translate(mem, d, v)
    ensures u == v
  {
    assert EntryOk(mem, d, o, u) && EntryOk(mem, d, o, v);
  }

  /** A pool's used map: the pages of others and the ones owned, never both. */
  ghost predicate Accounted(base: nat, used: seq<bool>, others: seq<bool>, owned: set<nat>) {
    && |others| == |used|
    && (forall q: nat :: q < |used| ==>
          used[q] == (others[q] || base + q in owned) && !(others[q] && base + q in owned))
    && (forall p :: p in owned ==> base <= p < base + |used|)
  }

  lemma AccountTake(base: nat, used: seq<bool>, others: seq<bool>, owned: set<nat>, q: nat)
    requires Accounted(base, used, others, owned) && q < |used| && !used[q]
    ensures Accounted(base, used[q := true], others, owned + {base + q}) && base + q !in owned
  {
  }

  lemma AccountGive(base: nat, used: seq<bool>, others: seq<bool>, owned: set<nat>, p: nat)
    requires Accounted(base, used, others, owned) && p in owned
    ensures base <= p < base + |used| && used[p - base]
    ensures Accounted(base, used[p - base := false], others, owned - {p})
  {
  }

  /** Entries see only the directory and the tables. */
  lemma SameEntries(mem: seq<Page>, mem': seq<Page>, d: nat, o: Owners, ti: nat, ui: nat)
    requires SpaceFrom(mem, d, o, ti, ui) && |mem'| == |mem| && mem'[d] == mem[d]
    requires forall t :: t in o.tables && t < |mem| ==> mem'[t] == mem[t]
    ensures forall i :: 0 <= i < 1024 ==> TableAt(mem', d, i) == TableAt(mem, d, i)
    ensures forall u :: ti * 1024 <= u < USER_PAGES ==> Entry(mem', d, u) == Entry(mem, d, u)
  {
    forall u | ti * 1024 <= u < USER_PAGES ensures Entry(mem', d, u) == Entry(mem, d, u) {
      assert TableOk(mem, d, o, u / 1024);
    }
  }

  /** Filling or poisoning a page that is neither the directory nor a table changes no translation. */
  lemma SpaceFrame(mem: seq<Page>, mem': seq<Page>, d: nat, o: Owners, ti: nat, ui: nat)
    requires SpaceFrom(mem, d, o, ti, ui) && |mem'| == |mem| && mem'[d] == mem[d] && ti * 1024 <= ui
    requires forall t :: t in o.tables && t < |mem| ==> mem'[t] == mem[t]
    ensures SpaceFrom(mem', d, o, ti, ui)
  {
    SameEntries(mem, mem', d, o, ti, ui);
    forall i | ti <= i < USER_TABLES ensures TableOk(mem', d, o, i) {
      assert TableOk(mem, d, o, i);
    }
    forall u | ui <= u < USER_PAGES ensures EntryOk(mem', d, o, u) {
      assert EntryOk(mem, d, o, u);
    }
    forall t | t in o.tables ensures TableHome(mem', d, o, ti, t) {
      assert TableHome(mem, d, o, ti, t);
    }
    forall f | f in o.frames ensures FrameHome(mem', d, o, ui, f) {
      assert FrameHome(mem, d, o, ui, f);
    }
  }

  lemma NewDirectory(mem: seq<Page>, d: nat, init: Page)
    requires d < |mem| && mem[d] == init && forall i :: 0 <= i < USER_TABLES ==> init[i] == 0
    ensures SpaceOk(mem, d, Owners(map[], map[])) && forall u: nat :: u < USER_PAGES ==> Translate(mem, d, u) == None
  {
    var o := Owners(map[], map[]);
    forall i: nat | i < USER_TABLES ensures TableOk(mem, d, o, i) {
    }
    forall u: nat | u < USER_PAGES ensures Entry(mem, d, u) == 0 {
    }
    forall u: nat | u < USER_PAGES ensures EntryOk(mem, d, o, u) {
    }
  }

  /** lookup_page creating a table: *pde = pde_create (pt), on a zeroed page. */
  function WithTable(mem: seq<Page>, d: nat, i: nat, t: nat): seq<Page>
    requires d < |mem| && t < |mem| <= 0x10_0000 && i < 1024
  {
    mem[t := Filled(0)][d := mem[d][i := PdeCreate(t)]]
  }

  lemma TableAdded(mem: seq<Page>, d: nat, o: Owners, i: nat, t: nat)
    requires SpaceOk(mem, d, o) && i < USER_TABLES && mem[d][i] == 0 && |mem| <= 0x10_0000
    requires t < |mem| && t != d && t !in o.tables && t !in o.frames
    ensures var mem' := WithTable(mem, d, i, t);
            && SpaceOk(mem', d, o.(tables := o.tables[t := i])) && TableAt(mem', d, i) == Some(t)
            && forall u: nat :: u < USER_PAGES ==> Entry(mem', d, u) == Entry(mem, d, u)
  {
    var mem', o' := WithTable(mem, d, i, t), o.(tables := o.tables[t := i]);
    EntryRoundTrip(t, true);
    forall j: nat | j < USER_TABLES ensures TableOk(mem', d, o', j) {
      assert TableOk(mem, d, o, j);
    }
    forall u: nat | u < USER_PAGES ensures Entry(mem', d, u) == Entry(mem, d, u) {
      assert TableOk(mem, d, o, u / 1024);
    }
    forall u: nat | u < USER_PAGES ensures EntryOk(mem', d, o', u) {
      assert EntryOk(mem, d, o, u);
    }
    forall s | s in o'.tables ensures TableHome(mem', d, o', 0, s) {
      if s != t { assert TableHome(mem, d, o, 0, s); }
    }
    forall f | f in o'.frames ensures FrameHome(mem', d, o', 0, f) {
      assert FrameHome(mem, d, o, 0, f);
    }
  }

  /** Storing to the page table entry of u. */
  function WithEntry(mem: seq<Page>, t: nat, u: nat, e: Word): seq<Page>
    requires t < |mem|
  {
    mem[t := mem[t][u % 1024 := e]]
  }

  lemma EntryStored(mem: seq<Page>, d: nat, o: Owners, u: nat, t: nat, e: Word)
    requires SpaceOk(mem, d, o) && u < USER_PAGES && TableAt(mem, d, u / 1024) == Some(t)
    ensures t < |mem| && t != d && t in o.tables
    ensures var mem' := WithEntry(mem, t, u, e);
            && (forall i :: 0 <= i < 1024 ==> TableAt(mem', d, i) == TableAt(mem, d, i))
            && (forall v: nat :: v < USER_PAGES ==> Entry(mem', d, v) == if v == u then e else Entry(mem, d, v))
  {
    assert TableOk(mem, d, o, u / 1024);
    var mem' := WithEntry(mem, t, u, e);
    forall v: nat | v < USER_PAGES ensures Entry(mem', d, v) == if v == u then e else Entry(mem, d, v) {
      assert TableOk(mem, d, o, v / 1024);
    }
  }

  lemma FrameAdded(mem: seq<Page>, d: nat, o: Owners, u: nat, t: nat, f: nat, e: Word)
    requires SpaceOk(mem, d, o) && u < USER_PAGES && TableAt(mem, d, u / 1024) == Some(t) && t < |mem|
             && Entry(mem, d, u) == 0
    requires f < |mem| && f != d && f !in o.tables && f !in o.frames && Present(e) && Frame(e) == f
    ensures SpaceOk(WithEntry(mem, t, u, e), d, o.(frames := o.frames[f := u]))
  {
    var mem', o' := WithEntry(mem, t, u, e), o.(frames := o.frames[f := u]);
    EntryStored(mem, d, o, u, t, e);
    forall j: nat | j < USER_TABLES ensures TableOk(mem', d, o', j) {
      assert TableOk(mem, d, o, j);
    }
    forall v: nat | v < USER_PAGES ensures EntryOk(mem', d, o', v) {
      assert EntryOk(mem, d, o, v);
    }
    forall s | s in o'.tables ensures TableHome(mem', d, o', 0, s) {
      assert TableHome(mem, d, o, 0, s);
    }
    forall g | g in o'.frames ensures FrameHome(mem', d, o', 0, g) {
      if g != f { assert FrameHome(mem, d, o, 0, g); }
    }
  }

  /** Changing flags keeps every translation. */
  lemma FlagsStored(mem: seq<Page>, d: nat, o: Owners, u: nat, t: nat, e: Word)
    requires SpaceOk(mem, d, o) && u < USER_PAGES && TableAt(mem, d, u / 1024) == Some(t) && t < |mem|
    requires Entry(mem, d, u) != 0 && Present(e) && Frame(e) == Frame(Entry(mem, d, u))
    ensures SpaceOk(WithEntry(mem, t, u, e), d, o)
    ensures forall v: nat :: v < USER_PAGES ==> Translate(WithEntry(mem, t, u, e), d, v) == Translate(mem, d, v)
  {
    var mem' := WithEntry(mem, t, u, e);
    EntryStored(mem, d, o, u, t, e);
    assert EntryOk(mem, d, o, u);
    forall j: nat | j < USER_TABLES ensures TableOk(mem', d, o, j) {
      assert TableOk(mem, d, o, j);
    }
    forall v: nat | v < USER_PAGES ensures EntryOk(mem', d, o, v) {
      assert EntryOk(mem, d, o, v);
    }
    forall s | s in o.tables ensures TableHome(mem', d, o, 0, s) {
      assert TableHome(mem, d, o, 0, s);
    }
    forall f | f in o.frames ensures FrameHome(mem', d, o, 0, f) {
      assert FrameHome(mem, d, o, 0, f);
    }
  }

  /** Destruction moves past user page u, whose frame, if any, has been given back. */
  lemma FrameDropped(mem: seq<Page>, d: nat, o: Owners, ti: nat, u: nat)
    requires SpaceFrom(mem, d, o, ti, u) && u < USER_PAGES && u / 1024 == ti
    ensures var f := Translate(mem, d, u);
            && (f.Some? ==> f.value in o.frames)
            && SpaceFrom(mem, d, if f.Some? then o.(frames := o.frames - {f.value}) else o, ti, u + 1)
  {
    assert EntryOk(mem, d, o, u);
    var f := Translate(mem, d, u);
    var o' := if f.Some? then o.(frames := o.frames - {f.value}) else o;
    forall i | ti <= i < USER_TABLES ensures TableOk(mem, d, o', i) {
      assert TableOk(mem, d, o, i);
    }
    forall v | u + 1 <= v < USER_PAGES ensures EntryOk(mem, d, o', v) {
      assert EntryOk(mem, d, o, v);
    }
    forall t | t in o'.tables ensures TableHome(mem, d, o', ti, t) {
      assert TableHome(mem, d, o, ti, t);
    }
    forall g | g in o'.frames ensures FrameHome(mem, d, o', u + 1, g) {
      assert FrameHome(mem, d, o, u, g);
    }
  }

  lemma TableDropped(mem: seq<Page>, d: nat, o: Owners, ti: nat)
    requires SpaceFrom(mem, d, o, ti, ti * 1024 + 1024) && ti < USER_TABLES
    ensures var t := TableAt(mem, d, ti);
            && (t.Some? ==> t.value in o.tables && Present(mem[d][ti]))
            && SpaceFrom(mem, d, if t.Some? then o.(tables := o.tables - {t.value}) else o, ti + 1, ti * 1024 + 1024)
  {
    assert TableOk(mem, d, o, ti);
    var t := TableAt(mem, d, ti);
    var o' := if t.Some? then o.(tables := o.tables - {t.value}) else o;
    forall i | ti + 1 <= i < USER_TABLES ensures TableOk(mem, d, o', i) {
      assert TableOk(mem, d, o, i);
    }
    forall v | ti * 1024 + 1024 <= v < USER_PAGES ensures EntryOk(mem, d, o', v) {
      assert EntryOk(mem, d, o, v);
    }
    forall s | s in o'.tables ensures TableHome(mem, d, o', ti + 1, s) {
      assert TableHome(mem, d, o, ti, s);
    }
    forall f | f in o'.frames ensures FrameHome(mem, d, o', ti * 1024 + 1024, f) {
      assert FrameHome(mem, d, o, ti * 1024 + 1024, f);
    }
  }

  /** A directory index without a table has nothing to give back. */
  lemma TableSkipped(mem: seq<Page>, d: nat, o: Owners, ti: nat)
    requires SpaceFrom(mem, d, o, ti, ti * 1024) && ti < USER_TABLES && mem[d][ti] == 0
    ensures SpaceFrom(mem, d, o, ti + 1, ti * 1024 + 1024)
  {
    forall i | ti + 1 <= i < USER_TABLES ensures TableOk(mem, d, o, i) {
      assert TableOk(mem, d, o, i);
    }
    forall t | t in o.tables ensures TableHome(mem, d, o, ti + 1, t) {
      assert TableHome(mem, d, o, ti, t);
    }
    forall f | f in o.frames ensures FrameHome(mem, d, o, ti * 1024 + 1024, f) {
      assert FrameHome(mem, d, o, ti * 1024, f);
    }
    forall v | ti * 1024 + 1024 <= v < USER_PAGES ensures EntryOk(mem, d, o, v) {
      assert EntryOk(mem, d, o, v);
    }
  }

  /** The words that user page u maps to. */
  function Contents(mem: seq<Page>, d: nat, u: nat): Option<Page>
    requires d < |mem| && u < USER_PAGES
  {
    var f := Translate(mem, d, u);
    if f.Some? && f.value < |mem| then Some(mem[f.value]) else None
  }

  /** Writing to pages below lo, and to one page that is not mapped, changes nobody's contents. */
  lemma SameContents(mem: seq<Page>, mem': seq<Page>, d: nat, o: Owners, lo: nat, p: nat)
    requires SpaceOk(mem, d, o) && |mem'| == |mem| && p !in o.frames && forall f :: f in o.frames ==> lo <= f
    requires forall q :: lo <= q < |mem| && q != p ==> mem'[q] == mem[q]
    ensures forall v: nat :: v < USER_PAGES && Translate(mem', d, v) == Translate(mem, d, v) ==>
              Contents(mem', d, v) == Contents(mem, d, v)
  {
    forall v: nat | v < USER_PAGES && Translate(mem', d, v) == Translate(mem, d, v)
      ensures Contents(mem', d, v) == Contents(mem, d, v)
    {
      assert EntryOk(mem, d, o, v);
    }
  }

  lemma NothingLeft(mem: seq<Page>, d: nat, o: Owners)
    requires SpaceFrom(mem, d, o, USER_TABLES, USER_PAGES)
    ensures o == Owners(map[], map[])
  {
    forall t: nat ensures t !in o.tables {
      assert t in o.tables ==> TableHome(mem, d, o, USER_TABLES, t);
    }
    forall f: nat ensures f !in o.frames {
      assert f in o.frames ==> FrameHome(mem, d, o, USER_PAGES, f);
    }
    assert o.tables == map[] && o.frames == map[];
  }

  predicate Exhausted(used: seq<bool>) { forall q :: 0 <= q < |used| ==> used[q] }

  lemma BelowFirst(used: seq<bool>, q: nat)
    requires FirstRun(used, 0, 1, false) == Some(q)
    ensures forall p :: 0 <= p < q ==> used[p]
  {
    forall p | 0 <= p < q ensures used[p] {
      assert !AllAre(used, p, 1, false);
    }
  }

  lemma NoneFree(used: seq<bool>)
    requires FirstRun(used, 0, 1, false) == None
    ensures Exhausted(used)
  {
    forall q: nat | q < |used| ensures used[q] {
      assert !AllAre(used, q, 1, false);
    }
  }

  /** No user page is left for u's frame, or no kernel page for the table it needs. */
  predicate OutOfPages(mem: seq<Page>, d: nat, u: nat, kUsed: seq<bool>, uUsed: seq<bool>)
    requires d < |mem| && u < USER_PAGES
  {
    Exhausted(uUsed) || (mem[d][u / 1024] == 0 && Exhausted(kUsed))
  }

  // ------------------------------------------------------------------
  // The machine

  /** What page_fault does with a fault. */
  datatype Outcome = Recovered | Handled | Killed

  /** The error code bits of a page fault, its address, and whether eip equals eax. */
  datatype Fault = Fault(addr: Word, protection: bool, user: bool, recoverable: bool)

  class Machine {
    var mem: seq<Page>
    var kUsed: seq<bool>
    var uUsed: seq<bool>
    const kBase: nat
    const uBase: nat
    const initPageDir: Page
    var pageFaultCnt: nat

    // History: what others hold, and whose the pages of the one address space are.
    ghost var kOthers: seq<bool>
    ghost var uOthers: seq<bool>
    ghost var owners: Owners

    ghost predicate Shape()
      reads this
    {
      && kBase + |kUsed| <= uBase && uBase + |uUsed| <= |mem| <= 0x10_0000
      && forall i :: 0 <= i < USER_TABLES ==> initPageDir[i] == 0
    }

    /** Between calls: the directory d, its tables and its frames, with user pages uHeld taken by the
        call in progress, account for both used maps. */
    ghost predicate Valid(d: nat, uHeld: set<nat>)
      reads this
    {
      && Shape() && SpaceOk(mem, d, owners) && uHeld !! owners.frames.Keys
      && Accounted(kBase, kUsed, kOthers, {d} + owners.tables.Keys)
      && Accounted(uBase, uUsed, uOthers, owners.frames.Keys + uHeld)
    }

    // ----------------------------------------------------------------
    // palloc.c

    method GetUserPage() returns (r: Option<nat>)
      requires Shape()
      modifies `mem, `uUsed
      ensures Shape()
      ensures r == None ==> mem == old(mem) && uUsed == old(uUsed) && Exhausted(uUsed)
      ensures r.Some? ==>
                && uBase <= r.value < uBase + |old(uUsed)| && !old(uUsed)[r.value - uBase]
                && uUsed == old(uUsed)[r.value - uBase := true] && mem == old(mem)[r.value := Filled(0)]
                && forall p :: 0 <= p < r.value - uBase ==> old(uUsed)[p]
    {
      var q := FirstRun(uUsed, 0, 1, false);
      if q == None {
        NoneFree(uUsed);
        return None;
      }
      BelowFirst(uUsed, q.value);
      uUsed := uUsed[q.value := true];
      mem := mem[uBase + q.value := Filled(0)];
      r := Some(uBase + q.value);
    }

    method GetKernelPage() returns (r: Option<nat>)
      requires Shape()
      modifies `kUsed
      ensures Shape()
      ensures r == None ==> kUsed == old(kUsed) && Exhausted(kUsed)
      ensures r.Some? ==>
                && kBase <= r.value < kBase + |old(kUsed)| && !old(kUsed)[r.value - kBase]
                && kUsed == old(kUsed)[r.value - kBase := true]
                && forall p :: 0 <= p < r.value - kBase ==> old(kUsed)[p]
    {
      var q := FirstRun(kUsed, 0, 1, false);
      if q == None {
        NoneFree(kUsed);
        return None;
      }
      BelowFirst(kUsed, q.value);
      kUsed := kUsed[q.value := true];
      r := Some(kBase + q.value);
    }

    /** cnt pages from p on lie in the kernel pool, or in the user pool, and are in use. */
    ghost predicate InUse(p: nat, cnt: nat)
      reads this
    {
      if kBase <= p < kBase + |kUsed| then p - kBase + cnt <= |kUsed| && AllAre(kUsed, p - kBase, cnt, true)
      else uBase <= p && p - uBase + cnt <= |uUsed| && AllAre(uUsed, p - uBase, cnt, true)
    }

    /** palloc_free_multiple; page_from_pool tells which pool the first page is from, and None is a
        null pointer. */
    method FreePages(pages: Option<nat>, cnt: nat)
      requires Shape() && (pages.Some? && cnt > 0 ==> InUse(pages.value, cnt))
      modifies `mem, `kUsed, `uUsed
      ensures Shape()
      ensures pages == None || cnt == 0 ==> mem == old(mem) && kUsed == old(kUsed) && uUsed == old(uUsed)
      ensures pages.Some? && cnt > 0 ==>
                var p := pages.value;
                && p + cnt <= |old(mem)| && mem == SetRange(old(mem), p, cnt, Filled(0xcccc_cccc))
                && if kBase <= p < kBase + |old(kUsed)|
                   then kUsed == SetRange(old(kUsed), p - kBase, cnt, false) && uUsed == old(uUsed)
                   else uUsed == SetRange(old(uUsed), p - uBase, cnt, false) && kUsed == old(kUsed)
    {
      if pages == None || cnt == 0 {
        return;
      }
      var p := pages.value;
      mem := SetRange(mem, p, cnt, Filled(0xcccc_cccc));
      if kBase <= p < kBase + |kUsed| {
        kUsed := SetRange(kUsed, p - kBase, cnt, false);
      } else {
        uUsed := SetRange(uUsed, p - uBase, cnt, false);
      }
    }

    /** palloc_free_page */
    method FreePage(p: nat)
      requires Shape()
      requires (kBase <= p < kBase + |kUsed| && kUsed[p - kBase]) || (uBase <= p < uBase + |uUsed| && uUsed[p - uBase])
      modifies `mem, `kUsed, `uUsed
      ensures Shape() && mem == old(mem)[p := Filled(0xcccc_cccc)]
      ensures if kBase <= p < kBase + |old(kUsed)| then kUsed == old(kUsed)[p - kBase := false] && uUsed == old(uUsed)
              else uUsed == old(uUsed)[p - uBase := false] && kUsed == old(kUsed)
    {
      FreePages(Some(p), 1);
    }

    // ----------------------------------------------------------------
    // pagedir.c

    method Create() returns (r: Option<nat>)
      requires Shape() && owners == Owners(map[], map[])
      requires Accounted(kBase, kUsed, kOthers, {}) && Accounted(uBase, uUsed, uOthers, {})
      modifies `mem, `kUsed
      ensures r == None ==> kUsed == old(kUsed) && mem == old(mem) && Exhausted(kUsed)
      ensures r.Some? ==> Valid(r.value, {}) && forall u: nat :: u < USER_PAGES ==> Translate(mem, r.value, u) == None
      ensures r.Some? ==> r.value < |old(mem)| && mem == old(mem)[r.value := initPageDir]
    {
      r := GetKernelPage();
      if r.Some? {
        AccountTake(kBase, old(kUsed), kOthers, {}, r.value - kBase);
        mem := mem[r.value := initPageDir];
        NewDirectory(mem, r.value, initPageDir);
      }
    }

    /** lookup_page with CREATE: the page table for u, made if need be. */
    method LookupCreate(d: nat, u: nat, ghost uHeld: set<nat>) returns (r: Option<nat>)
      requires Valid(d, uHeld) && u < USER_PAGES
      modifies `mem, `kUsed, `owners
      ensures Valid(d, uHeld) && owners.frames == old(owners).frames
      ensures r.Some? ==> TableAt(mem, d, u / 1024) == r
      ensures r == None ==> mem == old(mem) && kUsed == old(kUsed) && mem[d][u / 1024] == 0 && Exhausted(kUsed)
      ensures forall v: nat :: v < USER_PAGES ==> Entry(mem, d, v) == Entry(old(mem), d, v)
      ensures |mem| == |old(mem)| && forall p :: uBase <= p < |mem| ==> mem[p] == old(mem)[p]
    {
      var i := u / 1024;
      if mem[d][i] == 0 {
        var t := GetKernelPage();
        if t == None {
          return None;
        }
        AccountTake(kBase, old(kUsed), kOthers, {d} + owners.tables.Keys, t.value - kBase);
        TableAdded(mem, d, owners, i, t.value);
        mem := WithTable(mem, d, i, t.value);
        owners := owners.(tables := owners.tables[t.value := i]);
        assert {d} + owners.tables.Keys == {d} + old(owners).tables.Keys + {t.value};
      }
      r := Some(Frame(mem[d][i]));
    }

    method SetPage(d: nat, u: nat, f: nat, writable: bool, ghost uHeld: set<nat>) returns (ok: bool)
      requires Valid(d, uHeld + {f}) && u < USER_PAGES && f !in uHeld && Translate(mem, d, u) == None
      modifies `mem, `kUsed, `owners
      ensures Valid(d, if ok then uHeld else uHeld + {f})
      ensures ok ==> Translate(mem, d, u) == Some(f) && Entry(mem, d, u) == PteCreateUser(f, writable)
      ensures !ok ==> mem == old(mem) && kUsed == old(kUsed) && mem[d][u / 1024] == 0 && Exhausted(kUsed)
      ensures forall v: nat :: v < USER_PAGES && (v != u || !ok) ==>
                Translate(mem, d, v) == Translate(old(mem), d, v) && Entry(mem, d, v) == Entry(old(mem), d, v)
      ensures |mem| == |old(mem)| && forall p :: uBase <= p < |mem| ==> mem[p] == old(mem)[p]
    {
      var t := LookupCreate(d, u, uHeld + {f});
      ok := t.Some?;
      if ok {
        EntryRoundTrip(f, writable);
        EntryStored(mem, d, owners, u, t.value, PteCreateUser(f, writable));
        assert EntryOk(mem, d, owners, u);
        FrameAdded(mem, d, owners, u, t.value, f, PteCreateUser(f, writable));
        mem := WithEntry(mem, t.value, u, PteCreateUser(f, writable));
        owners := owners.(frames := owners.frames[f := u]);
        assert owners.frames.Keys + uHeld == old(owners).frames.Keys + (uHeld + {f});
      }
    }

    method GetPage(d: nat, u: nat) returns (r: Option<nat>)
      requires Valid(d, {}) && u < USER_PAGES
      ensures r == Translate(mem, d, u)
    {
      if mem[d][u / 1024] == 0 {
        return None;
      }
      assert TableOk(mem, d, owners, u / 1024);
      var e := mem[Frame(mem[d][u / 1024])][u % 1024];
      r := if Present(e) then Some(Frame(e)) else None;
    }

    method MarkAccessed(d: nat, u: nat)
      requires Valid(d, {}) && u < USER_PAGES && Translate(mem, d, u).Some?
      modifies `mem
      ensures Valid(d, {}) && d < |old(mem)|
      ensures forall v: nat :: v < USER_PAGES ==>
                Translate(mem, d, v) == Translate(old(mem), d, v) && Contents(mem, d, v) == Contents(old(mem), d, v)
      ensures forall v: nat :: v < USER_PAGES ==>
                Entry(mem, d, v) == if v == u then SetAccessed(Entry(old(mem), d, v)) else Entry(old(mem), d, v)
    {
      assert TableOk(mem, d, owners, u / 1024);
      var t := Frame(mem[d][u / 1024]);
      var e := mem[t][u % 1024];
      AccessedMovesNothing(e);
      EntryStored(mem, d, owners, u, t, SetAccessed(e));
      FlagsStored(mem, d, owners, u, t, SetAccessed(e));
      mem := WithEntry(mem, t, u, SetAccessed(e));
      SameContents(old(mem), mem, d, owners, uBase, d);
    }

    // ----------------------------------------------------------------
    // exception.c

    /** page_fault.  A handled fault on an unmapped page adds exactly one fresh frame of zeros and
        changes no other translation and no other page's contents; every other outcome changes no
        translation and no contents, and gives back the frame it may have taken. */
    method PageFault(d: nat, f: Fault) returns (out: Outcome)
      requires Valid(d, {})
      modifies `mem, `kUsed, `uUsed, `owners, `pageFaultCnt
      ensures Valid(d, {}) && pageFaultCnt == old(pageFaultCnt) + 1 && d < |old(mem)|
      ensures out == Recovered <==> !f.user && f.recoverable
      ensures out == Handled ==> f.addr / 4096 < USER_PAGES && !f.protection && Translate(mem, d, f.addr / 4096).Some?
      ensures forall v: nat ::
                v < USER_PAGES && !(out == Handled && v == f.addr / 4096 && Translate(old(mem), d, v) == None) ==>
                Translate(mem, d, v) == Translate(old(mem), d, v) && Contents(mem, d, v) == Contents(old(mem), d, v)
      ensures out == Handled && Translate(old(mem), d, f.addr / 4096) == None ==>
                var frame := Translate(mem, d, f.addr / 4096).value;
                && uBase <= frame < uBase + |old(uUsed)| && !old(uUsed)[frame - uBase]
                && uUsed == old(uUsed)[frame - uBase := true] && Contents(mem, d, f.addr / 4096) == Some(Filled(0))
                && frame < 0x10_0000 && Entry(mem, d, f.addr / 4096) == PteCreateUser(frame, true)
      ensures forall v: nat :: v < USER_PAGES && !(out == Handled && v == f.addr / 4096) ==>
                Entry(mem, d, v) == Entry(old(mem), d, v)
      ensures out == Handled && Translate(old(mem), d, f.addr / 4096).Some? ==>
                Entry(mem, d, f.addr / 4096) == SetAccessed(Entry(old(mem), d, f.addr / 4096))
      ensures out == Killed ==>
                f.addr >= 0xc000_0000 || f.protection || OutOfPages(old(mem), d, f.addr / 4096, old(kUsed), old(uUsed))
      ensures !(out == Handled && Translate(old(mem), d, f.addr / 4096) == None) ==> uUsed == old(uUsed)
    {
      pageFaultCnt := pageFaultCnt + 1;
      if !f.user && f.recoverable {
        return Recovered;
      }
      if f.addr >= 0xc000_0000 || f.protection {
        return Killed;
      }
      var u := f.addr / 4096;
      var frame := GetPage(d, u);
      if frame.Some? {
        MarkAccessed(d, u);
        return Handled;
      }
      ghost var p: nat;
      out, p := Demand(d, u);
    }

    /** The path that allocates: a zeroed frame, mapped writable, or given back. */
    method Demand(d: nat, u: nat) returns (out: Outcome, ghost p: nat)
      requires Valid(d, {}) && u < USER_PAGES && Translate(mem, d, u) == None
      modifies `mem, `kUsed, `uUsed, `owners
      ensures Valid(d, {}) && out in {Handled, Killed} && d < |old(mem)|
      ensures forall v: nat :: v < USER_PAGES && !(out == Handled && v == u) ==>
                Translate(mem, d, v) == Translate(old(mem), d, v) && Contents(mem, d, v) == Contents(old(mem), d, v)
      ensures forall v: nat ::
                v < USER_PAGES && !(out == Handled && v == u) ==> Entry(mem, d, v) == Entry(old(mem), d, v)
      ensures out == Killed ==> uUsed == old(uUsed) && OutOfPages(old(mem), d, u, old(kUsed), old(uUsed))
      ensures out == Handled ==>
                && Translate(mem, d, u) == Some(p) && uBase <= p < uBase + |old(uUsed)| && !old(uUsed)[p - uBase]
                && uUsed == old(uUsed)[p - uBase := true] && Contents(mem, d, u) == Some(Filled(0))
                && p < 0x10_0000 && Entry(mem, d, u) == PteCreateUser(p, true)
    {
      ghost var mem0, o := mem, owners;
      var r := TakeFrame(d);
      if r == None {
        return Killed, 0;
      }
      p := r.value;
      assert {} + {p} == {p};
      ghost var taken := uUsed;
      var ok := SetPage(d, u, r.value, true, {});
      if ok {
        SameContents(mem0, mem, d, o, uBase, p);
        assert uUsed == taken;
        out := Handled;
      } else {
        GiveFrame(d, r.value);
        SameContents(mem0, mem, d, o, uBase, p);
        assert taken[p - uBase := false] == old(uUsed);
        out := Killed;
      }
    }

    method TakeFrame(d: nat) returns (r: Option<nat>)
      requires Valid(d, {})
      modifies `mem, `uUsed
      ensures r == None ==> mem == old(mem) && uUsed == old(uUsed) && Exhausted(uUsed)
      ensures r.Some? ==>
                && uBase <= r.value < uBase + |old(uUsed)| && !old(uUsed)[r.value - uBase] && r.value !in owners.frames
                && uUsed == old(uUsed)[r.value - uBase := true] && r.value < |old(mem)|
                && mem == old(mem)[r.value := Filled(0)]
                && Valid(d, {r.value})
      ensures d < |old(mem)| && forall v: nat :: v < USER_PAGES ==>
                Translate(mem, d, v) == Translate(old(mem), d, v) && Entry(mem, d, v) == Entry(old(mem), d, v)
    {
      r := GetUserPage();
      if r.Some? {
        AccountTake(uBase, old(uUsed), uOthers, owners.frames.Keys + {}, r.value - uBase);
        assert owners.frames.Keys + {} + {r.value} == owners.frames.Keys + {r.value};
        SpaceFrame(old(mem), mem, d, owners, 0, 0);
        SameEntries(old(mem), mem, d, owners, 0, 0);
      }
    }

    method GiveFrame(d: nat, p: nat)
      requires Valid(d, {p})
      modifies `mem, `kUsed, `uUsed
      ensures Valid(d, {}) && uBase <= p < |old(mem)| && p - uBase < |old(uUsed)|
      ensures mem == old(mem)[p := Filled(0xcccc_cccc)] && uUsed == old(uUsed)[p - uBase := false]
              && kUsed == old(kUsed)
      ensures d < |old(mem)| && forall v: nat :: v < USER_PAGES ==>
                Translate(mem, d, v) == Translate(old(mem), d, v) && Entry(mem, d, v) == Entry(old(mem), d, v)
    {
      AccountGive(uBase, uUsed, uOthers, owners.frames.Keys + {p}, p);
      assert owners.frames.Keys + {p} - {p} == owners.frames.Keys + {};
      SpaceFrame(mem, mem[p := Filled(0xcccc_cccc)], d, owners, 0, 0);
      SameEntries(mem, mem[p := Filled(0xcccc_cccc)], d, owners, 0, 0);
      FreePage(p);
    }

    // ----------------------------------------------------------------
    // pagedir_destroy

    /** The tables from index i on, with the frames from user page v on, are still to be given back. */
    ghost predicate Destroying(d: nat, i: nat, v: nat)
      reads this
    {
      && Shape() && SpaceFrom(mem, d, owners, i, v)
      && Accounted(kBase, kUsed, kOthers, {d} + owners.tables.Keys)
      && Accounted(uBase, uUsed, uOthers, owners.frames.Keys)
    }

    method Destroy(d: nat)
      requires Valid(d, {})
      modifies `mem, `kUsed, `uUsed, `owners
      ensures owners == Owners(map[], map[])
      ensures Accounted(kBase, kUsed, kOthers, {}) && Accounted(uBase, uUsed, uOthers, {})
    {
      assert owners.frames.Keys + {} == owners.frames.Keys;
      for i := 0 to USER_TABLES
        invariant Destroying(d, i, i * 1024)
      {
        assert TableOk(mem, d, owners, i);
        if Present(mem[d][i]) {
          DestroyTable(d, i);
        } else {
          TableSkipped(mem, d, owners, i);
        }
      }
      NothingLeft(mem, d, owners);
      assert owners.tables.Keys == {} && owners.frames.Keys == {};
      assert {d} + {} - {d} == {};
      AccountGive(kBase, kUsed, kOthers, {d} + owners.tables.Keys, d);
      FreePage(d);
    }

    method DestroyTable(d: nat, i: nat)
      requires Destroying(d, i, i * 1024) && i < USER_TABLES && mem[d][i] != 0
      modifies `mem, `kUsed, `uUsed, `owners
      ensures Destroying(d, i + 1, i * 1024 + 1024) && |mem| == |old(mem)|
    {
      assert TableOk(mem, d, owners, i);
      var t := Frame(mem[d][i]);
      for j := 0 to 1024
        invariant Destroying(d, i, i * 1024 + j) && TableAt(mem, d, i) == Some(t) && |mem| == |old(mem)|
      {
        DestroyEntry(d, i, t, i * 1024 + j);
      }
      TableDropped(mem, d, owners, i);
      AccountGive(kBase, kUsed, kOthers, {d} + owners.tables.Keys, t);
      assert {d} + (owners.tables - {t}).Keys == {d} + owners.tables.Keys - {t};
      owners := owners.(tables := owners.tables - {t});
      SpaceFrame(mem, mem[t := Filled(0xcccc_cccc)], d, owners, i + 1, i * 1024 + 1024);
      FreePage(t);
    }

    method DestroyEntry(d: nat, i: nat, t: nat, u: nat)
      requires Destroying(d, i, u) && u / 1024 == i < USER_TABLES && TableAt(mem, d, i) == Some(t) && t < |mem|
      modifies `mem, `kUsed, `uUsed, `owners
      ensures Destroying(d, i, u + 1) && |mem| == |old(mem)| && TableAt(mem, d, i) == Some(t)
    {
      var e := mem[t][u % 1024];
      FrameDropped(mem, d, owners, i, u);
      if Present(e) {
        var f := Frame(e);
        AccountGive(uBase, uUsed, uOthers, owners.frames.Keys, f);
        assert (owners.frames - {f}).Keys == owners.frames.Keys - {f};
        owners := owners.(frames := owners.frames - {f});
        SpaceFrame(mem, mem[f := Filled(0xcccc_cccc)], d, owners, i, u + 1);
        FreePage(f);
      }
    }

    // ----------------------------------------------------------------

    /** A whole lifetime: a directory is created, any faults are taken, and it is destroyed.  Both
        pools' used maps end as they began. */
    method Lifetime(faults: seq<Fault>) returns (outs: seq<Outcome>)
      requires Shape()
      modifies this
      ensures kUsed == old(kUsed) && uUsed == old(uUsed)
    {
      outs := [];
      kOthers, uOthers, owners := kUsed, uUsed, Owners(map[], map[]);
      var d := Create();
      if d.Some? {
        for n := 0 to |faults|
          invariant Valid(d.value, {}) && kOthers == old(kUsed) && uOthers == old(uUsed)
        {
          var out := PageFault(d.value, faults[n]);
          outs := outs + [out];
        }
        Destroy(d.value);
        assert kUsed == kOthers && uUsed == uOthers;
      }
    }
  }
}
