/** userprog/process.c: validating and loading the segments of an ELF executable into user pages.

    A user address space is a map from page numbers to pages.  Whether each page of memory and each
    file read can be had is decided by `Luck`, one entry per page. */
module Loader {
  import opened InodeIO

  const PGSIZE: nat := 4096
  const PHYS_BASE: nat := 0xc000_0000
  const WORD: nat := 0x1_0000_0000

  datatype UserPage = UserPage(data: seq<Byte>, writable: bool)
  datatype Luck = Luck(memory: bool, read: bool, table: bool)

  /** A program header, as far as loading looks at it; all fields are 32-bit words. */
  datatype Phdr = Phdr(kind: nat, offset: nat, vaddr: nat, filesz: nat, memsz: nat, writable: bool)

  const PT_LOAD: nat := 1
  const PT_DYNAMIC: nat := 2
  const PT_INTERP: nat := 3
  const PT_SHLIB: nat := 5

  predicate Words(p: Phdr) { p.offset < WORD && p.vaddr < WORD && p.filesz < WORD && p.memsz < WORD }

  // ------------------------------------------------------------------
  // validate_segment

  predicate IsUserVaddr(va: nat) { va < PHYS_BASE }

  /** The tests in their order, on 32-bit words: the end address may wrap around. */
  predicate Validate(p: Phdr, fileLength: nat) {
    var end := (p.vaddr + p.memsz) % WORD;
    && p.offset % PGSIZE == p.vaddr % PGSIZE
    && p.offset <= fileLength
    && p.memsz >= p.filesz
    && p.memsz != 0
    && IsUserVaddr(p.vaddr)
    && IsUserVaddr(end)
    && end >= p.vaddr
    && p.vaddr >= PGSIZE
  }

  /** The wrapping tests accept exactly the segments that really lie in user space above page 0. */
  lemma ValidateMeans(p: Phdr, fileLength: nat)
    requires Words(p)
    ensures Validate(p, fileLength) <==>
              && p.offset % PGSIZE == p.vaddr % PGSIZE && p.offset <= fileLength
              && 0 < p.memsz && p.filesz <= p.memsz && PGSIZE <= p.vaddr && p.vaddr + p.memsz < PHYS_BASE
  {
    var sum := p.vaddr + p.memsz;
    assert sum % WORD == if sum < WORD then sum else sum - WORD;
  }

  // ------------------------------------------------------------------
  // load: the arithmetic of one segment

  datatype Plan = Plan(filePage: nat, memPage: nat, readBytes: nat, zeroBytes: nat)

  function RoundUp(n: nat): nat { (n + PGSIZE - 1) / PGSIZE * PGSIZE }

  /** How load splits a segment: what to read, and what to zero up to the end of the last page. */
  function Planned(p: Phdr): (r: Plan)
    requires p.filesz <= p.memsz
  {
    var pageOffset := p.vaddr % PGSIZE;
    var read := if p.filesz > 0 then pageOffset + p.filesz else 0;
    Plan(p.offset - p.offset % PGSIZE, p.vaddr - pageOffset, read, RoundUp(pageOffset + p.memsz) - read)
  }

  /** None of it leaves 32 bits, and load_segment's assertions hold. */
  lemma PlanFits(p: Phdr, fileLength: nat)
    requires Words(p) && Validate(p, fileLength)
    ensures var r := Planned(p);
            && (r.readBytes + r.zeroBytes) % PGSIZE == 0 && r.memPage % PGSIZE == 0 && r.filePage % PGSIZE == 0
            && r.readBytes + r.zeroBytes > 0
            && PGSIZE <= r.memPage && r.memPage + r.readBytes + r.zeroBytes <= PHYS_BASE
            && p.vaddr % PGSIZE + p.memsz <= r.readBytes + r.zeroBytes < p.vaddr % PGSIZE + p.memsz + PGSIZE
  {
    ValidateMeans(p, fileLength);
  }

  // ------------------------------------------------------------------
  // load_segment

  /** Byte i of what a segment puts into memory. */
  function SegmentByte(file: seq<Byte>, ofs: nat, readBytes: nat, i: nat): Byte
    requires readBytes > 0 ==> ofs + readBytes <= |file|
  {
    if i < readBytes then file[ofs + i] else 0
  }

  /** How much of the file part the first n pages hold. */
  function ReadIn(n: nat, readBytes: nat): nat { if n * PGSIZE < readBytes then n * PGSIZE else readBytes }

  /** The counts of the copy loop never underflow. */
  lemma PageStep(readBytes: nat, zeroBytes: nat, n: nat)
    requires (readBytes + zeroBytes) % PGSIZE == 0 && n * PGSIZE < readBytes + zeroBytes
    ensures var read := readBytes - ReadIn(n, readBytes);
            var pageRead := if read < PGSIZE then read else PGSIZE;
            && read >= 0 && ReadIn(n + 1, readBytes) == ReadIn(n, readBytes) + pageRead
            && (n + 1) * PGSIZE <= readBytes + zeroBytes
            && PGSIZE - pageRead <= zeroBytes - (n * PGSIZE - ReadIn(n, readBytes))
  {
  }

  /** Page n: its share of the file part, and zeros. */
  function SegmentPage(file: seq<Byte>, ofs: nat, readBytes: nat, n: nat): (d: seq<Byte>)
    requires ReadIn(n + 1, readBytes) > 0 ==> ofs + ReadIn(n + 1, readBytes) <= |file|
    ensures |d| == PGSIZE
  {
    var a, b := ReadIn(n, readBytes), ReadIn(n + 1, readBytes);
    (if a < b then file[ofs + a..ofs + b] else []) + seq(PGSIZE - (b - a), _ => 0)
  }

  lemma PageBytes(file: seq<Byte>, ofs: nat, readBytes: nat, n: nat, j: nat)
    requires (readBytes > 0 ==> ofs + readBytes <= |file|) && j < PGSIZE
    ensures SegmentPage(file, ofs, readBytes, n)[j] == SegmentByte(file, ofs, readBytes, n * PGSIZE + j)
  {
  }

  /** A segment about to be loaded: the file part, and where it goes. */
  datatype Segment = Segment(file: seq<Byte>, ofs: nat, readBytes: nat, first: nat, writable: bool)

  /** Page k of the segment was not mapped before, and is in place now. */
  ghost predicate Landed(was: map<nat, UserPage>, pages: map<nat, UserPage>, s: Segment, k: nat) {
    && (ReadIn(k + 1, s.readBytes) > 0 ==> s.ofs + ReadIn(k + 1, s.readBytes) <= |s.file|)
    && s.first + k !in was && s.first + k in pages
    && pages[s.first + k] == UserPage(SegmentPage(s.file, s.ofs, s.readBytes, k), s.writable)
  }

  ghost predicate AllLanded(was: map<nat, UserPage>, pages: map<nat, UserPage>, s: Segment, n: nat) {
    && (forall k: nat {:trigger Landed(was, pages, s, k)} :: k < n ==> Landed(was, pages, s, k))
    && (forall u :: u in was ==> u in pages && pages[u] == was[u])
    && (forall u :: u in pages && u !in was ==> s.first <= u < s.first + n)
  }

  /** Everything that has been mapped is a user page above page 0. */
  ghost predicate UserPagesOnly(was: map<nat, UserPage>, pages: map<nat, UserPage>) {
    forall u :: u in pages && u !in was ==> 1 <= u < PHYS_BASE / PGSIZE
  }

  lemma OneMore(was: map<nat, UserPage>, pages: map<nat, UserPage>, s: Segment, n: nat)
    requires AllLanded(was, pages, s, n) && s.first + n !in pages
    requires ReadIn(n + 1, s.readBytes) > 0 ==> s.ofs + ReadIn(n + 1, s.readBytes) <= |s.file|
    ensures var page := UserPage(SegmentPage(s.file, s.ofs, s.readBytes, n), s.writable);
            AllLanded(was, pages[s.first + n := page], s, n + 1)
  {
    var pages' := pages[s.first + n := UserPage(SegmentPage(s.file, s.ofs, s.readBytes, n), s.writable)];
    forall k: nat | k < n + 1 ensures Landed(was, pages', s, k) {
      if k < n { assert Landed(was, pages, s, k); }
    }
  }

  // ------------------------------------------------------------------
  // What a loaded segment means

  /** The byte at user address va, if it is mapped. */
  function UserByte(pages: map<nat, UserPage>, va: nat): (r: int)
    ensures -1 <= r < 256
  {
    if va / PGSIZE in pages && |pages[va / PGSIZE].data| == PGSIZE then pages[va / PGSIZE].data[va % PGSIZE] else -1
  }

  ghost predicate ByteInPlace(pages: map<nat, UserPage>, file: seq<Byte>, p: Phdr, va: nat)
    requires (p.filesz > 0 ==> p.offset + p.filesz <= |file|) && va >= p.vaddr
  {
    && va / PGSIZE in pages && va / PGSIZE >= 1 && pages[va / PGSIZE].writable == p.writable
    && UserByte(pages, va) == if va < p.vaddr + p.filesz then file[p.offset + (va - p.vaddr)] else 0
  }

  /** User memory from p_vaddr on holds p_filesz bytes of the file from p_offset on, and zeros up to
      the end of the page that holds the segment's last byte. */
  ghost predicate InPlace(pages: map<nat, UserPage>, file: seq<Byte>, p: Phdr) {
    && (p.filesz > 0 ==> p.offset + p.filesz <= |file|)
    && forall va: nat {:trigger ByteInPlace(pages, file, p, va)} ::
         p.vaddr <= va < RoundUp(p.vaddr + p.memsz) ==> ByteInPlace(pages, file, p, va)
  }

  function SegmentOf(file: seq<Byte>, p: Phdr): Segment
    requires p.filesz <= p.memsz
  {
    var r := Planned(p);
    Segment(file, r.filePage, r.readBytes, r.memPage / PGSIZE, p.writable)
  }

  /** Loading the planned pages puts the segment in place. */
  lemma LandedMeans(was: map<nat, UserPage>, pages: map<nat, UserPage>, file: seq<Byte>, p: Phdr, n: nat)
    requires Words(p) && Validate(p, |file|) && AllLanded(was, pages, SegmentOf(file, p), n)
    requires var r := Planned(p);
             && n * PGSIZE == r.readBytes + r.zeroBytes
             && (r.readBytes > 0 ==> r.filePage + r.readBytes <= |file|)
    ensures InPlace(pages, file, p)
  {
    PlanFits(p, |file|);
    forall va: nat | p.vaddr <= va < RoundUp(p.vaddr + p.memsz) ensures ByteInPlace(pages, file, p, va) {
      ByteLanded(was, pages, file, p, n, va);
    }
  }

  lemma ByteLanded(was: map<nat, UserPage>, pages: map<nat, UserPage>, file: seq<Byte>, p: Phdr, n: nat, va: nat)
    requires Words(p) && Validate(p, |file|) && AllLanded(was, pages, SegmentOf(file, p), n)
    requires var r := Planned(p);
             && n * PGSIZE == r.readBytes + r.zeroBytes
             && (r.readBytes > 0 ==> r.filePage + r.readBytes <= |file|)
    requires p.vaddr <= va < RoundUp(p.vaddr + p.memsz)
    ensures (p.filesz > 0 ==> p.offset + p.filesz <= |file|) && ByteInPlace(pages, file, p, va)
  {
    var s, r := SegmentOf(file, p), Planned(p);
    PlanFits(p, |file|);
    var k := va / PGSIZE - s.first;
    PageIndex(p, va);
    assert Landed(was, pages, s, k);
    PageBytes(file, s.ofs, s.readBytes, k, va % PGSIZE);
    assert k * PGSIZE + va % PGSIZE == va - r.memPage;
  }

  lemma PageIndex(p: Phdr, va: nat)
    requires Words(p) && p.filesz <= p.memsz && p.memsz > 0 && p.vaddr <= va < RoundUp(p.vaddr + p.memsz)
    ensures var r := Planned(p); var k := va / PGSIZE - r.memPage / PGSIZE;
            0 <= k && k * PGSIZE < r.readBytes + r.zeroBytes && r.memPage / PGSIZE * PGSIZE == r.memPage
  {
  }

  /** A loaded segment's new pages are its own. */
  lemma LandedExactly(was: map<nat, UserPage>, pages: map<nat, UserPage>, file: seq<Byte>, p: Phdr, n: nat)
    requires Words(p) && Validate(p, |file|) && AllLanded(was, pages, SegmentOf(file, p), n)
    requires n * PGSIZE == Planned(p).readBytes + Planned(p).zeroBytes
    ensures forall u: nat :: u in pages <==> u in was || InSegment(p, u)
  {
    var s := SegmentOf(file, p);
    forall u: nat ensures u in pages <==> u in was || InSegment(p, u) {
      PlannedPages(p, |file|, u);
      if InSegment(p, u) { assert Landed(was, pages, s, u - s.first); }
    }
  }

  /** Loading header i to the pages that are still free is what HeaderOk asks for. */
  lemma HeaderMeans(was: map<nat, UserPage>, pages: map<nat, UserPage>, file: seq<Byte>, headers: seq<Phdr>,
                    luck: seq<seq<Luck>>, i: nat, ok: bool)
    requires i < |headers| == |luck| && headers[i].kind == 1
    requires forall u: nat :: u in pages <==> u in was || CoveredBefore(headers, i, u)
    requires ok <==> Loadable(file, headers[i], luck[i]) && forall u: nat :: InSegment(headers[i], u) ==> u !in pages
    ensures ok <==> HeaderOk(was, file, headers, luck, i)
  {
  }

  lemma CoversNext(headers: seq<Phdr>, i: nat)
    requires i < |headers|
    ensures forall u: nat :: CoveredBefore(headers, i + 1, u) <==>
              CoveredBefore(headers, i, u) || (headers[i].kind == 1 && InSegment(headers[i], u))
  {
  }

  /** Pages are never remapped, so what is in place stays. */
  lemma StaysInPlace(pages: map<nat, UserPage>, pages': map<nat, UserPage>, file: seq<Byte>, p: Phdr)
    requires InPlace(pages, file, p) && forall u :: u in pages ==> u in pages' && pages'[u] == pages[u]
    ensures InPlace(pages', file, p)
  {
    forall va: nat | p.vaddr <= va < RoundUp(p.vaddr + p.memsz) ensures ByteInPlace(pages', file, p, va) {
      assert ByteInPlace(pages, file, p, va);
    }
  }

  // ------------------------------------------------------------------
  // When loading succeeds, in terms of the headers

  /** The header describes a range of user memory above page 0. */
  predicate LiesInUserSpace(p: Phdr, fileLength: nat) {
    && p.offset % 4096 == p.vaddr % 4096 && p.offset <= fileLength
    && 0 < p.memsz && p.filesz <= p.memsz && 4096 <= p.vaddr && p.vaddr + p.memsz < 0xc000_0000
  }

  /** Page u holds a byte of the segment. */
  predicate InSegment(p: Phdr, u: nat) { p.memsz > 0 && p.vaddr / 4096 <= u <= (p.vaddr + p.memsz - 1) / 4096 }

  /** A frame and a page table entry can be had for the segment's k-th page and, if part of it comes from
      the file, the read succeeds. */
  predicate PageLuck(readBytes: nat, luck: seq<Luck>, k: nat) {
    k < |luck| && luck[k].memory && luck[k].table && (k * 4096 < readBytes ==> luck[k].read)
  }

  /** The file part of a segment, from the start of its first page on. */
  function FilePart(p: Phdr): nat { if p.filesz > 0 then p.vaddr % 4096 + p.filesz else 0 }

  ghost predicate Loadable(file: seq<Byte>, p: Phdr, luck: seq<Luck>) {
    && LiesInUserSpace(p, |file|) && (p.filesz > 0 ==> p.offset + p.filesz <= |file|)
    && forall k: nat :: InSegment(p, p.vaddr / 4096 + k) ==> PageLuck(FilePart(p), luck, k)
  }

  /** Page u is part of a loadable segment before header i. */
  ghost predicate CoveredBefore(headers: seq<Phdr>, i: nat, u: nat) {
    exists j :: 0 <= j < i && j < |headers| && headers[j].kind == 1 && InSegment(headers[j], u)
  }

  /** Header i is no obstacle: it is not of one of the three refused types and, if loadable, it can be
      loaded to pages that nothing else has been loaded to. */
  ghost predicate HeaderOk(was: map<nat, UserPage>, file: seq<Byte>, headers: seq<Phdr>, luck: seq<seq<Luck>>, i: nat)
    requires i < |headers| == |luck|
  {
    && headers[i].kind != 2 && headers[i].kind != 3 && headers[i].kind != 5
    && (headers[i].kind == 1 ==>
          && Loadable(file, headers[i], luck[i])
          && forall u: nat :: InSegment(headers[i], u) ==> u !in was && !CoveredBefore(headers, i, u))
  }

  /** The pages of the plan are those of the segment. */
  lemma PlannedPages(p: Phdr, fileLength: nat, u: nat)
    requires Words(p) && Validate(p, fileLength)
    ensures var r := Planned(p);
            InSegment(p, u) <==>
            r.memPage / PGSIZE <= u && (u - r.memPage / PGSIZE) * PGSIZE < r.readBytes + r.zeroBytes
  {
    PlanFits(p, fileLength);
    var a, o, last := p.vaddr / PGSIZE, p.vaddr % PGSIZE, p.vaddr + p.memsz - 1;
    var total := Planned(p).readBytes + Planned(p).zeroBytes;
    assert Planned(p).memPage == a * PGSIZE;
    var n := total / PGSIZE;
    assert total == n * PGSIZE && (n - 1) * PGSIZE <= o + p.memsz - 1 < n * PGSIZE;
    assert last == a * PGSIZE + (o + p.memsz - 1);
    assert last / PGSIZE == a + n - 1;
  }

  /** With every page loaded or the first obstacle met, loading one segment has succeeded or failed as it
      should. */
  lemma SegmentOutcome(was: map<nat, UserPage>, file: seq<Byte>, p: Phdr, luck: seq<Luck>, ok: bool)
    requires Words(p) && Validate(p, |file|)
    requires ok <==> SegmentGoes(was, SegmentOf(file, p), Planned(p).zeroBytes, luck)
    ensures ok <==> Loadable(file, p, luck) && forall u: nat :: InSegment(p, u) ==> u !in was
  {
    var s, r := SegmentOf(file, p), Planned(p);
    ValidateMeans(p, |file|);
    assert s.readBytes == FilePart(p) && s.first == p.vaddr / 4096;
    assert s.readBytes > 0 ==> (s.ofs + s.readBytes <= |file| <==> p.offset + p.filesz <= |file|);
    forall k: nat ensures k * PGSIZE < r.readBytes + r.zeroBytes <==> InSegment(p, s.first + k) {
      PlannedPages(p, |file|, s.first + k);
    }
    if SegmentGoes(was, s, r.zeroBytes, luck) {
      forall u: nat | InSegment(p, u) ensures u !in was {
        PlannedPages(p, |file|, u);
        assert PageGoes(was, s, luck, u - s.first);
      }
      forall k: nat | InSegment(p, s.first + k) ensures PageLuck(FilePart(p), luck, k) {
        assert PageGoes(was, s, luck, k);
      }
    }
  }

  /** Page k of the segment can be loaded. */
  ghost predicate PageGoes(was: map<nat, UserPage>, s: Segment, luck: seq<Luck>, k: nat) {
    PageLuck(s.readBytes, luck, k) && s.first + k !in was
  }

  ghost predicate SegmentGoes(was: map<nat, UserPage>, s: Segment, zeroBytes: nat, luck: seq<Luck>) {
    && (s.readBytes > 0 ==> s.ofs + s.readBytes <= |s.file|)
    && forall k: nat {:trigger PageGoes(was, s, luck, k)} ::
         k * PGSIZE < s.readBytes + zeroBytes ==> PageGoes(was, s, luck, k)
  }

  class Process {
    var pages: map<nat, UserPage>

    /** install_page: fails if the page is mapped already or no page table can be had. */
    method InstallPage(upage: nat, page: UserPage, table: bool) returns (ok: bool)
      modifies this
      ensures ok == (upage !in old(pages) && table)
      ensures pages == if ok then old(pages)[upage := page] else old(pages)
    {
      ok := upage !in pages && table;
      if ok {
        pages := pages[upage := page];
      }
    }

    /** Loads the pages of one segment, in order, one fresh page each; what was mapped stays. */
    method LoadSegment(s: Segment, upage: nat, zeroBytes: nat, luck: seq<Luck>) returns (ok: bool, ghost n: nat)
      requires (s.readBytes + zeroBytes) % PGSIZE == 0 && upage % PGSIZE == 0 && s.ofs % PGSIZE == 0
      requires s.first == upage / PGSIZE && |luck| * PGSIZE >= s.readBytes + zeroBytes
      modifies this
      ensures AllLanded(old(pages), pages, s, n) && n * PGSIZE <= s.readBytes + zeroBytes
      ensures ok ==> n * PGSIZE == s.readBytes + zeroBytes
      ensures ok <==> SegmentGoes(old(pages), s, zeroBytes, luck)
    {
      var read, zero, page, pos, i := s.readBytes, zeroBytes, upage, s.ofs, 0;
      n := 0;
      while read > 0 || zero > 0
        invariant n == i && i * PGSIZE <= s.readBytes + zeroBytes && page == upage + i * PGSIZE
        invariant read == s.readBytes - ReadIn(i, s.readBytes)
                  && zero == zeroBytes - (i * PGSIZE - ReadIn(i, s.readBytes))
        invariant pos == s.ofs + ReadIn(i, s.readBytes) && (ReadIn(i, s.readBytes) > 0 ==> pos <= |s.file|)
        invariant AllLanded(old(pages), pages, s, n)
        invariant forall k: nat {:trigger PageGoes(old(pages), s, luck, k)} ::
                    k < i ==> PageGoes(old(pages), s, luck, k)
        decreases read + zero
      {
        var pageRead := if read < PGSIZE then read else PGSIZE;
        var pageZero := PGSIZE - pageRead;
        PageStep(s.readBytes, zeroBytes, i);
        assert pageZero <= zero;
        if !luck[i].memory {
          assert !PageGoes(old(pages), s, luck, i);
          return false, n;
        }
        if pageRead > 0 && (pos + pageRead > |s.file| || !luck[i].read) {
          assert !luck[i].read ==> !PageGoes(old(pages), s, luck, i);
          return false, n;
        }
        var data := (if pageRead > 0 then s.file[pos..pos + pageRead] else []) + seq(pageZero, _ => 0);
        ghost var before := pages;
        ok := InstallPage(page / PGSIZE, UserPage(data, s.writable), luck[i].table);
        if !ok {
          assert !PageGoes(old(pages), s, luck, i);
          return false, n;
        }
        assert PageGoes(old(pages), s, luck, i);
        OneMore(old(pages), before, s, i);
        read, zero, page, pos, i := read - pageRead, zero - pageZero, page + PGSIZE, pos + pageRead, i + 1;
        n := i;
      }
      ok := true;
    }

    /** load's loop over the program headers.  It succeeds exactly if no header is an obstacle; then every
        PT_LOAD segment is in place, whatever was loaded after it, and nothing else has been mapped.  Even on
        failure only user pages above page 0 are mapped. */
    method LoadHeaders(file: seq<Byte>, headers: seq<Phdr>, luck: seq<seq<Luck>>) returns (ok: bool)
      requires forall i :: 0 <= i < |headers| ==> Words(headers[i])
      requires |luck| == |headers| && forall i :: 0 <= i < |luck| ==> |luck[i]| * PGSIZE >= PHYS_BASE
      modifies this
      ensures UserPagesOnly(old(pages), pages)
      ensures forall u :: u in old(pages) ==> u in pages && pages[u] == old(pages)[u]
      ensures ok <==> forall i: nat {:trigger HeaderOk(old(pages), file, headers, luck, i)} ::
                        i < |headers| ==> HeaderOk(old(pages), file, headers, luck, i)
      ensures ok ==> forall i {:trigger headers[i]} :: 0 <= i < |headers| && headers[i].kind == 1 ==>
                       InPlace(pages, file, headers[i])
      ensures ok ==> forall u: nat :: u in pages <==> u in old(pages) || CoveredBefore(headers, |headers|, u)
    {
      for i := 0 to |headers|
        invariant UserPagesOnly(old(pages), pages)
        invariant forall u :: u in old(pages) ==> u in pages && pages[u] == old(pages)[u]
        invariant forall j: nat {:trigger HeaderOk(old(pages), file, headers, luck, j)} ::
                    j < i ==> HeaderOk(old(pages), file, headers, luck, j)
        invariant forall j {:trigger headers[j]} ::
                    0 <= j < i && headers[j].kind == 1 ==> InPlace(pages, file, headers[j])
        invariant forall u: nat :: u in pages <==> u in old(pages) || CoveredBefore(headers, i, u)
      {
        if headers[i].kind in {PT_DYNAMIC, PT_INTERP, PT_SHLIB} {
          assert !HeaderOk(old(pages), file, headers, luck, i);
          return false;
        }
        if headers[i].kind == PT_LOAD {
          ghost var before := pages;
          ok := LoadHeader(file, headers[i], luck[i]);
          HeaderMeans(old(pages), before, file, headers, luck, i, ok);
          if !ok {
            return false;
          }
          forall j | 0 <= j < i && headers[j].kind == PT_LOAD ensures InPlace(pages, file, headers[j]) {
            StaysInPlace(before, pages, file, headers[j]);
          }
        } else {
          assert HeaderOk(old(pages), file, headers, luck, i);
        }
        CoversNext(headers, i);
      }
      ok := true;
    }

    method LoadHeader(file: seq<Byte>, p: Phdr, luck: seq<Luck>) returns (ok: bool)
      requires Words(p) && |luck| * PGSIZE >= PHYS_BASE
      modifies this
      ensures UserPagesOnly(old(pages), pages)
      ensures forall u :: u in old(pages) ==> u in pages && pages[u] == old(pages)[u]
      ensures ok <==> Loadable(file, p, luck) && forall u: nat :: InSegment(p, u) ==> u !in old(pages)
      ensures ok ==> InPlace(pages, file, p) && forall u: nat :: u in pages <==> u in old(pages) || InSegment(p, u)
    {
      ValidateMeans(p, |file|);
      if !Validate(p, |file|) {
        return false;
      }
      PlanFits(p, |file|);
      var r := Planned(p);
      ghost var n: nat;
      ok, n := LoadSegment(SegmentOf(file, p), r.memPage, r.zeroBytes, luck);
      SegmentOutcome(old(pages), file, p, luck, ok);
      if ok {
        LandedMeans(old(pages), pages, file, p, n);
        LandedExactly(old(pages), pages, file, p, n);
      }
    }
  }
}
