/** When the calls of filesys.c and file.c succeed, stated in terms of the directory's entries, the free
    map, the open inodes and how allocations and transfers turn out; and what each leaves behind. */
module FileOutcomes {
  import opened Basics
  import opened Bitmap
  import opened FileSystem
  import InodeIO

  // ------------------------------------------------------------------
  // Conditions

  ghost predicate IsOpen(fs: Fs, sector: nat) { exists n :: n in fs.inodes && fs.inodes[n].sector == sector }

  /** dir_open_root gets its inode, open already or newly allocated, and its struct dir. */
  ghost predicate RootReady(fs: Fs, u: Luck) { u.dirMemory && (IsOpen(fs, 1) || u.rootMemory) }

  /** No handle denies writes to the root directory. */
  ghost predicate RootWritable(fs: Fs) {
    forall n :: n in fs.inodes && fs.inodes[n].sector == 1 ==> fs.inodes[n].denyWriteCnt == 0
  }

  predicate Matches(s: Slot, name: string) { s.inUse && s.name == name }

  /** Entry j is the first of the name, and within reach of the reads. */
  ghost predicate FirstNamed(slots: seq<Slot>, name: string, limit: nat, j: nat) {
    && j < |slots| && j < limit && Matches(slots[j], name)
    && forall i :: 0 <= i < j ==> !Matches(slots[i], name)
  }

  ghost predicate FirstFreeSector(m: seq<bool>, x: nat) { x < |m| && !m[x] && forall y :: 0 <= y < x ==> m[y] }

  /** cnt sectors in a row from p on are free and not sector x. */
  ghost predicate Room(m: seq<bool>, x: nat, p: nat, cnt: nat) {
    p + cnt <= |m| && forall q :: p <= q < p + cnt ==> !m[q] && q != x
  }

  // ------------------------------------------------------------------
  // Opening inodes

  lemma OpenSetIs(fs: Fs, sector: nat)
    ensures sector in OpenSet(fs.inodes) <==> IsOpen(fs, sector)
  {
  }

  /** inode_open fails only if a struct inode is needed and cannot be had. */
  lemma InodeOpensWhen(fs: Fs, sector: nat, memory: bool, held: multiset<nat>)
    requires Inv(fs, held) && sector in LiveSet(fs)
    ensures InodeOpen(fs, sector, memory).1.Some? <==> IsOpen(fs, sector) || memory
  {
    FindOpenFinds(fs.openInodes, fs.inodes, sector);
    assert Backed(fs.freeMap, fs.disk, sector);
    if IsOpen(fs, sector) {
      var n :| n in fs.inodes && fs.inodes[n].sector == sector;
      assert n in fs.openInodes;
    }
  }

  lemma RootOpensWhen(fs: Fs, u: Luck)
    requires Inv(fs, multiset{})
    ensures DirOpenRoot(fs, u).1.Some? <==> RootReady(fs, u)
  {
    InodeOpensWhen(fs, ROOT_DIR_SECTOR, u.rootMemory, multiset{});
  }

  /** With the root directory open nothing but its own inode has changed. */
  lemma RootOpened(fs: Fs, u: Luck)
    requires Inv(fs, multiset{}) && DirOpenRoot(fs, u).1.Some?
    ensures var (fs1, dir) := DirOpenRoot(fs, u);
            && Inv(fs1, multiset{dir.value}) && LiveSet(fs1) == LiveSet(fs)
            && fs1.slots == fs.slots && fs1.freeMap == fs.freeMap && fs1.disk == fs.disk && fs1.files == fs.files
            && (Writable(fs1, dir.value) <==> RootWritable(fs))
            && (forall n :: n in fs.inodes && fs.inodes[n].sector != 1 ==>
                              n in fs1.inodes && fs1.inodes[n] == fs.inodes[n])
            && (forall n :: n in fs1.inodes && fs1.inodes[n].sector != 1 ==> n in fs.inodes)
            && (forall n :: n in fs.inodes ==>
                  && n in fs1.inodes
                  && fs1.inodes[n].sector == fs.inodes[n].sector && fs1.inodes[n].removed == fs.inodes[n].removed)
  {
    RootOnly(fs, u);
    MadeIsNew(fs, multiset{});
    FindOpenFinds(fs.openInodes, fs.inodes, ROOT_DIR_SECTOR);
  }

  lemma StaysOpen(fs: Fs, fs1: Fs, sector: nat)
    requires sector != 1
    requires forall n :: n in fs.inodes && fs.inodes[n].sector != 1 ==> n in fs1.inodes && fs1.inodes[n] == fs.inodes[n]
    requires forall n :: n in fs1.inodes && fs1.inodes[n].sector != 1 ==> n in fs.inodes
    requires forall n :: n in fs.inodes && n in fs1.inodes ==> fs1.inodes[n].sector == fs.inodes[n].sector
    ensures IsOpen(fs1, sector) <==> IsOpen(fs, sector)
  {
    if IsOpen(fs, sector) {
      var n :| n in fs.inodes && fs.inodes[n].sector == sector;
      assert fs1.inodes[n].sector == sector;
    }
    if IsOpen(fs1, sector) {
      var n :| n in fs1.inodes && fs1.inodes[n].sector == sector;
      assert fs.inodes[n].sector == sector;
    }
  }

  /** lookup, as a condition on the entries. */
  lemma LookupWhen(slots: seq<Slot>, name: string, limit: nat)
    ensures Lookup(slots, name, 0, limit).Some? <==> exists j: nat :: FirstNamed(slots, name, limit, j)
    ensures forall j: nat :: FirstNamed(slots, name, limit, j) ==> Lookup(slots, name, 0, limit) == Some(j)
  {
    LookupFinds(slots, name, 0, limit);
    var r := Lookup(slots, name, 0, limit);
    if r.Some? {
      forall i | 0 <= i < r.value ensures !Matches(slots[i], name) {
      }
      assert FirstNamed(slots, name, limit, r.value);
    }
    forall j: nat | FirstNamed(slots, name, limit, j) ensures r == Some(j) {
      assert Matches(slots[j], name);
      if r.Some? { assert Matches(slots[r.value], name); }
    }
  }

  // ------------------------------------------------------------------
  // filesys_open

  /** The name leads to an entry whose inode is open or can be read in. */
  ghost predicate Reachable(fs: Fs, name: string, u: Luck, j: nat) {
    FirstNamed(fs.slots, name, u.lookupReads, j) && (IsOpen(fs, fs.slots[j].sector) || u.inodeMemory)
  }

  lemma RootReaches(fs: Fs, name: string, u: Luck)
    requires Inv(fs, multiset{}) && DirOpenRoot(fs, u).1.Some?
    ensures forall j: nat :: Reachable(DirOpenRoot(fs, u).0, name, u, j) <==> Reachable(fs, name, u, j)
  {
    RootOpened(fs, u);
    var fs1 := DirOpenRoot(fs, u).0;
    forall j: nat ensures Reachable(fs1, name, u, j) <==> Reachable(fs, name, u, j) {
      if j < |fs.slots| && fs.slots[j].inUse { StaysOpen(fs, fs1, fs.slots[j].sector); }
    }
  }

  /** filesys_open succeeds exactly if the directory can be opened, the name is found, its inode is open
      already or can be read in, and a handle can be had. */
  lemma OpenWhen(fs: Fs, name: string, u: Luck)
    requires Inv(fs, multiset{})
    ensures Open(fs, name, u).1.Some? <==>
            RootReady(fs, u) && u.fileMemory && exists j: nat :: Reachable(fs, name, u, j)
  {
    RootOpensWhen(fs, u);
    var (fs1, dir) := DirOpenRoot(fs, u);
    if dir.Some? {
      RootOpened(fs, u);
      OpenInWhen(fs1, name, u, multiset{dir.value});
      RootReaches(fs, name, u);
    }
  }

  lemma OpenInWhen(fs: Fs, name: string, u: Luck, held: multiset<nat>)
    requires Inv(fs, held)
    ensures OpenIn(fs, name, u).1.Some? <==> exists j: nat :: Reachable(fs, name, u, j)
  {
    LookupWhen(fs.slots, name, u.lookupReads);
    var r := Lookup(fs.slots, name, 0, u.lookupReads);
    if r.Some? {
      NamedAre(fs.slots, r.value);
      InodeOpensWhen(fs, fs.slots[r.value].sector, u.inodeMemory, held);
      assert OpenIn(fs, name, u).1.Some? ==> Reachable(fs, name, u, r.value);
    }
  }

  // ------------------------------------------------------------------
  // filesys_remove

  /** filesys_remove succeeds exactly if the directory can be opened and written, the name is found, and
      its inode is open already or can be read in; whether the file is open makes no difference. */
  lemma RemoveWhen(fs: Fs, name: string, u: Luck)
    requires Inv(fs, multiset{})
    ensures Remove(fs, name, u).1 <==>
              RootReady(fs, u) && u.slotWrite && RootWritable(fs) && exists j: nat :: Reachable(fs, name, u, j)
  {
    RootOpensWhen(fs, u);
    var (fs1, dir) := DirOpenRoot(fs, u);
    if dir.Some? {
      RootOpened(fs, u);
      DirRemoveWhen(fs1, dir.value, name, u, multiset{dir.value});
      RootReaches(fs, name, u);
    }
  }

  lemma DirRemoveWhen(fs: Fs, dir: nat, name: string, u: Luck, held: multiset<nat>)
    requires Inv(fs, held) && dir in fs.inodes && fs.inodes[dir].sector == 1
    ensures DirRemove(fs, dir, name, u).1 <==>
              u.slotWrite && Writable(fs, dir) && exists j: nat :: Reachable(fs, name, u, j)
  {
    LookupWhen(fs.slots, name, u.lookupReads);
    var r := Lookup(fs.slots, name, 0, u.lookupReads);
    if r.Some? {
      var x := fs.slots[r.value].sector;
      NamedAre(fs.slots, r.value);
      InodeOpensWhen(fs, x, u.inodeMemory, held);
      OpenSpares(fs, x, u.inodeMemory, held, dir);
      assert InodeOpen(fs, x, u.inodeMemory).1.Some? <==> Reachable(fs, name, u, r.value);
    }
  }

  /** Opening one sector's inode leaves those of other sectors as they are. */
  lemma OpenSpares(fs: Fs, sector: nat, memory: bool, held: multiset<nat>, n: nat)
    requires Inv(fs, held) && n in fs.inodes && fs.inodes[n].sector != sector
    ensures var fs' := InodeOpen(fs, sector, memory).0; n in fs'.inodes && fs'.inodes[n] == fs.inodes[n]
  {
    MadeIsNew(fs, held);
    FindOpenFinds(fs.openInodes, fs.inodes, sector);
  }

  /** A remove that fails changes no entry, no sector and no handle. */
  lemma FailedRemove(fs: Fs, name: string, u: Luck)
    requires Inv(fs, multiset{}) && !Remove(fs, name, u).1
    ensures var fs' := Remove(fs, name, u).0;
            fs'.slots == fs.slots && fs'.freeMap == fs.freeMap && fs'.files == fs.files && fs'.disk == fs.disk
  {
    RootKeepsMap(fs, u);
    RootFiles(fs, u);
    var (fs1, dir) := DirOpenRoot(fs, u);
    if dir.Some? {
      RootOnly(fs, u);
      FailedDirRemove(fs1, dir.value, name, u);
      var fs2 := DirRemove(fs1, dir.value, name, u).0;
      RootCloseFrees(fs2, dir.value);
      CloseRest(fs2, dir.value);
    }
  }

  lemma FailedDirRemove(fs: Fs, dir: nat, name: string, u: Luck)
    requires Inv(fs, multiset{dir}) && dir in fs.inodes && fs.inodes[dir].sector == 1 && !DirRemove(fs, dir, name, u).1
    ensures var fs' := DirRemove(fs, dir, name, u).0;
            && Inv(fs', multiset{dir}) && dir in fs'.inodes && fs'.inodes[dir].sector == 1
            && fs'.slots == fs.slots && fs'.freeMap == fs.freeMap && fs'.files == fs.files && fs'.disk == fs.disk
  {
    DirRemoveKeeps(fs, dir, name, u, multiset{dir});
    var r := Lookup(fs.slots, name, 0, u.lookupReads);
    if r.Some? {
      var x := fs.slots[r.value].sector;
      NamedAre(fs.slots, r.value);
      OpenKeeps(fs, x, u.inodeMemory, multiset{dir});
      OpenSpares(fs, x, u.inodeMemory, multiset{dir}, dir);
      var (fs1, n) := InodeOpen(fs, x, u.inodeMemory);
      if n.Some? { NamedCloses(fs1, n.value, dir, r.value); }
    }
  }

  /** Closing the inode of a file that has a name frees nothing. */
  lemma NamedCloses(fs: Fs, n: nat, dir: nat, j: nat)
    requires Inv(fs, multiset{dir} + multiset{n}) && n in fs.inodes && dir in fs.inodes && dir != n
    requires j < |fs.slots| && fs.slots[j].inUse && fs.inodes[n].sector == fs.slots[j].sector
    ensures var fs' := InodeClose(fs, n);
            && fs'.freeMap == fs.freeMap && fs'.slots == fs.slots && fs'.files == fs.files && fs'.disk == fs.disk
            && dir in fs'.inodes && fs'.inodes[dir] == fs.inodes[dir]
  {
    NamedAre(fs.slots, j);
    assert InodeOk(fs, multiset{dir} + multiset{n}, n);
  }

  lemma CloseRest(fs: Fs, n: nat)
    ensures InodeClose(fs, n).files == fs.files && InodeClose(fs, n).disk == fs.disk
  {
  }

  lemma RootFiles(fs: Fs, u: Luck)
    ensures DirOpenRoot(fs, u).0.files == fs.files && DirOpenRoot(fs, u).0.disk == fs.disk
  {
    var (fs1, n) := InodeOpen(fs, ROOT_DIR_SECTOR, u.rootMemory);
    assert fs1.files == fs.files && fs1.disk == fs.disk;
    if n.Some? { CloseRest(fs1, n.value); }
  }

  // ------------------------------------------------------------------
  // filesys_create

  /** free_map_allocate takes the lowest run of free sectors, and fails only if there is none or the
      map cannot be saved. */
  lemma AllocateWhen(fs: Fs, cnt: nat, saved: bool)
    ensures var r := Allocate(fs, cnt, saved).1;
            && (r.Some? <==> saved && exists p: nat :: p + cnt <= |fs.freeMap| && AllAre(fs.freeMap, p, cnt, false))
            && (r.Some? ==> r.value + cnt <= |fs.freeMap| && AllAre(fs.freeMap, r.value, cnt, false)
                            && forall p: nat :: p < r.value ==> !AllAre(fs.freeMap, p, cnt, false))
  {
  }

  lemma OneSector(m: seq<bool>, x: nat)
    requires x < |m|
    ensures AllAre(m, x, 1, false) <==> !m[x]
  {
    assert x <= x < x + 1;
  }

  /** Entry i is where dir_add would write: the first free one, or the first it cannot read. */
  ghost predicate Landing(slots: seq<Slot>, scanReads: nat, i: nat) {
    && i < |slots| && (!slots[i].inUse || i == scanReads) && i <= scanReads
    && forall j :: 0 <= j < i ==> slots[j].inUse
  }

  lemma FreeSlotWhen(slots: seq<Slot>, limit: nat)
    ensures FreeSlot(slots, 0, limit) < |slots| <==> exists i: nat :: Landing(slots, limit, i)
    ensures forall i: nat :: Landing(slots, limit, i) ==> FreeSlot(slots, 0, limit) == i
  {
    FreeSlotFinds(slots, 0, limit);
    var r := FreeSlot(slots, 0, limit);
    if r < |slots| { assert Landing(slots, limit, r); }
  }

  /** What dir_add asks for. */
  ghost predicate CanAdd(slots: seq<Slot>, name: string, u: Luck) {
    && 0 < |name| <= 14 && u.slotWrite
    && (forall j :: 0 <= j < |slots| && j < u.lookupReads ==> !Matches(slots[j], name))
    && exists i: nat :: Landing(slots, u.scanReads, i)
  }

  lemma AddWhen(fs: Fs, dir: nat, name: string, x: nat, u: Luck)
    ensures DirAdd(fs, dir, name, x, u).1 <==> CanAdd(fs.slots, name, u) && Writable(fs, dir)
  {
    LookupFinds(fs.slots, name, 0, u.lookupReads);
    FreeSlotWhen(fs.slots, u.scanReads);
    var r := Lookup(fs.slots, name, 0, u.lookupReads);
    if r.Some? {
      assert Matches(fs.slots[r.value], name);
    } else {
      forall j | 0 <= j < |fs.slots| && j < u.lookupReads ensures !Matches(fs.slots[j], name) {
      }
    }
  }

  /** The free map has a sector for the inode and, beside it, a run for the data. */
  ghost predicate CanStore(m: seq<bool>, size: nat) {
    exists x: nat, p: nat {:trigger FirstFreeSector(m, x), Room(m, x, p, (size + 511) / 512)} ::
      FirstFreeSector(m, x) && Room(m, x, p, (size + 511) / 512)
  }

  /** filesys_create succeeds exactly if the directory can be opened and written, there is room on the disk
      and in memory, the free map can be saved both times, and the name is short enough, not empty and
      not seen in use. */
  lemma CreateWhen(fs: Fs, name: string, size: nat, u: Luck)
    requires Inv(fs, multiset{})
    ensures Create(fs, name, size, u).1 <==>
              && RootReady(fs, u) && RootWritable(fs) && CanStore(fs.freeMap, size) && CanAdd(fs.slots, name, u)
              && u.saved && u.dataSaved && u.inodeMemory
  {
    RootOpensWhen(fs, u);
    var (fs1, dir) := DirOpenRoot(fs, u);
    if dir.Some? {
      RootOpened(fs, u);
      CreateInWhen(fs1, dir.value, name, size, u);
    }
  }

  lemma CreateInWhen(fs: Fs, dir: nat, name: string, size: nat, u: Luck)
    ensures CreateIn(fs, dir, name, size, u).1 <==>
              && CanStore(fs.freeMap, size) && u.saved && u.dataSaved && u.inodeMemory
              && CanAdd(fs.slots, name, u) && Writable(fs, dir)
  {
    StoreWhen(fs, size, u);
    var (fs1, x) := Allocate(fs, 1, u.saved);
    if x.Some? {
      var (fs2, made) := InodeCreate(fs1, x.value, size, u.inodeMemory, u.dataSaved);
      if made { AddWhen(fs2, dir, name, x.value, u); }
    }
  }

  lemma StoreWhen(fs: Fs, size: nat, u: Luck)
    ensures var (fs1, x) := Allocate(fs, 1, u.saved);
            x.Some? && InodeCreate(fs1, x.value, size, u.inodeMemory, u.dataSaved).1 <==>
            CanStore(fs.freeMap, size) && u.saved && u.dataSaved && u.inodeMemory
  {
    var m := fs.freeMap;
    var (fs1, x) := Allocate(fs, 1, u.saved);
    AllocateWhen(fs, 1, u.saved);
    if x.Some? {
      LowestIsFirst(m, x.value);
      DataWhen(fs1, m, x.value, (size + 511) / 512, u.dataSaved);
    }
    if u.saved && CanStore(m, size) {
      var y: nat, p: nat :| FirstFreeSector(m, y) && Room(m, y, p, (size + 511) / 512);
      OneSector(m, y);
      assert x.Some? && x.value == y;
    }
  }

  /** With sector x taken, the data fits where there is room beside it. */
  lemma DataWhen(fs: Fs, m: seq<bool>, x: nat, cnt: nat, saved: bool)
    requires x < |m| && fs.freeMap == SetRange(m, x, 1, true)
    ensures Allocate(fs, cnt, saved).1.Some? <==> saved && exists p: nat :: Room(m, x, p, cnt)
    ensures Allocate(fs, cnt, saved).1.Some? ==> LowestRoom(m, x, Allocate(fs, cnt, saved).1.value, cnt)
  {
    AllocateWhen(fs, cnt, saved);
    forall p: nat | p + cnt <= |m| ensures AllAre(fs.freeMap, p, cnt, false) <==> Room(m, x, p, cnt) {
      RoomIs(m, fs.freeMap, x, p, cnt);
    }
  }

  lemma RoomIs(m: seq<bool>, m': seq<bool>, x: nat, p: nat, cnt: nat)
    requires x < |m| && m' == SetRange(m, x, 1, true) && p + cnt <= |m|
    ensures AllAre(m', p, cnt, false) <==> Room(m, x, p, cnt)
  {
    assert forall q :: 0 <= q < |m| ==> (m'[q] <==> m[q] || q == x);
  }

  ghost predicate LowestRoom(m: seq<bool>, x: nat, p: nat, cnt: nat) {
    Room(m, x, p, cnt) && forall q: nat :: q < p ==> !Room(m, x, q, cnt)
  }

  lemma LowestIsFirst(m: seq<bool>, x: nat)
    requires x < |m| && AllAre(m, x, 1, false) && forall p: nat :: p < x ==> !AllAre(m, p, 1, false)
    ensures FirstFreeSector(m, x)
  {
    OneSector(m, x);
    forall y | 0 <= y < x ensures m[y] { OneSector(m, y); }
  }

  // ------------------------------------------------------------------
  // What filesys_open leaves behind

  /** A new handle, which does not deny writes, on the inode of the first entry of the name. */
  lemma OpenDoes(fs: Fs, name: string, u: Luck) returns (j: nat)
    requires Inv(fs, multiset{}) && Open(fs, name, u).1.Some?
    ensures FirstNamed(fs.slots, name, u.lookupReads, j)
    ensures var (fs', f) := Open(fs, name, u);
            && f.value !in fs.files && f.value in fs'.files && fs'.files == fs.files[f.value := fs'.files[f.value]]
            && !fs'.files[f.value].denyWrite && fs'.files[f.value].inode in fs'.inodes
            && fs'.inodes[fs'.files[f.value].inode].sector == fs.slots[j].sector
            && fs'.slots == fs.slots && fs'.freeMap == fs.freeMap && fs'.disk == fs.disk
  {
    RootOpensWhen(fs, u);
    RootOpened(fs, u);
    RootOnly(fs, u);
    var (fs1, dir) := DirOpenRoot(fs, u);
    RootMade(fs, u);
    j := OpenInDoes(fs1, dir.value, name, u);
    assert forall f :: f in fs.files ==> FileOk(fs, f);
  }

  lemma RootMade(fs: Fs, u: Luck)
    ensures fs.made <= DirOpenRoot(fs, u).0.made
  {
    RootEvolves(fs, u);
  }

  lemma OpenInDoes(fs: Fs, dir: nat, name: string, u: Luck) returns (j: nat)
    requires Inv(fs, multiset{dir}) && dir in fs.inodes && fs.inodes[dir].sector == 1 && OpenIn(fs, name, u).1.Some?
    ensures FirstNamed(fs.slots, name, u.lookupReads, j)
    ensures var (fs1, n) := OpenIn(fs, name, u); var fs' := InodeClose(fs1, dir);
            && fs'.files == fs.files && fs'.slots == fs.slots && fs'.freeMap == fs.freeMap && fs'.disk == fs.disk
            && fs.made <= fs'.made && n.value in fs'.inodes && fs'.inodes[n.value].sector == fs.slots[j].sector
  {
    LookupWhen(fs.slots, name, u.lookupReads);
    j := Lookup(fs.slots, name, 0, u.lookupReads).value;
    var x := fs.slots[j].sector;
    NamedAre(fs.slots, j);
    OpenKeeps(fs, x, u.inodeMemory, multiset{dir});
    OpenSpares(fs, x, u.inodeMemory, multiset{dir}, dir);
    var (fs1, n) := InodeOpen(fs, x, u.inodeMemory);
    assert multiset{dir} + multiset{n.value} == multiset{n.value} + multiset{dir};
    DirectoryCloses(fs1, dir, n.value);
  }

  /** Closing the root directory, which is never removed, frees nothing and touches no other inode. */
  lemma DirectoryCloses(fs: Fs, dir: nat, n: nat)
    requires Inv(fs, multiset{n} + multiset{dir}) && dir in fs.inodes && fs.inodes[dir].sector == 1
    requires n in fs.inodes && n != dir
    ensures var fs' := InodeClose(fs, dir);
            && fs'.freeMap == fs.freeMap && fs'.slots == fs.slots && fs'.files == fs.files && fs'.disk == fs.disk
            && fs'.made == fs.made && n in fs'.inodes && fs'.inodes[n] == fs.inodes[n]
  {
    assert InodeOk(fs, multiset{n} + multiset{dir}, dir);
  }

  /** An open that fails leaves no handle and changes no entry and no sector. */
  lemma FailedOpen(fs: Fs, name: string, u: Luck)
    requires Inv(fs, multiset{}) && Open(fs, name, u).1 == None
    ensures var fs' := Open(fs, name, u).0;
            fs'.slots == fs.slots && fs'.freeMap == fs.freeMap && fs'.files == fs.files && fs'.disk == fs.disk
  {
    RootKeepsMap(fs, u);
    RootFiles(fs, u);
    var (fs1, dir) := DirOpenRoot(fs, u);
    if dir.Some? {
      RootOnly(fs, u);
      if OpenIn(fs1, name, u).1.Some? {
        FailedHandle(fs1, dir.value, name, u);
      } else {
        FailedOpenIn(fs1, name, u, multiset{dir.value});
        RootCloseFrees(fs1, dir.value);
        CloseRest(fs1, dir.value);
      }
    }
  }

  lemma FailedOpenIn(fs: Fs, name: string, u: Luck, held: multiset<nat>)
    requires Inv(fs, held) && OpenIn(fs, name, u).1 == None
    ensures OpenIn(fs, name, u).0 == fs
  {
    var r := Lookup(fs.slots, name, 0, u.lookupReads);
    if r.Some? {
      NamedAre(fs.slots, r.value);
      OpenKeeps(fs, fs.slots[r.value].sector, u.inodeMemory, held);
    }
  }

  /** The inode was found, but no handle could be had: the inode is closed again. */
  lemma FailedHandle(fs: Fs, dir: nat, name: string, u: Luck)
    requires Inv(fs, multiset{dir}) && dir in fs.inodes && fs.inodes[dir].sector == 1 && OpenIn(fs, name, u).1.Some?
    ensures var (fs1, n) := OpenIn(fs, name, u); var fs' := InodeClose(InodeClose(fs1, dir), n.value);
            fs'.files == fs.files && fs'.slots == fs.slots && fs'.freeMap == fs.freeMap && fs'.disk == fs.disk
  {
    var j := OpenInDoes(fs, dir, name, u);
    var (fs1, n) := OpenIn(fs, name, u);
    OpenInFinds(fs, name, u, multiset{dir});
    assert multiset{dir} + multiset{n.value} == multiset{n.value} + multiset{dir};
    CloseKeeps(fs1, dir, multiset{n.value});
    var fs2 := InodeClose(fs1, dir);
    NamedAre(fs2.slots, j);
    assert InodeOk(fs2, multiset{n.value}, n.value);
    CloseRest(fs2, n.value);
  }

  // ------------------------------------------------------------------
  // What filesys_create leaves behind

  /** The inode goes to the first free sector, the data to the first room beside it, the entry to the
      first free place; nothing else changes. */
  lemma CreateDoes(fs: Fs, name: string, size: nat, u: Luck) returns (x: nat, p: nat, i: nat)
    requires Inv(fs, multiset{}) && Create(fs, name, size, u).1
    ensures FirstFreeSector(fs.freeMap, x) && LowestRoom(fs.freeMap, x, p, (size + 511) / 512)
    ensures Landing(fs.slots, u.scanReads, i)
    ensures var fs' := Create(fs, name, size, u).0;
            && fs'.slots == fs.slots[i := Slot(x, name, true)] && fs'.files == fs.files
            && x in fs'.disk && fs'.disk[x] == DiskInode(p, size)
            && |fs'.freeMap| == |fs.freeMap|
            && forall s :: 0 <= s < |fs.freeMap| ==>
                 fs'.freeMap[s] == (fs.freeMap[s] || s == x || p <= s < p + (size + 511) / 512)
  {
    RootOnly(fs, u);
    RootFiles(fs, u);
    var (fs1, dir) := DirOpenRoot(fs, u);
    x, p, i := CreateInDoes(fs1, dir.value, name, size, u);
    var fs2 := CreateIn(fs1, dir.value, name, size, u).0;
    CreateInKeeps(fs1, dir.value, name, size, u, multiset{dir.value});
    RootCloseFrees(fs2, dir.value);
    CloseRest(fs2, dir.value);
  }

  lemma CreateInDoes(fs: Fs, dir: nat, name: string, size: nat, u: Luck) returns (x: nat, p: nat, i: nat)
    requires CreateIn(fs, dir, name, size, u).1
    ensures FirstFreeSector(fs.freeMap, x) && LowestRoom(fs.freeMap, x, p, (size + 511) / 512)
    ensures Landing(fs.slots, u.scanReads, i)
    ensures var fs' := CreateIn(fs, dir, name, size, u).0;
            && fs'.slots == fs.slots[i := Slot(x, name, true)] && fs'.files == fs.files && fs'.inodes == fs.inodes
            && x in fs'.disk && fs'.disk[x] == DiskInode(p, size)
            && |fs'.freeMap| == |fs.freeMap|
            && forall s :: 0 <= s < |fs.freeMap| ==>
                 fs'.freeMap[s] == (fs.freeMap[s] || s == x || p <= s < p + (size + 511) / 512)
  {
    var (fs1, r) := Allocate(fs, 1, u.saved);
    AllocateWhen(fs, 1, u.saved);
    x := r.value;
    LowestIsFirst(fs.freeMap, x);
    DataWhen(fs1, fs.freeMap, x, (size + 511) / 512, u.dataSaved);
    p := Allocate(fs1, (size + 511) / 512, u.dataSaved).1.value;
    var fs2 := InodeCreate(fs1, x, size, u.inodeMemory, u.dataSaved).0;
    FreeSlotWhen(fs2.slots, u.scanReads);
    i := FreeSlot(fs2.slots, 0, u.scanReads);
  }

  // ------------------------------------------------------------------
  // What filesys_remove leaves behind

  /** The first entry of the name is free again, all handles are still there, and if the file is open its
      inode is marked removed. */
  lemma RemoveDoes(fs: Fs, name: string, u: Luck) returns (j: nat)
    requires Inv(fs, multiset{}) && Remove(fs, name, u).1
    ensures FirstNamed(fs.slots, name, u.lookupReads, j)
    ensures var fs' := Remove(fs, name, u).0;
            && fs'.slots == fs.slots[j := fs.slots[j].(inUse := false)] && fs'.files == fs.files && fs'.disk == fs.disk
            && forall n :: n in fs.inodes && fs.inodes[n].sector == fs.slots[j].sector ==>
                 n in fs'.inodes && fs'.inodes[n] == fs.inodes[n].(removed := true)
  {
    RootOnly(fs, u);
    RootOpened(fs, u);
    var (fs1, dir) := DirOpenRoot(fs, u);
    j := DirRemoveDoes(fs1, dir.value, name, u);
    var fs2 := DirRemove(fs1, dir.value, name, u).0;
    CloseRest(fs2, dir.value);
    CloseSlots(fs2, dir.value);
    forall n | n in fs.inodes && fs.inodes[n].sector == fs.slots[j].sector
      ensures n in InodeClose(fs2, dir.value).inodes
              && InodeClose(fs2, dir.value).inodes[n] == fs.inodes[n].(removed := true)
    {
      assert n in fs1.inodes && fs1.inodes[n] == fs.inodes[n] && n != dir.value;
      CloseSpares(fs2, dir.value, n);
    }
  }

  lemma CloseSpares(fs: Fs, n: nat, m: nat)
    requires m in fs.inodes && m != n
    ensures m in InodeClose(fs, n).inodes && InodeClose(fs, n).inodes[m] == fs.inodes[m]
  {
  }

  lemma DirRemoveDoes(fs: Fs, dir: nat, name: string, u: Luck) returns (j: nat)
    requires Inv(fs, multiset{dir}) && dir in fs.inodes && fs.inodes[dir].sector == 1 && DirRemove(fs, dir, name, u).1
    ensures FirstNamed(fs.slots, name, u.lookupReads, j) && fs.slots[j].sector > 1
    ensures var fs' := DirRemove(fs, dir, name, u).0;
            && fs'.slots == fs.slots[j := fs.slots[j].(inUse := false)] && fs'.files == fs.files && fs'.disk == fs.disk
            && forall n :: n in fs.inodes && fs.inodes[n].sector == fs.slots[j].sector ==>
                 n in fs'.inodes && fs'.inodes[n] == fs.inodes[n].(removed := true)
  {
    LookupWhen(fs.slots, name, u.lookupReads);
    j := Lookup(fs.slots, name, 0, u.lookupReads).value;
    var x := fs.slots[j].sector;
    var (fs1, n) := InodeOpen(fs, x, u.inodeMemory);
    FindOpenFinds(fs.openInodes, fs.inodes, x);
    var fs2 := InodeRemove(fs1.(slots := fs1.slots[j := fs.slots[j].(inUse := false)]), n.value);
    CloseRest(fs2, n.value);
    CloseSlots(fs2, n.value);
    forall m | m in fs.inodes && fs.inodes[m].sector == x
      ensures m in InodeClose(fs2, n.value).inodes
              && InodeClose(fs2, n.value).inodes[m] == fs.inodes[m].(removed := true)
    {
      assert InodeOk(fs, multiset{dir}, m) && m in fs.openInodes;
      assert n.value == m;
    }
  }

  // ------------------------------------------------------------------
  // From filesys_remove to the last close

  lemma {:induction false} RemovedStays(fs: Fs, run: seq<Op>, f: nat)
    requires Inv(fs, multiset{}) && IsRun(fs, run) && f in fs.files && OClose(f) !in run
    requires fs.files[f].inode in fs.inodes && fs.inodes[fs.files[f].inode].removed
    ensures var fs' := After(fs, run);
            && Inv(fs', multiset{}) && SameFile(fs, fs', f) && fs'.inodes[fs'.files[f].inode].removed
    decreases |run|
  {
    if run == [] {
      BothOk(fs, fs, f);
    } else {
      var fs1 := Apply(fs, run[0]);
      HandleStays(fs, run[0], f);
      OpEvolves(fs, run[0]);
      assert FileOk(fs, f) && InodeOk(fs, multiset{}, fs.files[f].inode);
      RemovedStays(fs1, run[1..], f);
      SameTwice(fs, fs1, After(fs, run), f);
    }
  }

  lemma SameTwice(a: Fs, b: Fs, c: Fs, f: nat)
    requires SameFile(a, b, f) && SameFile(b, c, f)
    ensures SameFile(a, c, f)
  {
  }

  /** A file removed while it is open keeps its sectors until its last handle is closed, however long that
      takes and whatever happens meanwhile; that close frees exactly its sectors. */
  lemma RemovedUntilLastClose(fs: Fs, name: string, u: Luck, run: seq<Op>, f: nat) returns (j: nat)
    requires Inv(fs, multiset{}) && Remove(fs, name, u).1 && f in fs.files && fs.files[f].inode in fs.inodes
    requires IsRun(Remove(fs, name, u).0, run) && OClose(f) !in run
    ensures FirstNamed(fs.slots, name, u.lookupReads, j)
    ensures fs.inodes[fs.files[f].inode].sector == fs.slots[j].sector ==>
              var fs1 := After(Remove(fs, name, u).0, run);
              && f in fs1.files
              && (forall s: nat :: Owns(fs.disk, fs.slots[j].sector, s) ==> s < |fs1.freeMap| && fs1.freeMap[s])
              && (HandlesOn(fs1.files, fs1.files[f].inode) == {f} ==>
                    Freed(fs1.freeMap, FileClose(fs1, f).freeMap, fs.disk, fs.slots[j].sector))
  {
    j := RemoveDoes(fs, name, u);
    var fs0 := Remove(fs, name, u).0;
    if fs.inodes[fs.files[f].inode].sector == fs.slots[j].sector {
      RemoveKeeps(fs, name, u);
      RemovedHeld(fs0, run, f, fs.slots[j].sector);
    }
  }

  lemma RemovedHeld(fs: Fs, run: seq<Op>, f: nat, x: nat)
    requires Inv(fs, multiset{}) && IsRun(fs, run) && f in fs.files && OClose(f) !in run
    requires var n := fs.files[f].inode; n in fs.inodes && fs.inodes[n].removed && fs.inodes[n].sector == x
    ensures var fs1 := After(fs, run);
            && f in fs1.files
            && (forall s: nat :: Owns(fs.disk, x, s) ==> s < |fs1.freeMap| && fs1.freeMap[s])
            && (HandlesOn(fs1.files, fs1.files[f].inode) == {f} ==>
                   Freed(fs1.freeMap, FileClose(fs1, f).freeMap, fs.disk, x))
  {
    var fs1 := After(fs, run);
    RemovedStays(fs, run, f);
    HandleProtects(fs, run, f, 0, true);
    forall s: nat | Owns(fs.disk, x, s) ensures s < |fs1.freeMap| && fs1.freeMap[s] {
      assert HandleOwns(fs, f, s);
    }
    if HandlesOn(fs1.files, fs1.files[f].inode) == {f} {
      LastCloseOf(fs1, f);
      forall s: nat ensures Owns(fs1.disk, x, s) <==> Owns(fs.disk, x, s) {
      }
    }
  }

  /** The map has lost exactly the sectors of the file whose inode is in sector x. */
  ghost predicate Freed(m: seq<bool>, m': seq<bool>, disk: map<nat, DiskInode>, x: nat) {
    |m'| == |m| && forall s: nat :: s < |m| ==> m'[s] == (m[s] && !Owns(disk, x, s))
  }

  lemma LastCloseOf(fs: Fs, f: nat)
    requires Inv(fs, multiset{}) && f in fs.files && fs.files[f].inode in fs.inodes
             && fs.inodes[fs.files[f].inode].removed
    requires HandlesOn(fs.files, fs.files[f].inode) == {f}
    ensures Freed(fs.freeMap, FileClose(fs, f).freeMap, fs.disk, fs.inodes[fs.files[f].inode].sector)
  {
    var n, fs1 := fs.files[f].inode, FileAllowWrite(fs, f);
    assert InodeOk(fs, multiset{}, n);
    FileAllowKeeps(fs, f, multiset{});
    AllowSpares(fs, f);
    var rest := fs1.files - {f};
    DropHandleKeeps(fs1, f, multiset{});
    CloseFrees(fs1.(files := rest), n, multiset{});
    CloseIgnoresFiles(fs1, n, rest);
  }

  lemma AllowSpares(fs: Fs, f: nat)
    requires Inv(fs, multiset{}) && f in fs.files && fs.files[f].inode in fs.inodes
    ensures var n, fs1 := fs.files[f].inode, FileAllowWrite(fs, f);
            && fs1.freeMap == fs.freeMap && fs1.disk == fs.disk && f in fs1.files && fs1.files[f] == File(n, false)
            && n in fs1.inodes && fs1.inodes[n].openCnt == fs.inodes[n].openCnt
            && fs1.inodes[n].removed == fs.inodes[n].removed && fs1.inodes[n].sector == fs.inodes[n].sector
  {
    DenialsFit(fs, multiset{}, f);
  }

  // ------------------------------------------------------------------
  // Handles

  /** file_reopen needs only memory for the handle; the new one is on the same inode and denies nothing. */
  lemma ReopenDoes(fs: Fs, f: nat, memory: bool)
    requires Inv(fs, multiset{}) && f in fs.files
    ensures var (fs', r) := FileReopen(fs, f, memory); var n := fs.files[f].inode;
            && (r.Some? <==> memory) && n in fs.inodes && n in fs'.inodes
            && fs'.slots == fs.slots && fs'.freeMap == fs.freeMap && fs'.disk == fs.disk
            && (memory ==>
                  && r.value !in fs.files && fs'.files == fs.files[r.value := File(n, false)]
                  && fs'.inodes[n].openCnt == fs.inodes[n].openCnt + 1)
            && (!memory ==> fs'.files == fs.files && fs'.inodes[n].openCnt == fs.inodes[n].openCnt)
  {
    assert FileOk(fs, f) && InodeOk(fs, multiset{}, fs.files[f].inode);
    forall g | g in fs.files ensures g != fs.made { assert FileOk(fs, g); }
  }

  /** file_deny_write marks the handle, once, and file_allow_write takes the mark back. */
  lemma DenyDoes(fs: Fs, f: nat)
    requires Inv(fs, multiset{}) && f in fs.files
    ensures fs.files[f].inode in fs.inodes
    ensures var n := fs.files[f].inode; var i, fs1, fs2 := fs.inodes[n], FileDenyWrite(fs, f), FileAllowWrite(fs, f);
            && fs1.files == fs.files[f := File(n, true)] && fs2.files == fs.files[f := File(n, false)]
            && fs1.inodes == fs.inodes[n := i.(denyWriteCnt := i.denyWriteCnt + if fs.files[f].denyWrite then 0 else 1)]
            && fs2.inodes == fs.inodes[n := i.(denyWriteCnt := i.denyWriteCnt - if fs.files[f].denyWrite then 1 else 0)]
            && fs1.slots == fs.slots && fs1.freeMap == fs.freeMap && fs2.slots == fs.slots && fs2.freeMap == fs.freeMap
  {
    var file := fs.files[f];
    assert FileOk(fs, f) && InodeOk(fs, multiset{}, file.inode);
    DenialsFit(fs, multiset{}, f);
    assert file == File(file.inode, file.denyWrite);
    assert fs.files == fs.files[f := file] && fs.inodes == fs.inodes[file.inode := fs.inodes[file.inode]];
  }

  /** file_close takes the handle away and, with the last one, the inode; the counts of the others stay. */
  lemma CloseDoes(fs: Fs, f: nat)
    requires Inv(fs, multiset{}) && f in fs.files
    ensures fs.files[f].inode in fs.inodes
    ensures var n := fs.files[f].inode; var i, fs' := fs.inodes[n], FileClose(fs, f);
            && fs'.files == fs.files - {f} && fs'.slots == fs.slots && fs'.disk == fs.disk
            && (if HandlesOn(fs.files, n) == {f} then fs'.inodes == fs.inodes - {n}
                else var denied := if fs.files[f].denyWrite then 1 else 0;
                     var j := i.(openCnt := i.openCnt - 1, denyWriteCnt := i.denyWriteCnt - denied);
                     fs'.inodes == fs.inodes[n := j])
            && (!(HandlesOn(fs.files, n) == {f} && i.removed) ==> fs'.freeMap == fs.freeMap)
  {
    var n := fs.files[f].inode;
    assert FileOk(fs, f) && InodeOk(fs, multiset{}, n);
    DenyDoes(fs, f);
    OneHandle(fs, f);
    CloseInodes(FileAllowWrite(fs, f), n);
    CloseRest(FileAllowWrite(fs, f), n);
    CloseSlots(FileAllowWrite(fs, f), n);
    var allowed := FileAllowWrite(fs, f);
    assert allowed.disk == fs.disk;
    assert allowed.inodes[n].openCnt == fs.inodes[n].openCnt;
    assert fs.files[f := File(n, false)] - {f} == fs.files - {f};
    assert allowed.inodes - {n} == fs.inodes - {n};
  }

  lemma OneHandle(fs: Fs, f: nat)
    requires Inv(fs, multiset{}) && f in fs.files && fs.files[f].inode in fs.inodes
    ensures fs.inodes[fs.files[f].inode].openCnt == 1 <==> HandlesOn(fs.files, fs.files[f].inode) == {f}
  {
    var n := fs.files[f].inode;
    assert InodeOk(fs, multiset{}, n) && f in HandlesOn(fs.files, n);
    if |HandlesOn(fs.files, n)| == 1 { SubsetSame({f}, HandlesOn(fs.files, n)); }
  }

  lemma CloseInodes(fs: Fs, n: nat)
    requires n in fs.inodes
    ensures var i, fs' := fs.inodes[n], InodeClose(fs, n);
            && fs'.inodes == (if i.openCnt == 1 then fs.inodes - {n} else fs.inodes[n := i.(openCnt := i.openCnt - 1)])
            && (!(i.openCnt == 1 && i.removed) ==> fs'.freeMap == fs.freeMap)
  {
  }

  /** As long as any handle denies writes, writes through every handle on the file write nothing. */
  lemma DeniedWritesNothing(fs: Fs, f: nat, g: nat)
    requires Inv(fs, multiset{}) && f in fs.files && g in fs.files && fs.files[g].inode == fs.files[f].inode
    requires fs.files[g].denyWrite
    ensures fs.files[f].inode in fs.inodes && fs.inodes[fs.files[f].inode].denyWriteCnt > 0
  {
    var n := fs.files[f].inode;
    assert FileOk(fs, f) && InodeOk(fs, multiset{}, n);
    assert g in DenyingOn(fs.files, n);
  }

  // ------------------------------------------------------------------
  // Formatting

  /** How many sectors the free map's file takes on a disk of the given size. */
  function MapSectors(size: nat): nat { ((size + 31) / 32 * 4 + 511) / 512 }

  /** do_format: free map inode and directory inode in sectors 0 and 1, the map's data after them, then one
      sector for a directory of sixteen free entries; it fails only for want of room. */
  lemma FormatDoes(size: nat)
    requires size >= 2
    ensures Format(size).Some? <==> size >= 3 + MapSectors(size)
    ensures Format(size).Some? ==>
              var fs, k := Format(size).value, MapSectors(size);
              && |fs.freeMap| == size && (forall s :: 0 <= s < size ==> (fs.freeMap[s] <==> s < 3 + k))
              && 0 in fs.disk && fs.disk[0] == DiskInode(2, (size + 31) / 32 * 4)
              && 1 in fs.disk && fs.disk[1] == DiskInode(2 + k, 320)
              && |fs.slots| == 16 && (forall i :: 0 <= i < 16 ==> !fs.slots[i].inUse)
              && fs.openInodes == [] && fs.inodes == map[] && fs.files == map[]
  {
    var k, fs0 := MapSectors(size), Blank(size);
    MadeAtEnd(fs0, 0, 4 * ElemCnt(size), 2, k);
    if 2 + k <= size {
      var fs1 := InodeCreate(fs0, 0, 4 * ElemCnt(size), true, true).0;
      MadeAtEnd(fs1, 1, 320, 2 + k, 1);
    }
  }

  predicate TakenUpTo(m: seq<bool>, used: nat) { forall s :: 0 <= s < |m| ==> (m[s] <==> s < used) }

  /** inode_create on a disk of which exactly the first sectors are taken. */
  lemma MadeAtEnd(fs: Fs, x: nat, length: nat, used: nat, cnt: nat)
    requires x < used <= |fs.freeMap| && TakenUpTo(fs.freeMap, used) && length > 0 && cnt == (length + 511) / 512
    ensures var (fs', made) := InodeCreate(fs, x, length, true, true);
            && (made <==> used + cnt <= |fs.freeMap|)
            && (made ==>
                  && |fs'.freeMap| == |fs.freeMap| && TakenUpTo(fs'.freeMap, used + cnt)
                  && x in fs'.disk && fs'.disk[x] == DiskInode(used, length)
                  && (forall y :: y in fs.disk && y != x && y < used ==> y in fs'.disk && fs'.disk[y] == fs.disk[y])
                  && fs' == fs.(freeMap := fs'.freeMap, disk := fs'.disk))
  {
    PrefixRun(fs.freeMap, used, cnt);
  }

  /** Where exactly the first sectors are taken, the next are what is found. */
  lemma PrefixRun(m: seq<bool>, used: nat, cnt: nat)
    requires cnt >= 1 && used <= |m| && TakenUpTo(m, used)
    ensures FirstRun(m, 0, cnt, false) == if used + cnt <= |m| then Some(used) else None
  {
    var r := FirstRun(m, 0, cnt, false);
    if r.Some? { assert !m[r.value]; }
    if used + cnt <= |m| { assert AllAre(m, used, cnt, false); }
  }
}
