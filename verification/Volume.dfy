/** The file system as the code that updates its tables in place; each method is proved to do what
    FileSystem says, so that everything proved there about runs holds of it. */
module Volume {
  import opened Basics
  import opened Bitmap
  import opened FileSystem
  import InodeIO

  class Mounted {
    var freeMap: seq<bool>
    var disk: map<nat, DiskInode>
    var slots: seq<Slot>
    var openInodes: seq<nat>
    var inodes: map<nat, Inode>
    var files: map<nat, File>
    var made: nat
    ghost var panic: bool

    ghost function View(): Fs
      reads this
    {
      Fs(freeMap, disk, slots, openInodes, inodes, files, made, panic)
    }

    /** Between calls. */
    ghost predicate Valid()
      reads this
    {
      Inv(View(), multiset{})
    }

    // ----------------------------------------------------------------
    // free-map.c

    method MapAllocate(cnt: nat, saved: bool) returns (r: Option<nat>)
      modifies `freeMap
      ensures (View(), r) == Allocate(old(View()), cnt, saved)
    {
      r := FirstRun(freeMap, 0, cnt, false);
      if r.Some? {
        freeMap := SetRange(freeMap, r.value, cnt, true);
        if !saved {
          freeMap := SetRange(freeMap, r.value, cnt, false);
          r := None;
        }
      }
    }

    method MapRelease(start: nat, cnt: nat)
      modifies `freeMap, `panic
      ensures View() == Release(old(View()), start, cnt)
    {
      if start + cnt <= |freeMap| && AllAre(freeMap, start, cnt, true) {
        freeMap := SetRange(freeMap, start, cnt, false);
      } else {
        panic := true;
      }
    }

    // ----------------------------------------------------------------
    // inode.c

    method MakeInode(sector: nat, length: nat, memory: bool, saved: bool) returns (success: bool)
      modifies `freeMap, `disk
      ensures (View(), success) == InodeCreate(old(View()), sector, length, memory, saved)
    {
      success := false;
      if memory {
        var sectors := InodeIO.BytesToSectors(length);
        var start := MapAllocate(sectors, saved);
        if start.Some? {
          ghost var was := disk;
          disk := disk[sector := DiskInode(start.value, length)];
          for i := 0 to sectors
            invariant disk == map x | x in was.Keys + {sector} && !(start.value <= x < start.value + i)
                                      :: if x == sector then DiskInode(start.value, length) else was[x]
            modifies `disk
          {
            disk := disk - {start.value + i};
          }
          assert disk == Installed(was, sector, DiskInode(start.value, length));
          success := true;
        }
      }
    }

    method OpenInode(sector: nat, memory: bool) returns (r: Option<nat>)
      modifies `openInodes, `inodes, `made, `panic
      ensures (View(), r) == InodeOpen(old(View()), sector, memory)
    {
      var i := 0;
      while i < |openInodes|
        invariant 0 <= i <= |openInodes| && View() == old(View())
        invariant FindOpen(openInodes, inodes, sector) == FindOpen(openInodes[i..], inodes, sector)
      {
        var n := openInodes[i];
        if n in inodes && inodes[n].sector == sector {
          inodes := inodes[n := inodes[n].(openCnt := inodes[n].openCnt + 1)];
          return Some(n);
        }
        i := i + 1;
      }
      if !memory {
        return None;
      }
      if sector !in disk {
        panic := true;
        return None;
      }
      r := Some(made);
      openInodes := [made] + openInodes;
      inodes := inodes[made := Inode(sector, 1, false, 0, disk[sector])];
      made := made + 1;
    }

    method CloseInode(n: nat)
      requires n in inodes
      modifies `openInodes, `inodes, `freeMap, `panic
      ensures View() == InodeClose(old(View()), n)
    {
      var i := inodes[n].(openCnt := inodes[n].openCnt - 1);
      inodes := inodes[n := i];
      if i.openCnt == 0 {
        ghost var was := old(inodes);
        openInodes := Without(openInodes, n);
        inodes := inodes - {n};
        assert inodes == was - {n};
        if i.removed {
          MapRelease(i.sector, 1);
          MapRelease(i.data.start, Sectors(i.data));
        }
      }
    }

    // ----------------------------------------------------------------
    // directory.c

    method LookUp(name: string, limit: nat) returns (r: Option<nat>)
      ensures r == Lookup(slots, name, 0, limit)
    {
      var i := 0;
      while i < |slots| && i < limit
        invariant 0 <= i <= |slots| && Lookup(slots, name, 0, limit) == Lookup(slots, name, i, limit)
      {
        if slots[i].inUse && slots[i].name == name {
          return Some(i);
        }
        i := i + 1;
      }
      return None;
    }

    method AddEntry(dir: nat, name: string, sector: nat, u: Luck) returns (success: bool)
      modifies `slots
      ensures (View(), success) == DirAdd(old(View()), dir, name, sector, u)
    {
      if name == "" || |name| > NAME_MAX {
        return false;
      }
      var used := LookUp(name, u.lookupReads);
      if used.Some? {
        return false;
      }
      var i := 0;
      while i < |slots| && i < u.scanReads && slots[i].inUse
        invariant 0 <= i <= |slots| && FreeSlot(slots, 0, u.scanReads) == FreeSlot(slots, i, u.scanReads)
      {
        i := i + 1;
      }
      success := i < |slots| && u.slotWrite && dir in inodes && inodes[dir].denyWriteCnt == 0;
      if success {
        slots := slots[i := Slot(sector, name, true)];
      }
    }

    method RemoveEntry(dir: nat, name: string, u: Luck, ghost held: multiset<nat>) returns (success: bool)
      requires Inv(View(), held)
      modifies this
      ensures (View(), success) == DirRemove(old(View()), dir, name, u)
    {
      var found := LookUp(name, u.lookupReads);
      if found == None {
        return false;
      }
      var i := found.value;
      OpenGives(View(), i, u, held);
      var n := OpenInode(slots[i].sector, u.inodeMemory);
      if n == None {
        return false;
      }
      success := Erase(dir, i, n.value, u);
    }

    method Erase(dir: nat, i: nat, n: nat, u: Luck) returns (success: bool)
      requires i < |slots| && n in inodes
      modifies this
      ensures success == (u.slotWrite && Writable(old(View()), dir))
      ensures View() == if success then InodeClose(InodeRemove(old(View()).(slots :=
          old(slots)[i := old(slots)[i].(inUse := false)]), n), n)
                        else InodeClose(old(View()), n)
    {
      success := u.slotWrite && dir in inodes && inodes[dir].denyWriteCnt == 0;
      if success {
        slots := slots[i := slots[i].(inUse := false)];
        inodes := inodes[n := inodes[n].(removed := true)];
      }
      CloseInode(n);
    }

    // ----------------------------------------------------------------
    // filesys.c

    method OpenRoot(u: Luck) returns (r: Option<nat>)
      requires Valid()
      modifies this
      ensures (View(), r) == DirOpenRoot(old(View()), u)
      ensures r.Some? ==> Inv(View(), multiset{r.value}) && r.value in inodes
      ensures r == None ==> Valid()
    {
      ghost var fs := View();
      RootKeeps(fs, u, multiset{});
      OpenKeeps(fs, ROOT_DIR_SECTOR, u.rootMemory, multiset{});
      r := OpenInode(ROOT_DIR_SECTOR, u.rootMemory);
      if r.Some? && !u.dirMemory {
        CloseInode(r.value);
        r := None;
      }
      assert r.Some? ==> multiset{r.value} == multiset{} + multiset{r.value};
    }

    method CreateFile(name: string, size: nat, u: Luck) returns (success: bool)
      requires Valid()
      modifies this
      ensures Valid() && (View(), success) == Create(old(View()), name, size, u)
    {
      CreateKeeps(View(), name, size, u);
      var dir := OpenRoot(u);
      if dir == None {
        return false;
      }
      ghost var fs := View();
      CreateInKeeps(fs, dir.value, name, size, u, multiset{dir.value});
      success := CreateEntry(dir.value, name, size, u);
      CloseInode(dir.value);
    }

    method CreateEntry(dir: nat, name: string, size: nat, u: Luck) returns (success: bool)
      modifies this
      ensures (View(), success) == CreateIn(old(View()), dir, name, size, u)
    {
      success := false;
      var sector := MapAllocate(1, u.saved);
      if sector.Some? {
        success := FillEntry(sector.value, dir, name, size, u);
        if !success && sector.value != 0 {
          MapRelease(sector.value, 1);
        }
      }
    }

    method FillEntry(sector: nat, dir: nat, name: string, size: nat, u: Luck) returns (success: bool)
      modifies this
      ensures (View(), success) == CreateAt(old(View()), sector, dir, name, size, u)
    {
      success := MakeInode(sector, size, u.inodeMemory, u.dataSaved);
      if success {
        success := AddEntry(dir, name, sector, u);
      }
    }

    method OpenFile(name: string, u: Luck) returns (r: Option<nat>)
      requires Valid()
      modifies this
      ensures Valid() && (View(), r) == Open(old(View()), name, u)
    {
      OpenFileKeeps(View(), name, u);
      var dir := OpenRoot(u);
      if dir == None {
        return None;
      }
      var n := FindNamed(dir.value, name, u);
      r := HandleOn(n, u.fileMemory);
    }

    /** dir_lookup, and the dir_close that follows it. */
    method FindNamed(dir: nat, name: string, u: Luck) returns (n: Option<nat>)
      requires Inv(View(), multiset{dir}) && dir in inodes
      modifies this
      ensures View() == InodeClose(OpenIn(old(View()), name, u).0, dir) && n == OpenIn(old(View()), name, u).1
      ensures n.Some? ==> n.value in inodes
    {
      ghost var fs := View();
      OpenInKeeps(fs, name, u, multiset{dir});
      var found := LookUp(name, u.lookupReads);
      n := None;
      if found.Some? {
        NamedAre(slots, found.value);
        OpenKeeps(fs, slots[found.value].sector, u.inodeMemory, multiset{dir});
        n := OpenInode(slots[found.value].sector, u.inodeMemory);
      }
      if n.Some? {
        assert multiset{dir} + multiset{n.value} == multiset{n.value} + multiset{dir};
        CloseKeeps(View(), dir, multiset{n.value});
        assert n.value in multiset{n.value};
      }
      CloseInode(dir);
    }

    /** file_open. */
    method HandleOn(inode: Option<nat>, memory: bool) returns (r: Option<nat>)
      requires inode.Some? ==> inode.value in inodes
      modifies this
      ensures (View(), r) == FileOpen(old(View()), inode, memory)
    {
      if inode.Some? && memory {
        r := Some(made);
        files := files[made := File(inode.value, false)];
        made := made + 1;
      } else {
        if inode.Some? {
          CloseInode(inode.value);
        }
        r := None;
      }
    }

    method RemoveFile(name: string, u: Luck) returns (success: bool)
      requires Valid()
      modifies this
      ensures Valid() && (View(), success) == Remove(old(View()), name, u)
    {
      RemoveKeeps(View(), name, u);
      var dir := OpenRoot(u);
      if dir == None {
        return false;
      }
      ghost var fs := View();
      DirRemoveKeeps(fs, dir.value, name, u, multiset{dir.value});
      success := RemoveEntry(dir.value, name, u, multiset{dir.value});
      assert dir.value in multiset{dir.value};
      CloseInode(dir.value);
    }

    /** What the counts promise file_deny_write and file_allow_write. */
    ghost predicate Countable(f: nat)
      reads this
    {
      && !panic && f in files && files[f].inode in inodes
      && var i := inodes[files[f].inode];
         0 <= i.denyWriteCnt <= i.openCnt
             && (if files[f].denyWrite then i.denyWriteCnt > 0 else i.denyWriteCnt < i.openCnt)
    }

    method AllowFile(f: nat)
      requires Countable(f)
      modifies `files, `inodes
      ensures View() == FileAllowWrite(old(View()), f)
    {
      FlagIs(View(), f);
      var n := files[f].inode;
      if files[f].denyWrite {
        assert 0 < inodes[n].denyWriteCnt <= inodes[n].openCnt;
        files := files[f := files[f].(denyWrite := false)];
        inodes := inodes[n := inodes[n].(denyWriteCnt := inodes[n].denyWriteCnt - 1)];
      }
    }

    method DenyFile(f: nat)
      requires Countable(f)
      modifies `files, `inodes
      ensures View() == FileDenyWrite(old(View()), f)
    {
      FlagIs(View(), f);
      var n := files[f].inode;
      if !files[f].denyWrite {
        files := files[f := files[f].(denyWrite := true)];
        inodes := inodes[n := inodes[n].(denyWriteCnt := inodes[n].denyWriteCnt + 1)];
        assert inodes[n].denyWriteCnt <= inodes[n].openCnt;
      }
    }

    method CloseFile(f: nat)
      requires Valid() && f in files
      modifies this
      ensures Valid() && View() == FileClose(old(View()), f)
    {
      ghost var fs := View();
      FileCloseKeeps(fs, f, multiset{});
      DenialsFit(fs, multiset{}, f);
      AllowAndDrop(f);
      assert View() == FileClose(fs, f);
    }

    method AllowAndDrop(f: nat)
      requires Countable(f)
      modifies this
      ensures View() == FileClose(old(View()), f)
    {
      AllowFile(f);
      CloseInode(files[f].inode);
      files := files - {f};
    }
  }

  lemma OpenGives(fs: Fs, i: nat, u: Luck, held: multiset<nat>)
    requires Inv(fs, held) && i < |fs.slots| && fs.slots[i].inUse
    ensures var (fs', n) := InodeOpen(fs, fs.slots[i].sector, u.inodeMemory);
            fs'.slots == fs.slots && (n.Some? ==> n.value in fs'.inodes)
  {
    NamedAre(fs.slots, i);
    OpenKeeps(fs, fs.slots[i].sector, u.inodeMemory, held);
  }
}
