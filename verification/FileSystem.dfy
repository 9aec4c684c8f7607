/** The file system's shared state: the free map, the root directory, the inodes on disk, the table of
    open inodes and the file handles on them (inode.c, free-map.c, directory.c, file.c, filesys.c).

    Every call of malloc or calloc, every write of the free map file and every directory transfer may
    fail; how they turn out is an argument (Luck).  An ASSERT that would fail sets `panic`. */
module FileSystem {
  import opened Basics
  import opened Bitmap
  import InodeIO

  datatype DiskInode = DiskInode(start: nat, length: nat)
  datatype Slot = Slot(sector: nat, name: string, inUse: bool)
  datatype Inode = Inode(sector: nat, openCnt: int, removed: bool, denyWriteCnt: int, data: DiskInode)
  datatype File = File(inode: nat, denyWrite: bool)

  datatype Fs = Fs(
    freeMap: seq<bool>,
    disk: map<nat, DiskInode>,   // the sectors that hold an inode
    slots: seq<Slot>,            // the root directory's entries
    openInodes: seq<nat>,        // the list, front first
    inodes: map<nat, Inode>,     // struct inode, by address
    files: map<nat, File>,       // struct file, by address
    made: nat,                   // addresses below this have been handed out
    panic: bool)

  const FREE_MAP_SECTOR: nat := 0
  const ROOT_DIR_SECTOR: nat := 1
  const NAME_MAX: nat := 14

  function Sectors(d: DiskInode): nat { InodeIO.BytesToSectors(d.length) }

  /** Nothing that concerns open inodes and handles has changed, and the tables have their sizes. */
  ghost predicate SameOpen(fs: Fs, fs': Fs) {
    && fs'.inodes == fs.inodes && fs'.files == fs.files && fs'.made == fs.made
    && |fs'.freeMap| == |fs.freeMap| && |fs'.slots| == |fs.slots|
  }

  // ------------------------------------------------------------------
  // free-map.c

  /** free_map_allocate; `saved` says whether the map could be written to its file. */
  function Allocate(fs: Fs, cnt: nat, saved: bool): (r: (Fs, Option<nat>))
    ensures SameOpen(fs, r.0)
  {
    match FirstRun(fs.freeMap, 0, cnt, false)
    case None => (fs, None)
    case Some(i) =>
      var taken := SetRange(fs.freeMap, i, cnt, true);
      if saved then (fs.(freeMap := taken), Some(i))
      else (fs.(freeMap := SetRange(taken, i, cnt, false)), None)
  }

  function Release(fs: Fs, start: nat, cnt: nat): (r: Fs)
    ensures SameOpen(fs, r)
  {
    if start + cnt <= |fs.freeMap| && AllAre(fs.freeMap, start, cnt, true)
    then fs.(freeMap := SetRange(fs.freeMap, start, cnt, false))
    else fs.(panic := true)
  }

  // ------------------------------------------------------------------
  // inode.c

  function InodeCreate(fs: Fs, sector: nat, length: nat, memory: bool, saved: bool): (r: (Fs, bool))
    ensures SameOpen(fs, r.0)
  {
    var cnt := InodeIO.BytesToSectors(length);
    var (fs1, start) := Allocate(fs, cnt, saved);
    if !memory then (fs, false)
    else if start == None then (fs1, false)
    else (fs1.(disk := Installed(fs1.disk, sector, DiskInode(start.value, length))), true)
  }

  /** The disk after the inode and then its zeroed data sectors have been written. */
  function Installed(disk: map<nat, DiskInode>, sector: nat, d: DiskInode): map<nat, DiskInode> {
    map x | x in disk.Keys + {sector} && !(d.start <= x < d.start + Sectors(d)) :: if x == sector then d else disk[x]
  }

  function FindOpen(list: seq<nat>, inodes: map<nat, Inode>, sector: nat): Option<nat> {
    if list == [] then None
    else if list[0] in inodes && inodes[list[0]].sector == sector then Some(list[0])
    else FindOpen(list[1..], inodes, sector)
  }

  function InodeReopen(fs: Fs, n: nat): Fs {
    if n !in fs.inodes then fs.(panic := true)
    else fs.(inodes := fs.inodes[n := fs.inodes[n].(openCnt := fs.inodes[n].openCnt + 1)])
  }

  function InodeOpen(fs: Fs, sector: nat, memory: bool): (Fs, Option<nat>) {
    match FindOpen(fs.openInodes, fs.inodes, sector)
    case Some(n) => (InodeReopen(fs, n), Some(n))
    case None =>
      if !memory then (fs, None)
      else if sector !in fs.disk then (fs.(panic := true), None)
      else (fs.(openInodes := [fs.made] + fs.openInodes,
                inodes := fs.inodes[fs.made := Inode(sector, 1, false, 0, fs.disk[sector])],
                made := fs.made + 1), Some(fs.made))
  }

  function InodeClose(fs: Fs, n: nat): Fs {
    if n !in fs.inodes then fs.(panic := true)
    else
      var i := fs.inodes[n].(openCnt := fs.inodes[n].openCnt - 1);
      if i.openCnt != 0 then fs.(inodes := fs.inodes[n := i])
      else
        var fs1 := fs.(openInodes := Without(fs.openInodes, n), inodes := fs.inodes - {n});
        if i.removed then Release(Release(fs1, i.sector, 1), i.data.start, Sectors(i.data)) else fs1
  }

  function InodeRemove(fs: Fs, n: nat): Fs {
    if n !in fs.inodes then fs.(panic := true)
    else fs.(inodes := fs.inodes[n := fs.inodes[n].(removed := true)])
  }

  function InodeDenyWrite(fs: Fs, n: nat): Fs {
    if n !in fs.inodes then fs.(panic := true)
    else
      var i := fs.inodes[n].(denyWriteCnt := fs.inodes[n].denyWriteCnt + 1);
      fs.(inodes := fs.inodes[n := i], panic := fs.panic || i.denyWriteCnt > i.openCnt)
  }

  function InodeAllowWrite(fs: Fs, n: nat): Fs {
    if n !in fs.inodes then fs.(panic := true)
    else
      var i := fs.inodes[n];
      if 0 < i.denyWriteCnt <= i.openCnt then fs.(inodes := fs.inodes[n := i.(denyWriteCnt := i.denyWriteCnt - 1)])
      else fs.(panic := true)
  }

  // ------------------------------------------------------------------
  // file.c

  function FileOpen(fs: Fs, inode: Option<nat>, memory: bool): (Fs, Option<nat>) {
    if inode.Some? && memory then
      (fs.(files := fs.files[fs.made := File(inode.value, false)], made := fs.made + 1), Some(fs.made))
    else if inode.Some? then (InodeClose(fs, inode.value), None)
    else (fs, None)
  }

  function FileReopen(fs: Fs, f: nat, memory: bool): (Fs, Option<nat>)
    requires f in fs.files
  {
    FileOpen(InodeReopen(fs, fs.files[f].inode), Some(fs.files[f].inode), memory)
  }

  function FileDenyWrite(fs: Fs, f: nat): Fs
    requires f in fs.files
  {
    var file := fs.files[f];
    if file.denyWrite then fs
    else InodeDenyWrite(fs.(files := fs.files[f := file.(denyWrite := true)]), file.inode)
  }

  function FileAllowWrite(fs: Fs, f: nat): Fs
    requires f in fs.files
  {
    var file := fs.files[f];
    if !file.denyWrite then fs
    else InodeAllowWrite(fs.(files := fs.files[f := file.(denyWrite := false)]), file.inode)
  }

  function FileClose(fs: Fs, f: nat): Fs
    requires f in fs.files
  {
    var fs1 := InodeClose(FileAllowWrite(fs, f), fs.files[f].inode);
    fs1.(files := fs1.files - {f})
  }

  // ------------------------------------------------------------------
  // directory.c

  /** lookup: entries are read in order until one cannot be, at the end or, after `limit` of them,
      because a transfer comes back short. */
  function Lookup(slots: seq<Slot>, name: string, i: nat, limit: nat): (r: Option<nat>)
    requires i <= |slots|
    ensures r.Some? ==> r.value < |slots| && slots[r.value].inUse && slots[r.value].name == name
    decreases |slots| - i
  {
    if i == |slots| || i >= limit then None
    else if slots[i].inUse && slots[i].name == name then Some(i)
    else Lookup(slots, name, i + 1, limit)
  }

  /** The slot dir_add goes for: the first free one, or where its reads stop. */
  function FreeSlot(slots: seq<Slot>, i: nat, limit: nat): nat
    requires i <= |slots|
    decreases |slots| - i
  {
    if i == |slots| || i >= limit || !slots[i].inUse then i else FreeSlot(slots, i + 1, limit)
  }

  predicate Writable(fs: Fs, dir: nat) { dir in fs.inodes && fs.inodes[dir].denyWriteCnt == 0 }

  function DirAdd(fs: Fs, dir: nat, name: string, sector: nat, u: Luck): (r: (Fs, bool))
    ensures SameOpen(fs, r.0)
  {
    if name == "" || |name| > NAME_MAX || Lookup(fs.slots, name, 0, u.lookupReads).Some? then (fs, false)
    else
      var i := FreeSlot(fs.slots, 0, u.scanReads);
      if i < |fs.slots| && u.slotWrite && Writable(fs, dir)
      then (fs.(slots := fs.slots[i := Slot(sector, name, true)]), true) else (fs, false)
  }

  function DirRemove(fs: Fs, dir: nat, name: string, u: Luck): (Fs, bool) {
    match Lookup(fs.slots, name, 0, u.lookupReads)
    case None => (fs, false)
    case Some(i) =>
      var (fs1, n) := InodeOpen(fs, fs.slots[i].sector, u.inodeMemory);
      if n == None then (fs1, false)
      else if !(u.slotWrite && Writable(fs1, dir)) then (InodeClose(fs1, n.value), false)
      else
        var fs2 := fs1.(slots := fs1.slots[i := fs.slots[i].(inUse := false)]);
        (InodeClose(InodeRemove(fs2, n.value), n.value), true)
  }

  // ------------------------------------------------------------------
  // filesys.c

  /** How the allocations and transfers of one call turn out. */
  datatype Luck = Luck(rootMemory: bool, dirMemory: bool, inodeMemory: bool, fileMemory: bool,
                       saved: bool, dataSaved: bool, lookupReads: nat, scanReads: nat, slotWrite: bool)

  function DirOpenRoot(fs: Fs, u: Luck): (Fs, Option<nat>) {
    var (fs1, n) := InodeOpen(fs, ROOT_DIR_SECTOR, u.rootMemory);
    if n.Some? && !u.dirMemory then (InodeClose(fs1, n.value), None) else (fs1, n)
  }

  function CreateAt(fs: Fs, x: nat, dir: nat, name: string, size: nat, u: Luck): (r: (Fs, bool))
    ensures SameOpen(fs, r.0)
  {
    var (fs1, made) := InodeCreate(fs, x, size, u.inodeMemory, u.dataSaved);
    if made then DirAdd(fs1, dir, name, x, u) else (fs1, false)
  }

  function CreateIn(fs: Fs, dir: nat, name: string, size: nat, u: Luck): (r: (Fs, bool))
    ensures SameOpen(fs, r.0)
  {
    var (fs1, s) := Allocate(fs, 1, u.saved);
    if s == None then (fs1, false)
    else
      var (fs2, ok) := CreateAt(fs1, s.value, dir, name, size, u);
      if !ok && s.value != 0 then (Release(fs2, s.value, 1), false) else (fs2, ok)
  }

  function Create(fs: Fs, name: string, size: nat, u: Luck): (Fs, bool) {
    var (fs1, dir) := DirOpenRoot(fs, u);
    if dir == None then (fs1, false)
    else
      var (fs2, ok) := CreateIn(fs1, dir.value, name, size, u);
      (InodeClose(fs2, dir.value), ok)
  }

  function OpenIn(fs: Fs, name: string, u: Luck): (Fs, Option<nat>) {
    match Lookup(fs.slots, name, 0, u.lookupReads)
    case None => (fs, None)
    case Some(i) => InodeOpen(fs, fs.slots[i].sector, u.inodeMemory)
  }

  function Open(fs: Fs, name: string, u: Luck): (Fs, Option<nat>) {
    var (fs1, dir) := DirOpenRoot(fs, u);
    if dir == None then (fs1, None)
    else
      var (fs2, n) := OpenIn(fs1, name, u);
      FileOpen(InodeClose(fs2, dir.value), n, u.fileMemory)
  }

  function Remove(fs: Fs, name: string, u: Luck): (Fs, bool) {
    var (fs1, dir) := DirOpenRoot(fs, u);
    if dir == None then (fs1, false)
    else
      var (fs2, ok) := DirRemove(fs1, dir.value, name, u);
      (InodeClose(fs2, dir.value), ok)
  }

  // ------------------------------------------------------------------
  // Who owns which sectors

  /** The sectors of the file whose inode is in sector x. */
  predicate Owns(disk: map<nat, DiskInode>, x: nat, s: nat) {
    s == x || (x in disk && disk[x].start <= s < disk[x].start + Sectors(disk[x]))
  }

  ghost predicate Backed(freeMap: seq<bool>, disk: map<nat, DiskInode>, x: nat) {
    && x in disk && x < |freeMap| && disk[x].start + Sectors(disk[x]) <= |freeMap|
    && !(disk[x].start <= x < disk[x].start + Sectors(disk[x]))
    && forall s: nat {:trigger Owns(disk, x, s)} :: Owns(disk, x, s) ==> freeMap[s]
  }

  /** The files in `live` are on disk, their sectors are marked, and no two share a sector. */
  ghost predicate Space(freeMap: seq<bool>, disk: map<nat, DiskInode>, live: set<nat>) {
    && (forall x {:trigger Backed(freeMap, disk, x)} :: x in live ==> Backed(freeMap, disk, x))
    && (forall x: nat, y: nat, s: nat {:trigger Owns(disk, x, s), Owns(disk, y, s)} ::
          x in live && y in live && Owns(disk, x, s) && Owns(disk, y, s) ==> x == y)
  }

  /** No live file owns any of these sectors. */
  ghost predicate Spare(disk: map<nat, DiskInode>, live: set<nat>, start: nat, cnt: nat) {
    forall x: nat, s: nat {:trigger Owns(disk, x, s)} :: x in live && Owns(disk, x, s) ==> !(start <= s < start + cnt)
  }

  lemma SpaceMarks(m: seq<bool>, m': seq<bool>, disk: map<nat, DiskInode>, live: set<nat>)
    requires Space(m, disk, live) && |m'| == |m| && forall s :: 0 <= s < |m| && m[s] ==> m'[s]
    ensures Space(m', disk, live)
  {
    forall x | x in live ensures Backed(m', disk, x) {
      assert Backed(m, disk, x);
    }
  }

  lemma SpaceReleases(m: seq<bool>, disk: map<nat, DiskInode>, live: set<nat>, start: nat, cnt: nat)
    requires Space(m, disk, live) && start + cnt <= |m| && Spare(disk, live, start, cnt)
    ensures Space(SetRange(m, start, cnt, false), disk, live)
  {
    forall x | x in live ensures Backed(SetRange(m, start, cnt, false), disk, x) {
      assert Backed(m, disk, x);
    }
  }

  lemma SpaceShrinks(m: seq<bool>, disk: map<nat, DiskInode>, live: set<nat>, live': set<nat>)
    requires Space(m, disk, live) && live' <= live
    ensures Space(m, disk, live')
  {
  }

  /** Free sectors belong to no live file. */
  lemma FreeIsSpare(m: seq<bool>, disk: map<nat, DiskInode>, live: set<nat>, start: nat, cnt: nat)
    requires Space(m, disk, live) && start + cnt <= |m| && AllAre(m, start, cnt, false)
    ensures Spare(disk, live, start, cnt)
  {
    forall x: nat, s: nat | x in live && Owns(disk, x, s) ensures !(start <= s < start + cnt) {
      assert Backed(m, disk, x);
    }
  }

  /** Rewriting sectors that no live file owns changes nothing for the live files. */
  lemma SpaceRewrites(m: seq<bool>, disk: map<nat, DiskInode>, disk': map<nat, DiskInode>, live: set<nat>)
    requires Space(m, disk, live) && forall x :: x in live ==> x in disk && x in disk' && disk'[x] == disk[x]
    ensures Space(m, disk', live)
    ensures forall x: nat, s: nat :: x in live ==> Owns(disk', x, s) == Owns(disk, x, s)
  {
    forall x | x in live ensures Backed(m, disk', x) {
      assert Backed(m, disk, x);
      forall s: nat | Owns(disk', x, s) ensures m[s] { assert Owns(disk, x, s); }
    }
    forall x: nat, y: nat, s: nat | x in live && y in live && Owns(disk', x, s) && Owns(disk', y, s) ensures x == y {
      assert Owns(disk, x, s) && Owns(disk, y, s);
    }
  }

  lemma SpaceGrows(m: seq<bool>, disk: map<nat, DiskInode>, live: set<nat>, x: nat)
    requires Space(m, disk, live) && Backed(m, disk, x)
    requires Spare(disk, live, x, 1) && Spare(disk, live, disk[x].start, Sectors(disk[x]))
    ensures Space(m, disk, live + {x})
  {
    forall a: nat, b: nat, s: nat | a in live + {x} && b in live + {x} && Owns(disk, a, s) && Owns(disk, b, s)
      ensures a == b
    {
    }
  }

  // ------------------------------------------------------------------
  // The invariant

  ghost function NamedSet(slots: seq<Slot>): set<nat> {
    set i | 0 <= i < |slots| && slots[i].inUse :: slots[i].sector
  }

  ghost function OpenSet(inodes: map<nat, Inode>): set<nat> { set n | n in inodes :: inodes[n].sector }

  /** The inode sectors of all files that are named or still open, with the two system files. */
  ghost function LiveSet(fs: Fs): set<nat> {
    NamedSet(fs.slots) + OpenSet(fs.inodes) + {FREE_MAP_SECTOR, ROOT_DIR_SECTOR}
  }

  ghost function HandlesOn(files: map<nat, File>, n: nat): set<nat> { set f | f in files && files[f].inode == n }

  ghost function DenyingOn(files: map<nat, File>, n: nat): set<nat> {
    set f | f in files && files[f].inode == n && files[f].denyWrite
  }

  /** One open inode; `held` are the references of the call in progress. */
  ghost predicate InodeOk(fs: Fs, held: multiset<nat>, n: nat)
    requires n in fs.inodes
  {
    var i := fs.inodes[n];
    && n < fs.made && i.sector in fs.disk && i.data == fs.disk[i.sector]
    && i.openCnt == |HandlesOn(fs.files, n)| + held[n] && i.openCnt >= 1
    && i.denyWriteCnt == |DenyingOn(fs.files, n)|
    && (i.removed ==> i.sector !in NamedSet(fs.slots) && i.sector > 1)
  }

  ghost predicate FileOk(fs: Fs, f: nat)
    requires f in fs.files
  {
    f < fs.made && fs.files[f].inode in fs.inodes
  }

  ghost predicate NamesOk(slots: seq<Slot>) {
    && (forall i :: 0 <= i < |slots| && slots[i].inUse ==> slots[i].sector > 1)
    && (forall i, j :: 0 <= i < j < |slots| && slots[i].inUse && slots[j].inUse ==> slots[i].sector != slots[j].sector)
  }

  /** The list holds every open inode once, and no sector twice. */
  ghost predicate ListOk(list: seq<nat>, inodes: map<nat, Inode>) {
    && (forall i :: 0 <= i < |list| ==> list[i] in inodes)
    && (forall n :: n in inodes ==> n in list)
    && NoDup(list)
    && (forall n, n' :: n in inodes && n' in inodes && inodes[n].sector == inodes[n'].sector ==> n == n')
  }

  ghost predicate Tables(fs: Fs, held: multiset<nat>) {
    && (forall n {:trigger InodeOk(fs, held, n)} :: n in fs.inodes ==> InodeOk(fs, held, n))
    && (forall f {:trigger FileOk(fs, f)} :: f in fs.files ==> FileOk(fs, f))
    && (forall n :: n in held ==> n in fs.inodes)
    && NamesOk(fs.slots) && ListOk(fs.openInodes, fs.inodes)
  }

  ghost predicate Inv(fs: Fs, held: multiset<nat>) {
    !fs.panic && Space(fs.freeMap, fs.disk, LiveSet(fs)) && Tables(fs, held)
  }

  // ------------------------------------------------------------------
  // The free map

  lemma TablesFrame(fs: Fs, fs': Fs, held: multiset<nat>)
    requires Tables(fs, held) && fs'.inodes == fs.inodes && fs'.files == fs.files && fs'.slots == fs.slots
    requires fs'.openInodes == fs.openInodes && fs'.made == fs.made
    requires forall n :: n in fs.inodes ==>
               var x := fs.inodes[n].sector; x in fs.disk ==> x in fs'.disk && fs'.disk[x] == fs.disk[x]
    ensures Tables(fs', held)
  {
    forall n | n in fs'.inodes ensures InodeOk(fs', held, n) {
      assert InodeOk(fs, held, n);
    }
    forall f | f in fs'.files ensures FileOk(fs', f) {
      assert FileOk(fs, f);
    }
  }

  /** Sectors handed out were free: they belong to no file that is named or still open. */
  lemma AllocateKeeps(fs: Fs, cnt: nat, saved: bool, held: multiset<nat>)
    requires Inv(fs, held)
    ensures var (fs', r) := Allocate(fs, cnt, saved);
            && Inv(fs', held) && fs' == fs.(freeMap := fs'.freeMap) && |fs'.freeMap| == |fs.freeMap|
            && (forall s :: 0 <= s < |fs.freeMap| && fs.freeMap[s] ==> fs'.freeMap[s])
            && (r == None ==> fs' == fs)
            && (r.Some? ==>
                  && r.value + cnt <= |fs.freeMap| && AllAre(fs.freeMap, r.value, cnt, false)
                  && AllAre(fs'.freeMap, r.value, cnt, true) && Spare(fs.disk, LiveSet(fs), r.value, cnt))
  {
    var (fs', r) := Allocate(fs, cnt, saved);
    var found := FirstRun(fs.freeMap, 0, cnt, false);
    if found.Some? {
      FlipBack(fs.freeMap, found.value, cnt, false);
      FreeIsSpare(fs.freeMap, fs.disk, LiveSet(fs), found.value, cnt);
      SpaceMarks(fs.freeMap, SetRange(fs.freeMap, found.value, cnt, true), fs.disk, LiveSet(fs));
    }
    TablesFrame(fs, fs', held);
  }

  lemma ReleaseKeeps(fs: Fs, start: nat, cnt: nat, held: multiset<nat>)
    requires Inv(fs, held) && start + cnt <= |fs.freeMap| && AllAre(fs.freeMap, start, cnt, true)
    requires Spare(fs.disk, LiveSet(fs), start, cnt)
    ensures Inv(Release(fs, start, cnt), held)
    ensures Release(fs, start, cnt) == fs.(freeMap := SetRange(fs.freeMap, start, cnt, false))
  {
    SpaceReleases(fs.freeMap, fs.disk, LiveSet(fs), start, cnt);
    TablesFrame(fs, Release(fs, start, cnt), held);
  }

  // ------------------------------------------------------------------
  // Inodes

  /** A new inode in a marked sector that is nobody's, with its data, is nobody's yet. */
  ghost predicate Pending(fs: Fs, x: nat) {
    && x > 1 && x < |fs.freeMap| && fs.freeMap[x] && Spare(fs.disk, LiveSet(fs), x, 1)
  }

  lemma InstalledKeeps(m: seq<bool>, disk: map<nat, DiskInode>, live: set<nat>, x: nat, d: DiskInode)
    requires Space(m, disk, live) && x < |m| && m[x] && !(d.start <= x < d.start + Sectors(d))
    requires d.start + Sectors(d) <= |m| && AllAre(m, d.start, Sectors(d), true)
    requires Spare(disk, live, x, 1) && Spare(disk, live, d.start, Sectors(d))
    ensures var disk' := Installed(disk, x, d);
            && Space(m, disk', live) && Backed(m, disk', x) && disk'[x] == d
            && Spare(disk', live, x, 1) && Spare(disk', live, d.start, Sectors(d))
            && forall y :: y in live ==> y in disk && y in disk' && disk'[y] == disk[y]
  {
    var disk' := Installed(disk, x, d);
    forall y | y in live ensures y in disk && y in disk' && disk'[y] == disk[y] {
      assert Backed(m, disk, y) && Owns(disk, y, y);
    }
    SpaceRewrites(m, disk, disk', live);
  }

  lemma InodeCreateKeeps(fs: Fs, x: nat, length: nat, memory: bool, saved: bool, held: multiset<nat>)
    requires Inv(fs, held) && Pending(fs, x)
    ensures var (fs', made) := InodeCreate(fs, x, length, memory, saved);
            && Inv(fs', held) && Pending(fs', x)
            && fs' == fs.(freeMap := fs'.freeMap, disk := fs'.disk)
            && (made ==> Backed(fs'.freeMap, fs'.disk, x)
                         && Spare(fs'.disk, LiveSet(fs), fs'.disk[x].start, Sectors(fs'.disk[x])))
  {
    var (fs', made) := InodeCreate(fs, x, length, memory, saved);
    var cnt := InodeIO.BytesToSectors(length);
    AllocateKeeps(fs, cnt, saved, held);
    var (fs1, r) := Allocate(fs, cnt, saved);
    if made {
      InstalledKeeps(fs1.freeMap, fs.disk, LiveSet(fs), x, DiskInode(r.value, length));
      OpenAreLive(fs);
      TablesFrame(fs1, fs', held);
    }
  }

  lemma OpenAreLive(fs: Fs)
    ensures forall n :: n in fs.inodes ==> fs.inodes[n].sector in LiveSet(fs)
  {
  }

  /** The list walk finds the one open inode of a sector, if there is one. */
  lemma {:induction false} FindOpenFinds(list: seq<nat>, inodes: map<nat, Inode>, sector: nat)
    ensures var r := FindOpen(list, inodes, sector);
            if r.Some? then r.value in list && r.value in inodes && inodes[r.value].sector == sector
            else forall n :: n in list && n in inodes ==> inodes[n].sector != sector
  {
    if list != [] { FindOpenFinds(list[1..], inodes, sector); }
  }

  /** Changing the counts of one open inode. */
  lemma CountsKeep(fs: Fs, n: nat, i: Inode, held: multiset<nat>, held': multiset<nat>)
    requires Inv(fs, held) && n in fs.inodes && i.sector == fs.inodes[n].sector
    requires forall m :: m != n ==> held'[m] == held[m]
    requires InodeOk(fs.(inodes := fs.inodes[n := i]), held', n)
    ensures Inv(fs.(inodes := fs.inodes[n := i]), held')
    ensures LiveSet(fs.(inodes := fs.inodes[n := i])) == LiveSet(fs)
  {
    var fs' := fs.(inodes := fs.inodes[n := i]);
    SameSectors(fs.openInodes, fs.inodes, fs'.inodes);
    forall m | m in fs'.inodes ensures InodeOk(fs', held', m) {
      if m != n { assert InodeOk(fs, held, m); }
    }
    forall f | f in fs'.files ensures FileOk(fs', f) {
      assert FileOk(fs, f);
    }
    forall m | m in held' ensures m in fs'.inodes {
      assert m == n || m in held;
    }
  }

  lemma ReopenKeeps(fs: Fs, n: nat, held: multiset<nat>)
    requires Inv(fs, held) && n in fs.inodes
    ensures Inv(InodeReopen(fs, n), held + multiset{n})
    ensures LiveSet(InodeReopen(fs, n)) == LiveSet(fs)
    ensures InodeReopen(fs, n) == fs.(inodes := InodeReopen(fs, n).inodes)
    ensures InodeReopen(fs, n).inodes.Keys == fs.inodes.Keys
  {
    assert InodeOk(fs, held, n);
    CountsKeep(fs, n, InodeReopen(fs, n).inodes[n], held, held + multiset{n});
  }

  lemma SameSectors(list: seq<nat>, a: map<nat, Inode>, b: map<nat, Inode>)
    requires ListOk(list, a) && a.Keys == b.Keys && forall n :: n in a ==> a[n].sector == b[n].sector
    ensures ListOk(list, b) && OpenSet(a) == OpenSet(b)
  {
    forall x ensures x in OpenSet(a) <==> x in OpenSet(b) {
      if x in OpenSet(a) {
        var n :| n in a && a[n].sector == x;
        assert n in b && b[n].sector == x;
      }
      if x in OpenSet(b) {
        var n :| n in b && b[n].sector == x;
        assert n in a && a[n].sector == x;
      }
    }
  }

  lemma OpenKeeps(fs: Fs, sector: nat, memory: bool, held: multiset<nat>)
    requires Inv(fs, held) && sector in LiveSet(fs)
    ensures var (fs', n) := InodeOpen(fs, sector, memory);
            && fs' == fs.(inodes := fs'.inodes, openInodes := fs'.openInodes, made := fs'.made)
            && LiveSet(fs') == LiveSet(fs) && (forall m :: m in fs.inodes ==> m in fs'.inodes)
            && (if n == None then fs' == fs
                else
                  && n.value in fs'.inodes && fs'.inodes[n.value].sector == sector
                  && Inv(fs', held + multiset{n.value}))
  {
    FindOpenFinds(fs.openInodes, fs.inodes, sector);
    var found := FindOpen(fs.openInodes, fs.inodes, sector);
    assert Backed(fs.freeMap, fs.disk, sector);
    if found.Some? {
      ReopenKeeps(fs, found.value, held);
    } else if memory {
      NewOpenKeeps(fs, sector, held);
    }
  }

  lemma NewOpenKeeps(fs: Fs, sector: nat, held: multiset<nat>)
    requires Inv(fs, held) && sector in LiveSet(fs) && sector in fs.disk
    requires FindOpen(fs.openInodes, fs.inodes, sector) == None
    ensures var fs' := InodeOpen(fs, sector, true).0;
            LiveSet(fs') == LiveSet(fs) && Inv(fs', held + multiset{fs.made})
  {
    var fs', n := InodeOpen(fs, sector, true).0, fs.made;
    FindOpenFinds(fs.openInodes, fs.inodes, sector);
    MadeIsNew(fs, held);
    NewOpenSet(fs.inodes, n, fs'.inodes[n]);
    NewListOk(fs.openInodes, fs.inodes, n, fs'.inodes[n]);
    forall m | m in fs'.inodes ensures InodeOk(fs', held + multiset{n}, m) {
      if m != n { assert InodeOk(fs, held, m); }
    }
    forall f | f in fs'.files ensures FileOk(fs', f) {
      assert FileOk(fs, f);
    }
  }

  /** The next address to be handed out is not in use. */
  lemma MadeIsNew(fs: Fs, held: multiset<nat>)
    requires Tables(fs, held)
    ensures fs.made !in fs.inodes && fs.made !in fs.files && held[fs.made] == 0
    ensures HandlesOn(fs.files, fs.made) == {} && DenyingOn(fs.files, fs.made) == {}
  {
    forall m | m in fs.inodes ensures m != fs.made {
      assert InodeOk(fs, held, m);
    }
    forall f | f in fs.files ensures f != fs.made && fs.files[f].inode != fs.made {
      assert FileOk(fs, f);
    }
  }

  lemma NewOpenSet(inodes: map<nat, Inode>, n: nat, i: Inode)
    requires n !in inodes
    ensures OpenSet(inodes[n := i]) == OpenSet(inodes) + {i.sector}
  {
    var inodes' := inodes[n := i];
    forall x ensures x in OpenSet(inodes') <==> x in OpenSet(inodes) || x == i.sector {
      if x in OpenSet(inodes) {
        var m :| m in inodes && inodes[m].sector == x;
        assert m in inodes' && inodes'[m].sector == x;
      }
      if x == i.sector { assert n in inodes' && inodes'[n].sector == x; }
    }
  }

  lemma NewListOk(list: seq<nat>, inodes: map<nat, Inode>, n: nat, i: Inode)
    requires ListOk(list, inodes) && n !in inodes && forall m :: m in inodes ==> inodes[m].sector != i.sector
    ensures ListOk([n] + list, inodes[n := i])
  {
    var l := [n] + list;
    assert forall k :: 0 < k < |l| ==> l[k] == list[k - 1];
    forall m | m in inodes[n := i] ensures m in l {
      if m == n { assert l[0] == n; } else { assert m in list; }
    }
  }

  // ------------------------------------------------------------------
  // Closing

  lemma CloseKeeps(fs: Fs, n: nat, held: multiset<nat>)
    requires Inv(fs, held + multiset{n})
    ensures Inv(InodeClose(fs, n), held)
    ensures InodeClose(fs, n) == fs.(freeMap := InodeClose(fs, n).freeMap, inodes := InodeClose(fs, n).inodes,
                                     openInodes := InodeClose(fs, n).openInodes)
  {
    assert n in held + multiset{n};
    assert InodeOk(fs, held + multiset{n}, n);
    if fs.inodes[n].openCnt > 1 { StillOpen(fs, n, held); } else { LastClose(fs, n, held); }
  }

  lemma CloseOnly(fs: Fs, n: nat)
    requires Inv(fs, multiset{n})
    ensures Inv(InodeClose(fs, n), multiset{})
    ensures InodeClose(fs, n).disk == fs.disk && InodeClose(fs, n).slots == fs.slots
  {
    assert multiset{n} == multiset{} + multiset{n};
    CloseKeeps(fs, n, multiset{});
  }

  lemma StillOpen(fs: Fs, n: nat, held: multiset<nat>)
    requires Inv(fs, held + multiset{n}) && n in fs.inodes && fs.inodes[n].openCnt > 1
    ensures Inv(InodeClose(fs, n), held)
  {
    assert InodeOk(fs, held + multiset{n}, n);
    CountsKeep(fs, n, InodeClose(fs, n).inodes[n], held + multiset{n}, held);
  }

  function Dropped(fs: Fs, n: nat): Fs {
    fs.(openInodes := Without(fs.openInodes, n), inodes := fs.inodes - {n})
  }

  /** The last close: nobody refers to the inode any more, so what it owned is nobody's. */
  lemma LastClose(fs: Fs, n: nat, held: multiset<nat>)
    requires Inv(fs, held + multiset{n}) && n in fs.inodes && fs.inodes[n].openCnt == 1
    ensures Inv(InodeClose(fs, n), held)
    ensures InodeClose(fs, n).files == fs.files && InodeClose(fs, n).slots == fs.slots
    ensures InodeClose(fs, n).made == fs.made && InodeClose(fs, n).disk == fs.disk
  {
    var i, fs1 := fs.inodes[n], Dropped(fs, n);
    DroppedKeeps(fs, n, held);
    if i.removed {
      assert InodeOk(fs, held + multiset{n}, n);
      DroppedIsSpare(fs, n, held + multiset{n});
      assert Backed(fs.freeMap, fs.disk, i.sector) by { OpenAreLive(fs); }
      OwnRangesMarked(fs.freeMap, fs.disk, i.sector);
      ReleaseKeeps(fs1, i.sector, 1, held);
      ReleaseKeeps(Release(fs1, i.sector, 1), i.data.start, Sectors(i.data), held);
    }
  }

  lemma OwnRangesMarked(m: seq<bool>, disk: map<nat, DiskInode>, x: nat)
    requires Backed(m, disk, x)
    ensures AllAre(m, x, 1, true)
    ensures AllAre(SetRange(m, x, 1, false), disk[x].start, Sectors(disk[x]), true)
  {
    assert Owns(disk, x, x);
    forall s: nat | disk[x].start <= s < disk[x].start + Sectors(disk[x]) ensures m[s] && s != x {
      assert Owns(disk, x, s);
    }
  }

  lemma DroppedKeeps(fs: Fs, n: nat, held: multiset<nat>)
    requires Inv(fs, held + multiset{n}) && n in fs.inodes && fs.inodes[n].openCnt == 1
    ensures Inv(Dropped(fs, n), held)
  {
    var fs1 := Dropped(fs, n);
    assert |HandlesOn(fs.files, n)| == 0 && held[n] == 0 by { assert InodeOk(fs, held + multiset{n}, n); }
    DroppedLists(fs, n);
    SpaceShrinks(fs.freeMap, fs.disk, LiveSet(fs), LiveSet(fs1));
    forall m | m in fs1.inodes ensures InodeOk(fs1, held, m) {
      assert InodeOk(fs, held + multiset{n}, m);
    }
    forall f | f in fs1.files ensures FileOk(fs1, f) {
      assert FileOk(fs, f);
      assert f !in HandlesOn(fs.files, n);
    }
    forall m | m in held ensures m in fs1.inodes {
      assert m in held + multiset{n};
    }
  }

  lemma DroppedLists(fs: Fs, n: nat)
    requires ListOk(fs.openInodes, fs.inodes) && n in fs.inodes
    ensures ListOk(Dropped(fs, n).openInodes, Dropped(fs, n).inodes) && LiveSet(Dropped(fs, n)) <= LiveSet(fs)
  {
    WithoutIs(fs.openInodes, n);
    var l := Without(fs.openInodes, n);
    assert forall i :: 0 <= i < |l| ==> l[i] in l;
  }

  lemma DroppedIsSpare(fs: Fs, n: nat, held: multiset<nat>)
    requires Inv(fs, held) && n in fs.inodes && fs.inodes[n].removed
    ensures var i, live := fs.inodes[n], LiveSet(Dropped(fs, n));
            Spare(fs.disk, live, i.sector, 1) && Spare(fs.disk, live, i.data.start, Sectors(i.data))
  {
    var i, live := fs.inodes[n], LiveSet(Dropped(fs, n));
    assert InodeOk(fs, held, n);
    assert i.sector !in live && i.sector in LiveSet(fs);
    forall x: nat, s: nat | x in live && Owns(fs.disk, x, s)
      ensures s != i.sector && !(i.data.start <= s < i.data.start + Sectors(i.data))
    {
      assert !Owns(fs.disk, i.sector, s);
    }
  }

  // ------------------------------------------------------------------
  // Handles

  /** A handle takes over the reference that the call in progress held. */
  lemma FileOpenKeeps(fs: Fs, n: nat, memory: bool, held: multiset<nat>)
    requires Inv(fs, held + multiset{n})
    ensures Inv(FileOpen(fs, Some(n), memory).0, held)
  {
    if memory { NewHandleKeeps(fs, n, held); } else { CloseKeeps(fs, n, held); }
  }

  lemma NewHandleKeeps(fs: Fs, n: nat, held: multiset<nat>)
    requires Inv(fs, held + multiset{n})
    ensures Inv(FileOpen(fs, Some(n), true).0, held)
  {
    var fs', f := FileOpen(fs, Some(n), true).0, fs.made;
    assert n in held + multiset{n};
    MadeIsNew(fs, held + multiset{n});
    forall m | m in fs'.inodes ensures InodeOk(fs', held, m) {
      assert InodeOk(fs, held + multiset{n}, m);
      HandleAdded(fs.files, f, n, m);
    }
    forall g | g in fs'.files ensures FileOk(fs', g) {
      if g != f { assert FileOk(fs, g); }
    }
    forall m | m in held ensures m in fs'.inodes {
      assert m in held + multiset{n};
    }
  }

  lemma HandleAdded(files: map<nat, File>, f: nat, n: nat, m: nat)
    requires f !in files
    ensures var files' := files[f := File(n, false)];
            && |HandlesOn(files', m)| == |HandlesOn(files, m)| + (if m == n then 1 else 0)
            && DenyingOn(files', m) == DenyingOn(files, m)
  {
    var files' := files[f := File(n, false)];
    assert HandlesOn(files', m) == if m == n then HandlesOn(files, m) + {f} else HandlesOn(files, m);
  }

  /** Dropping a handle that does not deny writes leaves its reference with the call in progress. */
  lemma DropHandleKeeps(fs: Fs, f: nat, held: multiset<nat>)
    requires Inv(fs, held) && f in fs.files && !fs.files[f].denyWrite
    ensures Inv(fs.(files := fs.files - {f}), held + multiset{fs.files[f].inode})
  {
    var fs', n := fs.(files := fs.files - {f}), fs.files[f].inode;
    assert FileOk(fs, f);
    forall m | m in fs'.inodes ensures InodeOk(fs', held + multiset{n}, m) {
      assert InodeOk(fs, held, m);
      HandleDropped(fs.files, f, m);
    }
    forall g | g in fs'.files ensures FileOk(fs', g) {
      assert FileOk(fs, g);
    }
  }

  lemma HandleDropped(files: map<nat, File>, f: nat, m: nat)
    requires f in files && !files[f].denyWrite
    ensures |HandlesOn(files - {f}, m)| == |HandlesOn(files, m)| - (if m == files[f].inode then 1 else 0)
    ensures DenyingOn(files - {f}, m) == DenyingOn(files, m)
  {
    assert HandlesOn(files - {f}, m) == HandlesOn(files, m) - {f};
  }

  /** At most one denial per handle, so the count never exceeds the openers. */
  lemma DenialsFit(fs: Fs, held: multiset<nat>, f: nat)
    requires Inv(fs, held) && f in fs.files
    ensures fs.files[f].inode in fs.inodes
    ensures var i := fs.inodes[fs.files[f].inode];
            0 <= i.denyWriteCnt <= i.openCnt
                && (if fs.files[f].denyWrite then i.denyWriteCnt > 0 else i.denyWriteCnt < i.openCnt)
  {
    assert FileOk(fs, f);
    var n := fs.files[f].inode;
    assert InodeOk(fs, held, n);
    var all, some := HandlesOn(fs.files, n), DenyingOn(fs.files, n);
    assert f in all;
    SubsetSize(some, all);
    if f in some { SubsetSize({f}, some); } else { SubsetSize(some, all - {f}); }
  }

  lemma FlagKeeps(fs: Fs, f: nat, deny: bool, held: multiset<nat>)
    requires Inv(fs, held) && f in fs.files && fs.files[f].denyWrite == !deny && fs.files[f].inode in fs.inodes
    ensures Inv(Flagged(fs, f, deny), held)
  {
    var fs' := Flagged(fs, f, deny);
    SameSectors(fs.openInodes, fs.inodes, fs'.inodes);
    forall m | m in fs'.inodes ensures InodeOk(fs', held, m) {
      FlagInode(fs, f, deny, held, m);
    }
    forall g | g in fs'.files ensures FileOk(fs', g) {
      assert FileOk(fs, g);
    }
  }

  function Flagged(fs: Fs, f: nat, deny: bool): Fs
    requires f in fs.files && fs.files[f].inode in fs.inodes
  {
    var n := fs.files[f].inode;
    var i := fs.inodes[n];
    fs.(files := fs.files[f := fs.files[f].(denyWrite := deny)],
        inodes := fs.inodes[n := i.(denyWriteCnt := i.denyWriteCnt + if deny then 1 else -1)])
  }

  lemma FlagInode(fs: Fs, f: nat, deny: bool, held: multiset<nat>, m: nat)
    requires f in fs.files && fs.files[f].denyWrite == !deny && fs.files[f].inode in fs.inodes
    requires m in fs.inodes && InodeOk(fs, held, m)
    ensures InodeOk(Flagged(fs, f, deny), held, m)
  {
    var n, files := fs.files[f].inode, Flagged(fs, f, deny).files;
    var was := DenyingOn(fs.files, m);
    assert HandlesOn(files, m) == HandlesOn(fs.files, m);
    assert DenyingOn(files, m) == if m != n then was else if deny then was + {f} else was - {f};
  }

  lemma FlagIs(fs: Fs, f: nat)
    requires f in fs.files && fs.files[f].inode in fs.inodes && !fs.panic
    requires var i := fs.inodes[fs.files[f].inode];
             0 <= i.denyWriteCnt <= i.openCnt
                 && (if fs.files[f].denyWrite then i.denyWriteCnt > 0 else i.denyWriteCnt < i.openCnt)
    ensures fs.files[f].denyWrite ==> FileAllowWrite(fs, f) == Flagged(fs, f, false)
    ensures !fs.files[f].denyWrite ==> FileDenyWrite(fs, f) == Flagged(fs, f, true)
  {
  }

  lemma FileDenyKeeps(fs: Fs, f: nat, held: multiset<nat>)
    requires Inv(fs, held) && f in fs.files
    ensures Inv(FileDenyWrite(fs, f), held)
  {
    DenialsFit(fs, held, f);
    FlagIs(fs, f);
    if !fs.files[f].denyWrite { FlagKeeps(fs, f, true, held); }
  }

  lemma FileAllowKeeps(fs: Fs, f: nat, held: multiset<nat>)
    requires Inv(fs, held) && f in fs.files
    ensures var fs' := FileAllowWrite(fs, f);
            Inv(fs', held) && f in fs'.files && fs'.files[f] == fs.files[f].(denyWrite := false)
  {
    DenialsFit(fs, held, f);
    FlagIs(fs, f);
    if fs.files[f].denyWrite { FlagKeeps(fs, f, false, held); }
  }

  lemma FileCloseKeeps(fs: Fs, f: nat, held: multiset<nat>)
    requires Inv(fs, held) && f in fs.files
    ensures Inv(FileClose(fs, f), held)
  {
    FileAllowKeeps(fs, f, held);
    DropKeeps(FileAllowWrite(fs, f), f, held);
  }

  lemma DropKeeps(fs: Fs, f: nat, held: multiset<nat>)
    requires Inv(fs, held) && f in fs.files && !fs.files[f].denyWrite
    ensures var fs' := InodeClose(fs, fs.files[f].inode); Inv(fs'.(files := fs'.files - {f}), held)
  {
    var n, rest := fs.files[f].inode, fs.files - {f};
    DropHandleKeeps(fs, f, held);
    CloseKeeps(fs.(files := rest), n, held);
    CloseIgnoresFiles(fs, n, rest);
    CloseEvolves(fs, n);
  }

  lemma CloseIgnoresFiles(fs: Fs, n: nat, files: map<nat, File>)
    ensures InodeClose(fs.(files := files), n) == InodeClose(fs, n).(files := files)
  {
    if n in fs.inodes && fs.inodes[n].removed {
      var i, fs1 := fs.inodes[n], Dropped(fs, n);
      ReleaseIgnoresFiles(fs1, i.sector, 1, files);
      ReleaseIgnoresFiles(Release(fs1, i.sector, 1), i.data.start, Sectors(i.data), files);
    }
  }

  lemma ReleaseIgnoresFiles(fs: Fs, start: nat, cnt: nat, files: map<nat, File>)
    ensures Release(fs.(files := files), start, cnt) == Release(fs, start, cnt).(files := files)
  {
  }

  // ------------------------------------------------------------------
  // The directory

  lemma NamedAre(slots: seq<Slot>, i: nat)
    requires i < |slots| && slots[i].inUse
    ensures slots[i].sector in NamedSet(slots)
  {
  }

  /** Writing one slot adds at most its own sector to the named ones. */
  lemma SlotWritten(slots: seq<Slot>, i: nat, s: Slot)
    requires NamesOk(slots) && i < |slots|
    requires s.inUse ==> s.sector > 1 && s.sector !in NamedSet(slots)
    ensures NamesOk(slots[i := s])
    ensures NamedSet(slots[i := s]) <= NamedSet(slots) + if s.inUse then {s.sector} else {}
    ensures slots[i].inUse && !s.inUse ==> slots[i].sector !in NamedSet(slots[i := s])
  {
    var slots' := slots[i := s];
    forall j | 0 <= j < |slots| && slots[j].inUse ensures slots[j].sector in NamedSet(slots) {
      NamedAre(slots, j);
    }
    forall x | x in NamedSet(slots') ensures x in NamedSet(slots) || (s.inUse && x == s.sector) {
      var j :| 0 <= j < |slots'| && slots'[j].inUse && slots'[j].sector == x;
      if j != i { NamedAre(slots, j); }
    }
  }

  lemma SlotKeeps(fs: Fs, i: nat, s: Slot, held: multiset<nat>)
    requires Inv(fs, held) && i < |fs.slots|
    requires s.inUse ==>
               && s.sector !in LiveSet(fs) && Backed(fs.freeMap, fs.disk, s.sector)
               && Spare(fs.disk, LiveSet(fs), s.sector, 1)
               && Spare(fs.disk, LiveSet(fs), fs.disk[s.sector].start, Sectors(fs.disk[s.sector]))
    ensures Inv(fs.(slots := fs.slots[i := s]), held)
  {
    var fs' := fs.(slots := fs.slots[i := s]);
    SlotWritten(fs.slots, i, s);
    if s.inUse {
      SpaceGrows(fs.freeMap, fs.disk, LiveSet(fs), s.sector);
      SpaceShrinks(fs.freeMap, fs.disk, LiveSet(fs) + {s.sector}, LiveSet(fs'));
    } else {
      SpaceShrinks(fs.freeMap, fs.disk, LiveSet(fs), LiveSet(fs'));
    }
    OpenAreLive(fs);
    forall n | n in fs'.inodes ensures InodeOk(fs', held, n) {
      assert InodeOk(fs, held, n);
    }
    forall f | f in fs'.files ensures FileOk(fs', f) {
      assert FileOk(fs, f);
    }
  }

  lemma DirAddKeeps(fs: Fs, dir: nat, name: string, x: nat, u: Luck, held: multiset<nat>)
    requires Inv(fs, held) && x > 1 && Backed(fs.freeMap, fs.disk, x)
    requires Spare(fs.disk, LiveSet(fs), x, 1) && Spare(fs.disk, LiveSet(fs), fs.disk[x].start, Sectors(fs.disk[x]))
    ensures var (fs', added) := DirAdd(fs, dir, name, x, u); Inv(fs', held) && (!added ==> fs' == fs)
    ensures DirAdd(fs, dir, name, x, u).0.inodes == fs.inodes
  {
    if DirAdd(fs, dir, name, x, u).1 {
      assert x !in LiveSet(fs) by { if x in LiveSet(fs) { assert Owns(fs.disk, x, x); } }
      SlotKeeps(fs, FreeSlot(fs.slots, 0, u.scanReads), Slot(x, name, true), held);
    }
  }

  lemma DirRemoveKeeps(fs: Fs, dir: nat, name: string, u: Luck, held: multiset<nat>)
    requires Inv(fs, held)
    ensures Inv(DirRemove(fs, dir, name, u).0, held)
  {
    var found := Lookup(fs.slots, name, 0, u.lookupReads);
    if found.Some? {
      NamedAre(fs.slots, found.value);
      OpenKeeps(fs, fs.slots[found.value].sector, u.inodeMemory, held);
      var (fs1, n) := InodeOpen(fs, fs.slots[found.value].sector, u.inodeMemory);
      if n.Some? {
        if u.slotWrite && Writable(fs1, dir) {
          EraseKeeps(fs1, found.value, n.value, held);
          var fs2 := fs1.(slots := fs1.slots[found.value := fs1.slots[found.value].(inUse := false)]);
          CloseKeeps(InodeRemove(fs2, n.value), n.value, held);
        } else {
          CloseKeeps(fs1, n.value, held);
        }
      }
    }
  }

  /** An entry is erased and its inode, which the caller holds open, marked removed. */
  lemma EraseKeeps(fs: Fs, i: nat, n: nat, held: multiset<nat>)
    requires Inv(fs, held + multiset{n}) && i < |fs.slots| && fs.slots[i].inUse
    requires n in fs.inodes && fs.inodes[n].sector == fs.slots[i].sector
    ensures Inv(InodeRemove(fs.(slots := fs.slots[i := fs.slots[i].(inUse := false)]), n), held + multiset{n})
  {
    var s, all := fs.slots[i].(inUse := false), held + multiset{n};
    var fs' := fs.(slots := fs.slots[i := s]);
    SlotWritten(fs.slots, i, s);
    SlotKeeps(fs, i, s, all);
    assert InodeOk(fs', all, n);
    CountsKeep(fs', n, fs'.inodes[n].(removed := true), all, all);
  }

  // ------------------------------------------------------------------
  // The calls

  lemma RootKeeps(fs: Fs, u: Luck, held: multiset<nat>)
    requires Inv(fs, held)
    ensures var (fs', dir) := DirOpenRoot(fs, u); Inv(fs', if dir == None then held else held + multiset{dir.value})
  {
    OpenKeeps(fs, ROOT_DIR_SECTOR, u.rootMemory, held);
    var (fs1, n) := InodeOpen(fs, ROOT_DIR_SECTOR, u.rootMemory);
    if n.Some? && !u.dirMemory { CloseKeeps(fs1, n.value, held); }
  }

  /** The root directory, opened when nothing else is held. */
  lemma RootOnly(fs: Fs, u: Luck)
    requires Inv(fs, multiset{}) && DirOpenRoot(fs, u).1.Some?
    ensures var (fs', dir) := DirOpenRoot(fs, u);
            && Inv(fs', multiset{dir.value}) && LiveSet(fs') == LiveSet(fs)
            && fs'.freeMap == fs.freeMap && fs'.slots == fs.slots && fs'.disk == fs.disk
            && dir.value in fs'.inodes && fs'.inodes[dir.value].sector == ROOT_DIR_SECTOR
  {
    RootKeeps(fs, u, multiset{});
    OpenKeeps(fs, ROOT_DIR_SECTOR, u.rootMemory, multiset{});
    assert multiset{} + multiset{DirOpenRoot(fs, u).1.value} == multiset{DirOpenRoot(fs, u).1.value};
  }

  lemma CreateAtKeeps(fs: Fs, x: nat, dir: nat, name: string, size: nat, u: Luck, held: multiset<nat>)
    requires Inv(fs, held) && Pending(fs, x)
    ensures var (fs', ok) := CreateAt(fs, x, dir, name, size, u); Inv(fs', held) && (!ok ==> Pending(fs', x))
  {
    InodeCreateKeeps(fs, x, size, u.inodeMemory, u.dataSaved, held);
    var (fs1, made) := InodeCreate(fs, x, size, u.inodeMemory, u.dataSaved);
    if made { DirAddKeeps(fs1, dir, name, x, u, held); }
  }

  lemma CreateInKeeps(fs: Fs, dir: nat, name: string, size: nat, u: Luck, held: multiset<nat>)
    requires Inv(fs, held)
    ensures Inv(CreateIn(fs, dir, name, size, u).0, held)
  {
    var (fs1, s) := Allocate(fs, 1, u.saved);
    AllocateKeeps(fs, 1, u.saved, held);
    if s.Some? {
      assert Pending(fs1, s.value) by { SystemSectors(fs, held); }
      CreateAtKeeps(fs1, s.value, dir, name, size, u, held);
      var (fs2, ok) := CreateAt(fs1, s.value, dir, name, size, u);
      if !ok { ReleaseKeeps(fs2, s.value, 1, held); }
    }
  }

  lemma SystemSectors(fs: Fs, held: multiset<nat>)
    requires Inv(fs, held)
    ensures |fs.freeMap| > 1 && fs.freeMap[0] && fs.freeMap[1]
  {
    assert Backed(fs.freeMap, fs.disk, 0) && Backed(fs.freeMap, fs.disk, 1);
    assert Owns(fs.disk, 0, 0) && Owns(fs.disk, 1, 1);
  }

  lemma CreateKeeps(fs: Fs, name: string, size: nat, u: Luck)
    requires Inv(fs, multiset{})
    ensures Inv(Create(fs, name, size, u).0, multiset{})
  {
    RootKeeps(fs, u, multiset{});
    var (fs1, dir) := DirOpenRoot(fs, u);
    if dir.Some? {
      CreateInKeeps(fs1, dir.value, name, size, u, multiset{dir.value});
      CloseOnly(CreateIn(fs1, dir.value, name, size, u).0, dir.value);
    }
  }

  lemma OpenInKeeps(fs: Fs, name: string, u: Luck, held: multiset<nat>)
    requires Inv(fs, held)
    ensures var (fs', n) := OpenIn(fs, name, u); Inv(fs', if n == None then held else held + multiset{n.value})
  {
    var found := Lookup(fs.slots, name, 0, u.lookupReads);
    if found.Some? {
      NamedAre(fs.slots, found.value);
      OpenKeeps(fs, fs.slots[found.value].sector, u.inodeMemory, held);
    }
  }

  lemma OpenFileKeeps(fs: Fs, name: string, u: Luck)
    requires Inv(fs, multiset{})
    ensures Inv(Open(fs, name, u).0, multiset{})
  {
    RootKeeps(fs, u, multiset{});
    var (fs1, dir) := DirOpenRoot(fs, u);
    if dir.Some? {
      OpenInKeeps(fs1, name, u, multiset{dir.value});
      var (fs2, n) := OpenIn(fs1, name, u);
      if n.Some? {
        assert multiset{dir.value} + multiset{n.value} == multiset{n.value} + multiset{dir.value};
        CloseKeeps(fs2, dir.value, multiset{n.value});
        assert multiset{n.value} == multiset{} + multiset{n.value};
        FileOpenKeeps(InodeClose(fs2, dir.value), n.value, u.fileMemory, multiset{});
      } else {
        CloseOnly(fs2, dir.value);
      }
    }
  }

  lemma RemoveKeeps(fs: Fs, name: string, u: Luck)
    requires Inv(fs, multiset{})
    ensures Inv(Remove(fs, name, u).0, multiset{})
  {
    RootKeeps(fs, u, multiset{});
    var (fs1, dir) := DirOpenRoot(fs, u);
    if dir.Some? {
      DirRemoveKeeps(fs1, dir.value, name, u, multiset{dir.value});
      CloseOnly(DirRemove(fs1, dir.value, name, u).0, dir.value);
    }
  }

  // ------------------------------------------------------------------
  // Runs

  datatype Op =
    | OCreate(name: string, size: nat, u: Luck)
    | OOpen(name: string, u: Luck)
    | ORemove(name: string, u: Luck)
    | OReopen(f: nat, memory: bool)
    | OClose(f: nat)
    | ODenyWrite(f: nat)
    | OAllowWrite(f: nat)

  /** A handle must be open; nothing else is asked of a caller. */
  predicate Enabled(fs: Fs, op: Op) { op.OCreate? || op.OOpen? || op.ORemove? || op.f in fs.files }

  function Apply(fs: Fs, op: Op): Fs
    requires Enabled(fs, op)
  {
    match op
    case OCreate(name, size, u) => Create(fs, name, size, u).0
    case OOpen(name, u) => Open(fs, name, u).0
    case ORemove(name, u) => Remove(fs, name, u).0
    case OReopen(f, memory) => FileReopen(fs, f, memory).0
    case OClose(f) => FileClose(fs, f)
    case ODenyWrite(f) => FileDenyWrite(fs, f)
    case OAllowWrite(f) => FileAllowWrite(fs, f)
  }

  lemma OpKeeps(fs: Fs, op: Op)
    requires Inv(fs, multiset{}) && Enabled(fs, op)
    ensures Inv(Apply(fs, op), multiset{})
  {
    match op
    case OCreate(name, size, u) => CreateKeeps(fs, name, size, u);
    case OOpen(name, u) => OpenFileKeeps(fs, name, u);
    case ORemove(name, u) => RemoveKeeps(fs, name, u);
    case OReopen(f, memory) => FileReopenKeeps(fs, f, memory);
    case OClose(f) => FileCloseKeeps(fs, f, multiset{});
    case ODenyWrite(f) => FileDenyKeeps(fs, f, multiset{});
    case OAllowWrite(f) => FileAllowKeeps(fs, f, multiset{});
  }

  lemma FileReopenKeeps(fs: Fs, f: nat, memory: bool)
    requires Inv(fs, multiset{}) && f in fs.files
    ensures Inv(FileReopen(fs, f, memory).0, multiset{})
  {
    assert FileOk(fs, f);
    ReopenKeeps(fs, fs.files[f].inode, multiset{});
    FileOpenKeeps(InodeReopen(fs, fs.files[f].inode), fs.files[f].inode, memory, multiset{});
  }

  ghost predicate IsRun(fs: Fs, run: seq<Op>)
    decreases |run|
  {
    run != [] ==> Enabled(fs, run[0]) && IsRun(Apply(fs, run[0]), run[1..])
  }

  ghost function After(fs: Fs, run: seq<Op>): Fs
    requires IsRun(fs, run)
    decreases |run|
  {
    if run == [] then fs else After(Apply(fs, run[0]), run[1..])
  }

  /** Files that are named or still open are marked in the free map and share no sector. */
  ghost predicate Exclusive(fs: Fs) {
    && (forall x: nat, s: nat {:trigger Owns(fs.disk, x, s)} ::
          x in LiveSet(fs) && Owns(fs.disk, x, s) ==> s < |fs.freeMap| && fs.freeMap[s])
    && (forall x: nat, y: nat, s: nat {:trigger Owns(fs.disk, x, s), Owns(fs.disk, y, s)} ::
          x in LiveSet(fs) && y in LiveSet(fs) && x != y ==> !(Owns(fs.disk, x, s) && Owns(fs.disk, y, s)))
  }

  /** One entry per open sector; the counts are the numbers of handles and of denying handles. */
  ghost predicate CountsExact(fs: Fs) {
    && NoDup(fs.openInodes)
    && (forall n, n' :: n in fs.inodes && n' in fs.inodes && fs.inodes[n].sector == fs.inodes[n'].sector ==> n == n')
    && (forall n :: n in fs.inodes ==>
          && n in fs.openInodes
          && fs.inodes[n].openCnt == |HandlesOn(fs.files, n)| >= 1
          && fs.inodes[n].denyWriteCnt == |DenyingOn(fs.files, n)|)
    && (forall f :: f in fs.files ==> fs.files[f].inode in fs.inodes)
  }

  lemma InvMeans(fs: Fs)
    requires Inv(fs, multiset{})
    ensures !fs.panic && Exclusive(fs) && CountsExact(fs)
  {
    forall x: nat, s: nat | x in LiveSet(fs) && Owns(fs.disk, x, s) ensures s < |fs.freeMap| && fs.freeMap[s] {
      assert Backed(fs.freeMap, fs.disk, x);
    }
    forall n | n in fs.inodes ensures InodeOk(fs, multiset{}, n) {
    }
    forall f | f in fs.files ensures FileOk(fs, f) {
    }
  }

  /** Any run of calls keeps ownership exclusive and the counts exact, and no assertion fires. */
  lemma {:induction false} RunKeeps(fs: Fs, run: seq<Op>)
    requires Inv(fs, multiset{}) && IsRun(fs, run)
    ensures var fs' := After(fs, run); Inv(fs', multiset{}) && !fs'.panic && Exclusive(fs') && CountsExact(fs')
    decreases |run|
  {
    if run == [] {
      InvMeans(fs);
    } else {
      OpKeeps(fs, run[0]);
      RunKeeps(Apply(fs, run[0]), run[1..]);
    }
  }

  // ------------------------------------------------------------------
  // An open handle protects its file

  /** What is still there after a call is what it was. */
  ghost predicate Evolves(fs: Fs, fs': Fs) {
    && fs.made <= fs'.made && |fs'.freeMap| == |fs.freeMap| && |fs'.slots| == |fs.slots|
    && (forall n {:trigger n in fs'.inodes} :: n in fs'.inodes && n < fs.made ==>
          && n in fs.inodes && fs'.inodes[n].sector == fs.inodes[n].sector && fs'.inodes[n].data == fs.inodes[n].data
          && (fs.inodes[n].removed ==> fs'.inodes[n].removed))
  }

  ghost predicate KeepsHandles(fs: Fs, fs': Fs, closed: set<nat>) {
    forall f {:trigger f in fs'.files} :: f in fs.files && f !in closed ==>
      f in fs'.files && fs'.files[f].inode == fs.files[f].inode
  }

  lemma CloseEvolves(fs: Fs, n: nat)
    ensures Evolves(fs, InodeClose(fs, n)) && InodeClose(fs, n).files == fs.files
  {
  }

  lemma InodeOpenEvolves(fs: Fs, sector: nat, memory: bool)
    ensures Evolves(fs, InodeOpen(fs, sector, memory).0) && InodeOpen(fs, sector, memory).0.files == fs.files
  {
  }

  lemma EvolvesTrans(a: Fs, b: Fs, c: Fs)
    requires Evolves(a, b) && Evolves(b, c)
    ensures Evolves(a, c)
  {
  }

  lemma RootEvolves(fs: Fs, u: Luck)
    ensures Evolves(fs, DirOpenRoot(fs, u).0) && DirOpenRoot(fs, u).0.files == fs.files
  {
    InodeOpenEvolves(fs, ROOT_DIR_SECTOR, u.rootMemory);
    var (fs1, n) := InodeOpen(fs, ROOT_DIR_SECTOR, u.rootMemory);
    if n.Some? { CloseEvolves(fs1, n.value); }
  }

  lemma CreateEvolves(fs: Fs, name: string, size: nat, u: Luck)
    ensures Evolves(fs, Create(fs, name, size, u).0) && Create(fs, name, size, u).0.files == fs.files
  {
    RootEvolves(fs, u);
    var (fs1, dir) := DirOpenRoot(fs, u);
    if dir.Some? {
      CloseEvolves(CreateIn(fs1, dir.value, name, size, u).0, dir.value);
    }
  }

  lemma RemoveEvolves(fs: Fs, name: string, u: Luck)
    ensures Evolves(fs, Remove(fs, name, u).0) && Remove(fs, name, u).0.files == fs.files
  {
    RootEvolves(fs, u);
    var (fs1, dir) := DirOpenRoot(fs, u);
    if dir.Some? {
      DirRemoveEvolves(fs1, dir.value, name, u);
      CloseEvolves(DirRemove(fs1, dir.value, name, u).0, dir.value);
    }
  }

  lemma DirRemoveEvolves(fs: Fs, dir: nat, name: string, u: Luck)
    ensures Evolves(fs, DirRemove(fs, dir, name, u).0) && DirRemove(fs, dir, name, u).0.files == fs.files
  {
    var found := Lookup(fs.slots, name, 0, u.lookupReads);
    if found.Some? {
      InodeOpenEvolves(fs, fs.slots[found.value].sector, u.inodeMemory);
      var (fs1, n) := InodeOpen(fs, fs.slots[found.value].sector, u.inodeMemory);
      if n.Some? {
        var fs2 := fs1.(slots := fs1.slots[found.value := fs.slots[found.value].(inUse := false)]);
        CloseEvolves(fs1, n.value);
        EraseEvolves(fs2, n.value);
        EvolvesTrans(fs, fs1, InodeClose(fs1, n.value));
        EvolvesTrans(fs, fs2, InodeClose(InodeRemove(fs2, n.value), n.value));
      }
    }
  }

  lemma EraseEvolves(fs: Fs, n: nat)
    ensures var fs' := InodeClose(InodeRemove(fs, n), n); Evolves(fs, fs') && fs'.files == fs.files
  {
    CloseEvolves(InodeRemove(fs, n), n);
  }

  lemma FileOpenEvolves(fs: Fs, n: Option<nat>, memory: bool)
    requires fs.made !in fs.files
    ensures Evolves(fs, FileOpen(fs, n, memory).0) && KeepsHandles(fs, FileOpen(fs, n, memory).0, {})
  {
    if n.Some? { CloseEvolves(fs, n.value); }
  }

  lemma OpenEvolves(fs: Fs, name: string, u: Luck)
    requires forall f :: f in fs.files ==> f < fs.made
    ensures Evolves(fs, Open(fs, name, u).0) && KeepsHandles(fs, Open(fs, name, u).0, {})
  {
    RootEvolves(fs, u);
    var (fs1, dir) := DirOpenRoot(fs, u);
    if dir.Some? {
      var (fs2, n) := OpenIn(fs1, name, u);
      var found := Lookup(fs1.slots, name, 0, u.lookupReads);
      if found.Some? { InodeOpenEvolves(fs1, fs1.slots[found.value].sector, u.inodeMemory); }
      CloseEvolves(fs2, dir.value);
      FileOpenEvolves(InodeClose(fs2, dir.value), n, u.fileMemory);
    }
  }

  lemma FileCloseEvolves(fs: Fs, f: nat)
    requires f in fs.files
    ensures Evolves(fs, FileClose(fs, f)) && KeepsHandles(fs, FileClose(fs, f), {f})
  {
    CloseEvolves(FileAllowWrite(fs, f), fs.files[f].inode);
  }

  lemma OpEvolves(fs: Fs, op: Op)
    requires Inv(fs, multiset{}) && Enabled(fs, op)
    ensures Evolves(fs, Apply(fs, op)) && KeepsHandles(fs, Apply(fs, op), if op.OClose? then {op.f} else {})
  {
    HandlesMade(fs);
    match op
    case OCreate(name, size, u) => CreateEvolves(fs, name, size, u);
    case OOpen(name, u) => OpenEvolves(fs, name, u);
    case ORemove(name, u) => RemoveEvolves(fs, name, u);
    case OReopen(f, memory) => FileReopenEvolves(fs, f, memory);
    case OClose(f) => FileCloseEvolves(fs, f);
    case ODenyWrite(f) => FlagEvolves(fs, f);
    case OAllowWrite(f) => FlagEvolves(fs, f);
  }

  lemma HandlesMade(fs: Fs)
    requires Inv(fs, multiset{})
    ensures forall f :: f in fs.files ==> f < fs.made
  {
    forall f | f in fs.files ensures f < fs.made {
      assert FileOk(fs, f);
    }
  }

  lemma FileReopenEvolves(fs: Fs, f: nat, memory: bool)
    requires f in fs.files && fs.made !in fs.files
    ensures Evolves(fs, FileReopen(fs, f, memory).0) && KeepsHandles(fs, FileReopen(fs, f, memory).0, {})
  {
    FileOpenEvolves(InodeReopen(fs, fs.files[f].inode), Some(fs.files[f].inode), memory);
  }

  lemma FlagEvolves(fs: Fs, f: nat)
    requires f in fs.files
    ensures Evolves(fs, FileDenyWrite(fs, f)) && KeepsHandles(fs, FileDenyWrite(fs, f), {})
    ensures Evolves(fs, FileAllowWrite(fs, f)) && KeepsHandles(fs, FileAllowWrite(fs, f), {})
  {
  }

  /** The sectors of the file behind a handle. */
  ghost predicate HandleOwns(fs: Fs, f: nat, s: nat) {
    f in fs.files && fs.files[f].inode in fs.inodes && Owns(fs.disk, fs.inodes[fs.files[f].inode].sector, s)
  }

  /** The handle stands for the same file, which is where it was. */
  ghost predicate SameFile(fs: Fs, fs': Fs, f: nat) {
    && f in fs.files && f in fs'.files && fs'.files[f].inode == fs.files[f].inode
    && var n := fs.files[f].inode;
       && n in fs.inodes && n in fs'.inodes
       && var x, d := fs.inodes[n].sector, fs.inodes[n].data;
          && fs'.inodes[n].sector == x && fs'.inodes[n].data == d
          && x in fs.disk && x in fs'.disk && fs.disk[x] == fs'.disk[x] == d
  }

  lemma SameOwner(fs: Fs, fs': Fs, f: nat)
    requires SameFile(fs, fs', f)
    ensures forall s: nat :: HandleOwns(fs', f, s) <==> HandleOwns(fs, f, s)
  {
  }

  /** No call but a close of the handle itself takes its file away. */
  lemma HandleStays(fs: Fs, op: Op, f: nat)
    requires Inv(fs, multiset{}) && Enabled(fs, op) && f in fs.files && op != OClose(f)
    ensures Inv(Apply(fs, op), multiset{}) && SameFile(fs, Apply(fs, op), f)
  {
    var fs1 := Apply(fs, op);
    OpKeeps(fs, op);
    OpEvolves(fs, op);
    BothOk(fs, fs1, f);
  }

  lemma BothOk(fs: Fs, fs': Fs, f: nat)
    requires Tables(fs, multiset{}) && Tables(fs', multiset{}) && Evolves(fs, fs')
    requires f in fs.files && f in fs'.files && fs'.files[f].inode == fs.files[f].inode
    ensures SameFile(fs, fs', f)
  {
    var n := fs.files[f].inode;
    assert FileOk(fs, f) && FileOk(fs', f);
    assert InodeOk(fs, multiset{}, n) && InodeOk(fs', multiset{}, n);
  }

  lemma HandleSafe(fs: Fs, f: nat, cnt: nat, saved: bool)
    requires Inv(fs, multiset{}) && f in fs.files
    ensures forall s: nat :: HandleOwns(fs, f, s) ==> s < |fs.freeMap| && fs.freeMap[s]
    ensures var r := Allocate(fs, cnt, saved).1;
            r.Some? ==> forall s: nat :: r.value <= s < r.value + cnt ==> !HandleOwns(fs, f, s)
  {
    OpenAreLive(fs);
    InvMeans(fs);
    AllocateKeeps(fs, cnt, saved, multiset{});
  }

  /** Even if the file is removed, as long as a handle on it stays open its sectors stay its own and
      marked: nothing allocated meanwhile can overlap them. */
  lemma {:induction false} HandleProtects(fs: Fs, run: seq<Op>, f: nat, cnt: nat, saved: bool)
    requires Inv(fs, multiset{}) && IsRun(fs, run) && f in fs.files && OClose(f) !in run
    ensures var fs' := After(fs, run);
            && f in fs'.files && (forall s: nat :: HandleOwns(fs', f, s) <==> HandleOwns(fs, f, s))
            && (forall s: nat :: HandleOwns(fs, f, s) ==> s < |fs'.freeMap| && fs'.freeMap[s])
            && var r := Allocate(fs', cnt, saved).1;
               r.Some? ==> forall s: nat :: r.value <= s < r.value + cnt ==> !HandleOwns(fs, f, s)
    decreases |run|
  {
    if run == [] {
      HandleSafe(fs, f, cnt, saved);
    } else {
      var fs1 := Apply(fs, run[0]);
      HandleStays(fs, run[0], f);
      SameOwner(fs, fs1, f);
      HandleProtects(fs1, run[1..], f, cnt, saved);
    }
  }

  // ------------------------------------------------------------------
  // What single calls do

  /** The last close of a removed file frees exactly its sectors; any other close frees nothing. */
  lemma CloseFrees(fs: Fs, n: nat, held: multiset<nat>)
    requires Inv(fs, held + multiset{n}) && n in fs.inodes
    ensures var i, m := fs.inodes[n], InodeClose(fs, n).freeMap;
            && |m| == |fs.freeMap|
            && forall s: nat :: s < |m| ==>
                 m[s] == (fs.freeMap[s] && !(i.openCnt == 1 && i.removed && Owns(fs.disk, i.sector, s)))
  {
    var i := fs.inodes[n];
    assert InodeOk(fs, held + multiset{n}, n);
    if i.openCnt == 1 && i.removed {
      assert Backed(fs.freeMap, fs.disk, i.sector) by { OpenAreLive(fs); }
      OwnRangesMarked(fs.freeMap, fs.disk, i.sector);
    }
  }

  /** A name that is in use can be looked up, and the first match is what is found. */
  lemma {:induction false} LookupFinds(slots: seq<Slot>, name: string, i: nat, limit: nat)
    requires i <= |slots|
    ensures var r := Lookup(slots, name, i, limit);
            && (r.Some? ==>
                  && i <= r.value < limit
                  && forall j :: i <= j < r.value ==> !(slots[j].inUse && slots[j].name == name))
            && (r == None ==> forall j :: i <= j < |slots| && j < limit ==> !(slots[j].inUse && slots[j].name == name))
    decreases |slots| - i
  {
    if i < |slots| { LookupFinds(slots, name, i + 1, limit); }
  }

  lemma {:induction false} FreeSlotFinds(slots: seq<Slot>, i: nat, limit: nat)
    requires i <= |slots|
    ensures var r := FreeSlot(slots, i, limit);
            && i <= r <= |slots| && (i <= limit ==> r <= limit) && (forall j :: i <= j < r ==> slots[j].inUse)
            && (r < |slots| && r < limit ==> !slots[r].inUse)
    decreases |slots| - i
  {
    if i < |slots| { FreeSlotFinds(slots, i + 1, limit); }
  }

  ghost predicate UniqueNames(slots: seq<Slot>) {
    forall i, j :: 0 <= i < j < |slots| && slots[i].inUse && slots[j].inUse ==> slots[i].name != slots[j].name
  }

  /** dir_add is about to write an entry for a name that a short read kept it from seeing. */
  ghost predicate Missed(fs: Fs, dir: nat, name: string, u: Luck) {
    var i := FreeSlot(fs.slots, 0, u.scanReads);
    && 0 < |name| <= NAME_MAX && i < |fs.slots| && u.slotWrite && Writable(fs, dir)
    && exists j :: u.lookupReads <= j < |fs.slots| && j != i && fs.slots[j].inUse && fs.slots[j].name == name
  }

  /** dir_add keeps names unique exactly unless it missed one, and overwrites an entry exactly if its
      search for a free one was cut short at an entry in use. */
  lemma AddKeepsUnique(fs: Fs, dir: nat, name: string, x: nat, u: Luck)
    requires UniqueNames(fs.slots)
    ensures var (fs', added) := DirAdd(fs, dir, name, x, u);
            && (UniqueNames(fs'.slots) <==> !Missed(fs, dir, name, u))
            && (added ==>
                  var i := FreeSlot(fs.slots, 0, u.scanReads);
                  && i < |fs.slots| && fs'.slots == fs.slots[i := Slot(x, name, true)]
                  && (fs.slots[i].inUse <==>
                        u.scanReads < |fs.slots| && forall j :: 0 <= j <= u.scanReads ==> fs.slots[j].inUse))
  {
    LookupFinds(fs.slots, name, 0, u.lookupReads);
    FreeSlotFinds(fs.slots, 0, u.scanReads);
    AddedNames(fs, dir, name, x, u);
  }

  lemma AddedNames(fs: Fs, dir: nat, name: string, x: nat, u: Luck)
    requires UniqueNames(fs.slots)
    ensures UniqueNames(DirAdd(fs, dir, name, x, u).0.slots) <==> !Missed(fs, dir, name, u)
  {
    LookupFinds(fs.slots, name, 0, u.lookupReads);
    var slots' := DirAdd(fs, dir, name, x, u).0.slots;
    var i := FreeSlot(fs.slots, 0, u.scanReads);
    if Missed(fs, dir, name, u) {
      var j :| u.lookupReads <= j < |fs.slots| && j != i && fs.slots[j].inUse && fs.slots[j].name == name;
      assert slots'[j].name == slots'[i].name;
    }
  }

  /** filesys_create gets as far as dir_add, which has missed the name. */
  ghost predicate CreateMisses(fs: Fs, name: string, size: nat, u: Luck) {
    var (fs1, dir) := DirOpenRoot(fs, u);
    && dir.Some?
    && var (fs2, x) := Allocate(fs1, 1, u.saved);
       && x.Some?
       && var (fs3, made) := InodeCreate(fs2, x.value, size, u.inodeMemory, u.dataSaved);
          made && Missed(fs3, dir.value, name, u)
  }

  lemma CreateUnique(fs: Fs, name: string, size: nat, u: Luck)
    requires UniqueNames(fs.slots)
    ensures UniqueNames(Create(fs, name, size, u).0.slots) <==> !CreateMisses(fs, name, size, u)
  {
    RootSlots(fs, u);
    var (fs1, dir) := DirOpenRoot(fs, u);
    if dir.Some? {
      CloseSlots(CreateIn(fs1, dir.value, name, size, u).0, dir.value);
      CreateInUnique(fs1, dir.value, name, size, u);
    }
  }

  lemma CreateInUnique(fs: Fs, dir: nat, name: string, size: nat, u: Luck)
    requires UniqueNames(fs.slots)
    ensures var (fs1, x) := Allocate(fs, 1, u.saved);
            UniqueNames(CreateIn(fs, dir, name, size, u).0.slots) <==>
            !(x.Some? && var (fs2, made) := InodeCreate(fs1, x.value, size, u.inodeMemory, u.dataSaved);
                         made && Missed(fs2, dir, name, u))
  {
    var (fs1, x) := Allocate(fs, 1, u.saved);
    if x.Some? { CreateAtUnique(fs1, x.value, dir, name, size, u); }
  }

  lemma CreateAtUnique(fs: Fs, x: nat, dir: nat, name: string, size: nat, u: Luck)
    requires UniqueNames(fs.slots)
    ensures var (fs1, made) := InodeCreate(fs, x, size, u.inodeMemory, u.dataSaved);
            UniqueNames(CreateAt(fs, x, dir, name, size, u).0.slots) <==> !(made && Missed(fs1, dir, name, u))
  {
    var (fs1, made) := InodeCreate(fs, x, size, u.inodeMemory, u.dataSaved);
    if made { AddedNames(fs1, dir, name, x, u); }
  }

  lemma CloseSlots(fs: Fs, n: nat)
    ensures InodeClose(fs, n).slots == fs.slots
  {
  }

  lemma InodeOpenSlots(fs: Fs, sector: nat, memory: bool)
    ensures InodeOpen(fs, sector, memory).0.slots == fs.slots
  {
  }

  lemma RootSlots(fs: Fs, u: Luck)
    ensures DirOpenRoot(fs, u).0.slots == fs.slots
  {
    InodeOpenSlots(fs, ROOT_DIR_SECTOR, u.rootMemory);
    var (fs1, n) := InodeOpen(fs, ROOT_DIR_SECTOR, u.rootMemory);
    if n.Some? { CloseSlots(fs1, n.value); }
  }

  lemma OpenSlots(fs: Fs, name: string, u: Luck)
    ensures Open(fs, name, u).0.slots == fs.slots
  {
    RootSlots(fs, u);
    var (fs1, dir) := DirOpenRoot(fs, u);
    if dir.Some? {
      OpenInSlots(fs1, name, u);
      var (fs2, n) := OpenIn(fs1, name, u);
      CloseSlots(fs2, dir.value);
      FileOpenSlots(InodeClose(fs2, dir.value), n, u.fileMemory);
    }
  }

  lemma OpenInSlots(fs: Fs, name: string, u: Luck)
    ensures OpenIn(fs, name, u).0.slots == fs.slots
  {
    var i := Lookup(fs.slots, name, 0, u.lookupReads);
    if i.Some? { InodeOpenSlots(fs, fs.slots[i.value].sector, u.inodeMemory); }
  }

  lemma FileOpenSlots(fs: Fs, n: Option<nat>, memory: bool)
    ensures FileOpen(fs, n, memory).0.slots == fs.slots
  {
    if n.Some? { CloseSlots(fs, n.value); }
  }

  lemma RemoveUnique(fs: Fs, name: string, u: Luck)
    requires UniqueNames(fs.slots)
    ensures UniqueNames(Remove(fs, name, u).0.slots)
  {
    RootSlots(fs, u);
    var (fs1, dir) := DirOpenRoot(fs, u);
    if dir.Some? {
      DirRemoveUnique(fs1, dir.value, name, u);
      CloseSlots(DirRemove(fs1, dir.value, name, u).0, dir.value);
    }
  }

  lemma DirRemoveUnique(fs: Fs, dir: nat, name: string, u: Luck)
    requires UniqueNames(fs.slots)
    ensures UniqueNames(DirRemove(fs, dir, name, u).0.slots)
  {
    var i := Lookup(fs.slots, name, 0, u.lookupReads);
    if i.Some? {
      InodeOpenSlots(fs, fs.slots[i.value].sector, u.inodeMemory);
      var (fs1, n) := InodeOpen(fs, fs.slots[i.value].sector, u.inodeMemory);
      if n.Some? {
        var fs2 := fs1.(slots := fs1.slots[i.value := fs.slots[i.value].(inUse := false)]);
        CloseSlots(fs1, n.value);
        CloseSlots(InodeRemove(fs2, n.value), n.value);
      }
    }
  }

  /** Names are unique at every point of a run. */
  ghost predicate UniqueThroughout(fs: Fs, run: seq<Op>)
    requires IsRun(fs, run)
    decreases |run|
  {
    UniqueNames(fs.slots) && (run != [] ==> UniqueThroughout(Apply(fs, run[0]), run[1..]))
  }

  ghost predicate OpMisses(fs: Fs, op: Op) { op.OCreate? && CreateMisses(fs, op.name, op.size, op.u) }

  /** Some create of the run misses a name. */
  ghost predicate RunMisses(fs: Fs, run: seq<Op>)
    requires IsRun(fs, run)
    decreases |run|
  {
    run != [] && (OpMisses(fs, run[0]) || RunMisses(Apply(fs, run[0]), run[1..]))
  }

  lemma OpUnique(fs: Fs, op: Op)
    requires Enabled(fs, op) && UniqueNames(fs.slots)
    ensures UniqueNames(Apply(fs, op).slots) <==> !OpMisses(fs, op)
  {
    match op
    case OCreate(name, size, u) => CreateUnique(fs, name, size, u);
    case OOpen(name, u) => OpenSlots(fs, name, u);
    case ORemove(name, u) => RemoveUnique(fs, name, u);
    case OReopen(f, memory) => FileOpenSlots(InodeReopen(fs, fs.files[f].inode), Some(fs.files[f].inode), memory);
    case OClose(f) => CloseSlots(FileAllowWrite(fs, f), fs.files[f].inode);
    case ODenyWrite(f) =>
    case OAllowWrite(f) =>
  }

  /** Over any run, names stay unique throughout exactly if no create misses one ... */
  lemma {:induction false} NamesStayUnique(fs: Fs, run: seq<Op>)
    requires IsRun(fs, run) && UniqueNames(fs.slots)
    ensures UniqueThroughout(fs, run) <==> !RunMisses(fs, run)
    decreases |run|
  {
    if run != [] {
      OpUnique(fs, run[0]);
      if !OpMisses(fs, run[0]) { NamesStayUnique(Apply(fs, run[0]), run[1..]); }
    }
  }

  /** ... and none does if its lookups can read the whole directory. */
  lemma {:induction false} WholeReadsMissNothing(fs: Fs, run: seq<Op>)
    requires Inv(fs, multiset{}) && IsRun(fs, run)
    requires forall i :: 0 <= i < |run| && run[i].OCreate? ==> run[i].u.lookupReads >= |fs.slots|
    ensures !RunMisses(fs, run)
    decreases |run|
  {
    if run != [] {
      OpKeeps(fs, run[0]);
      OpEvolves(fs, run[0]);
      if run[0].OCreate? { RootSlots(fs, run[0].u); }
      assert forall i :: 0 <= i < |run[1..]| ==> run[1..][i] == run[i + 1];
      WholeReadsMissNothing(Apply(fs, run[0]), run[1..]);
    }
  }

  // A disk with one empty file, on which the failures below can be seen.

  function OneFile(): Fs {
    Fs([true, true, true, true, true, false, false],
       map[0 := DiskInode(2, 4), 1 := DiskInode(3, 320), 4 := DiskInode(0, 0)],
       [Slot(4, "a", true), Slot(0, "", false)], [], map[], map[], 0, false)
  }

  /** Everything goes well, except that lookups can read only `limit` entries. */
  function Reading(limit: nat): Luck { Luck(true, true, true, true, true, true, limit, 2, true) }

  lemma OneFileHolds()
    ensures Inv(OneFile(), multiset{}) && UniqueNames(OneFile().slots)
  {
    var fs := OneFile();
    assert NamedSet(fs.slots) == {4} by { assert fs.slots[0].sector == 4; }
    assert LiveSet(fs) == {0, 1, 4};
    OneFileSpace();
  }

  lemma OneFileSpace()
    ensures Space(OneFile().freeMap, OneFile().disk, {0, 1, 4})
  {
    var m, disk := OneFile().freeMap, OneFile().disk;
    assert Sectors(disk[0]) == 1 && Sectors(disk[1]) == 1 && Sectors(disk[4]) == 0;
    assert forall s: nat :: Owns(disk, 0, s) <==> s == 0 || s == 2;
    assert forall s: nat :: Owns(disk, 1, s) <==> s == 1 || s == 3;
    assert forall s: nat :: Owns(disk, 4, s) <==> s == 4;
  }

  lemma FirstFree(m: seq<bool>, i: nat)
    requires i < |m| && !m[i] && forall j :: 0 <= j < i ==> m[j]
    ensures FirstRun(m, 0, 1, false) == Some(i)
  {
    assert AllAre(m, i, 1, false);
    var r := FirstRun(m, 0, 1, false);
    assert AllAre(m, r.value, 1, false) && !m[r.value];
  }

  /** Sector 5 is what a new inode gets. */
  lemma OneFileTaken(fs: Fs)
    requires fs.freeMap == OneFile().freeMap
    ensures Allocate(fs, 1, true) == (fs.(freeMap := [true, true, true, true, true, true, false]), Some(5))
  {
    FirstFree(fs.freeMap, 5);
    assert SetRange(fs.freeMap, 5, 1, true) == [true, true, true, true, true, true, false];
  }

  /** The root directory is opened as inode 0. */
  lemma OneFileOpened(u: Luck)
    requires u.rootMemory && u.dirMemory
    ensures var (fs, dir) := DirOpenRoot(OneFile(), u);
            && dir == Some(0) && fs.freeMap == OneFile().freeMap && fs.slots == OneFile().slots && Writable(fs, 0)
  {
    assert FindOpen([], map[], ROOT_DIR_SECTOR) == None;
  }

  /** A short read is taken for the end of the directory: a name that is in use is created again. */
  lemma ShortReadDuplicates()
    ensures Inv(OneFile(), multiset{}) && UniqueNames(OneFile().slots)
    ensures Create(OneFile(), "a", 0, Reading(0)).1 && !UniqueNames(Create(OneFile(), "a", 0, Reading(0)).0.slots)
  {
    OneFileHolds();
    var u := Reading(0);
    OneFileOpened(u);
    var fs1 := DirOpenRoot(OneFile(), u).0;
    OneFileTaken(fs1);
    var fs := Allocate(fs1, 1, true).0;
    assert FirstRun(fs.freeMap, 0, 0, false) == Some(0);
    var fs2 := InodeCreate(fs, 5, 0, true, true).0;
    assert FreeSlot(fs2.slots, 0, 2) == FreeSlot(fs2.slots, 1, 2) == 1;
    var fs3 := DirAdd(fs2, 0, "a", 5, u).0;
    CloseSlots(fs3, 0);
    assert fs3.slots == fs.slots[1 := Slot(5, "a", true)];
    assert fs3.slots[0].inUse && fs3.slots[1].inUse && fs3.slots[0].name == fs3.slots[1].name;
  }

  /** A created file is new: its inode sector belonged to nobody, and it has the size asked for. */
  lemma CreateAdds(fs: Fs, name: string, size: nat, u: Luck) returns (i: nat, x: nat)
    requires Inv(fs, multiset{}) && Create(fs, name, size, u).1
    ensures var fs' := Create(fs, name, size, u).0;
            && i < |fs.slots| && x !in LiveSet(fs) && x in fs'.disk && fs'.disk[x].length == size
            && 0 < |name| <= NAME_MAX && fs'.slots == fs.slots[i := Slot(x, name, true)]
  {
    RootOnly(fs, u);
    var (fs1, dir) := DirOpenRoot(fs, u);
    i, x := CreateInAdds(fs1, dir.value, name, size, u, multiset{dir.value});
    CreateInKeeps(fs1, dir.value, name, size, u, multiset{dir.value});
    CloseOnly(CreateIn(fs1, dir.value, name, size, u).0, dir.value);
  }

  lemma CreateInAdds(fs: Fs, dir: nat, name: string, size: nat, u: Luck, held: multiset<nat>) returns (i: nat, x: nat)
    requires Inv(fs, held) && CreateIn(fs, dir, name, size, u).1
    ensures var fs' := CreateIn(fs, dir, name, size, u).0;
            && i < |fs.slots| && x !in LiveSet(fs) && x in fs'.disk && fs'.disk[x].length == size
            && 0 < |name| <= NAME_MAX && fs'.slots == fs.slots[i := Slot(x, name, true)]
  {
    var (fs1, s) := Allocate(fs, 1, u.saved);
    AllocateKeeps(fs, 1, u.saved, held);
    x := s.value;
    assert Pending(fs1, x) by { SystemSectors(fs, held); }
    PendingIsNew(fs1, x);
    InodeCreateKeeps(fs1, x, size, u.inodeMemory, u.dataSaved, held);
    i := FreeSlot(fs.slots, 0, u.scanReads);
  }

  lemma PendingIsNew(fs: Fs, x: nat)
    requires Pending(fs, x)
    ensures x !in LiveSet(fs)
  {
    assert Owns(fs.disk, x, x);
  }

  /** An opened file is the one its name stands for. */
  lemma OpenFinds(fs: Fs, name: string, u: Luck) returns (j: nat)
    requires Inv(fs, multiset{}) && Open(fs, name, u).1.Some?
    ensures j < |fs.slots| && fs.slots[j].inUse && fs.slots[j].name == name
    ensures var (fs', f) := Open(fs, name, u);
            f.value in fs'.files && Names(fs', fs'.files[f.value].inode, fs.slots[j])
  {
    RootOnly(fs, u);
    var (fs1, dir) := DirOpenRoot(fs, u);
    j := FoundIn(fs1, dir.value, name, u);
  }

  /** n is open, not removed, and the file that the entry names. */
  ghost predicate Names(fs: Fs, n: nat, s: Slot) {
    && n in fs.inodes
    && var i := fs.inodes[n];
       i.sector == s.sector && !i.removed && i.sector in fs.disk && i.data == fs.disk[i.sector]
  }

  lemma FoundIn(fs: Fs, dir: nat, name: string, u: Luck) returns (j: nat)
    requires Inv(fs, multiset{dir}) && OpenIn(fs, name, u).1.Some?
    ensures j < |fs.slots| && fs.slots[j].inUse && fs.slots[j].name == name
    ensures var (fs', n) := OpenIn(fs, name, u); Names(InodeClose(fs', dir), n.value, fs.slots[j])
  {
    OpenInFinds(fs, name, u, multiset{dir});
    j := Lookup(fs.slots, name, 0, u.lookupReads).value;
    FoundStays(OpenIn(fs, name, u).0, dir, OpenIn(fs, name, u).1.value, j);
  }

  lemma OpenInFinds(fs: Fs, name: string, u: Luck, held: multiset<nat>)
    requires Inv(fs, held) && OpenIn(fs, name, u).1.Some?
    ensures var (fs', n) := OpenIn(fs, name, u); var j := Lookup(fs.slots, name, 0, u.lookupReads);
            && j.Some? && fs'.slots == fs.slots && Inv(fs', held + multiset{n.value})
            && n.value in fs'.inodes && fs'.inodes[n.value].sector == fs.slots[j.value].sector
  {
    var j := Lookup(fs.slots, name, 0, u.lookupReads).value;
    NamedAre(fs.slots, j);
    OpenKeeps(fs, fs.slots[j].sector, u.inodeMemory, held);
  }

  /** Closing the directory does not disturb the inode that was found. */
  lemma FoundStays(fs: Fs, dir: nat, n: nat, j: nat)
    requires Inv(fs, multiset{dir} + multiset{n}) && n in fs.inodes
    requires j < |fs.slots| && fs.slots[j].inUse && fs.inodes[n].sector == fs.slots[j].sector
    ensures Names(InodeClose(fs, dir), n, fs.slots[j])
  {
    assert InodeOk(fs, multiset{dir} + multiset{n}, n);
    assert multiset{dir} + multiset{n} == multiset{n} + multiset{dir};
    CloseKeeps(fs, dir, multiset{n});
    CloseEvolves(fs, dir);
    assert n in multiset{n};
    assert InodeOk(InodeClose(fs, dir), multiset{n}, n);
    NamedAre(fs.slots, j);
  }

  /** A removed name is gone; the file's sectors are freed at once if it is not open, and none of
      them otherwise. */
  lemma RemoveFrees(fs: Fs, name: string, u: Luck) returns (j: nat)
    requires Inv(fs, multiset{}) && Remove(fs, name, u).1
    ensures j < |fs.slots| && fs.slots[j].inUse && fs.slots[j].name == name
    ensures var fs', x := Remove(fs, name, u).0, fs.slots[j].sector;
            && fs'.slots == fs.slots[j := fs.slots[j].(inUse := false)]
            && FreedUnlessOpen(fs, fs'.freeMap, x)
  {
    RootOnly(fs, u);
    var (fs1, dir) := DirOpenRoot(fs, u);
    j := RemoveInFrees(fs1, dir.value, name, u);
    NamedAre(fs.slots, j);
    RootOpens(fs, u);
  }

  /** The free map after sector x's file has lost its name. */
  ghost predicate FreedUnlessOpen(fs: Fs, m: seq<bool>, x: nat) {
    && |m| == |fs.freeMap|
    && forall s: nat :: s < |m| ==> m[s] == (fs.freeMap[s] && !(x !in OpenSet(fs.inodes) && Owns(fs.disk, x, s)))
  }

  lemma RemoveInFrees(fs: Fs, dir: nat, name: string, u: Luck) returns (j: nat)
    requires Inv(fs, multiset{dir}) && dir in fs.inodes && fs.inodes[dir].sector == ROOT_DIR_SECTOR
    requires DirRemove(fs, dir, name, u).1
    ensures j < |fs.slots| && fs.slots[j].inUse && fs.slots[j].name == name
    ensures var fs' := InodeClose(DirRemove(fs, dir, name, u).0, dir);
            fs'.slots == fs.slots[j := fs.slots[j].(inUse := false)]
                && FreedUnlessOpen(fs, fs'.freeMap, fs.slots[j].sector)
  {
    j := DirRemoveFrees(fs, dir, name, u, multiset{dir});
    RootCloseFrees(DirRemove(fs, dir, name, u).0, dir);
  }

  lemma RootOpens(fs: Fs, u: Luck)
    requires Inv(fs, multiset{}) && DirOpenRoot(fs, u).1.Some?
    ensures OpenSet(DirOpenRoot(fs, u).0.inodes) == OpenSet(fs.inodes) + {ROOT_DIR_SECTOR}
  {
    FindOpenFinds(fs.openInodes, fs.inodes, ROOT_DIR_SECTOR);
    var found := FindOpen(fs.openInodes, fs.inodes, ROOT_DIR_SECTOR);
    if found.Some? {
      SameSectors(fs.openInodes, fs.inodes, DirOpenRoot(fs, u).0.inodes);
    } else {
      MadeIsNew(fs, multiset{});
      NewOpenSet(fs.inodes, fs.made, DirOpenRoot(fs, u).0.inodes[fs.made]);
    }
  }

  /** The directory's own inode is never marked removed, so closing it frees nothing. */
  lemma RootCloseFrees(fs: Fs, dir: nat)
    requires Inv(fs, multiset{dir}) && dir in fs.inodes && fs.inodes[dir].sector == ROOT_DIR_SECTOR
    ensures InodeClose(fs, dir).freeMap == fs.freeMap && InodeClose(fs, dir).slots == fs.slots
  {
    assert multiset{dir} == multiset{} + multiset{dir};
    assert InodeOk(fs, multiset{dir}, dir);
    CloseKeeps(fs, dir, multiset{});
    CloseFrees(fs, dir, multiset{});
  }

  lemma DirRemoveFrees(fs: Fs, dir: nat, name: string, u: Luck, held: multiset<nat>) returns (j: nat)
    requires Inv(fs, held) && DirRemove(fs, dir, name, u).1 && dir in held && dir in fs.inodes
    ensures j < |fs.slots| && fs.slots[j].inUse && fs.slots[j].name == name
    ensures var fs', x := DirRemove(fs, dir, name, u).0, fs.slots[j].sector;
            && Inv(fs', held) && dir in fs'.inodes && fs'.inodes[dir].sector == fs.inodes[dir].sector
            && fs'.slots == fs.slots[j := fs.slots[j].(inUse := false)]
            && FreedUnlessOpen(fs, fs'.freeMap, x)
  {
    j := Lookup(fs.slots, name, 0, u.lookupReads).value;
    var x := fs.slots[j].sector;
    NamedAre(fs.slots, j);
    OpenKeeps(fs, x, u.inodeMemory, held);
    var (fs1, n) := InodeOpen(fs, x, u.inodeMemory);
    OpenCounts(fs, x, u.inodeMemory, held);
    EraseKeeps(fs1, j, n.value, held);
    var fs2 := InodeRemove(fs1.(slots := fs1.slots[j := fs.slots[j].(inUse := false)]), n.value);
    CloseFrees(fs2, n.value, held);
    CloseKeeps(fs2, n.value, held);
    DirRemoveEvolves(fs, dir, name, u);
    assert InodeOk(fs, held, dir);
    assert dir in DirRemove(fs, dir, name, u).0.inodes;
  }

  /** Opening leaves one reference exactly if the sector was not open before. */
  lemma OpenCounts(fs: Fs, sector: nat, memory: bool, held: multiset<nat>)
    requires Inv(fs, held) && InodeOpen(fs, sector, memory).1.Some?
    ensures var (fs', n) := InodeOpen(fs, sector, memory);
            n.value in fs'.inodes && (fs'.inodes[n.value].openCnt == 1 <==> sector !in OpenSet(fs.inodes))
  {
    FindOpenFinds(fs.openInodes, fs.inodes, sector);
    var found := FindOpen(fs.openInodes, fs.inodes, sector);
    if found.Some? {
      assert InodeOk(fs, held, found.value);
    } else {
      forall m | m in fs.inodes ensures fs.inodes[m].sector != sector {
      }
    }
  }

  /** The inode and its data could be had, and there is data: then only the directory can have failed. */
  predicate Leaks(fs: Fs, size: nat, u: Luck) {
    && DirOpenRoot(fs, u).1.Some?
    && var (fs1, s) := Allocate(fs, 1, u.saved);
       s.Some? && InodeCreate(fs1, s.value, size, u.inodeMemory, u.dataSaved).1 && size > 0
  }

  /** A failed create changes no name, and leaves the free map as it was unless it got as far as the
      directory with data sectors in hand, which it then does not give back. */
  lemma FailedCreateLeaks(fs: Fs, name: string, size: nat, u: Luck)
    requires Inv(fs, multiset{}) && !Create(fs, name, size, u).1
    ensures var fs' := Create(fs, name, size, u).0;
            fs'.slots == fs.slots && (fs'.freeMap == fs.freeMap <==> !Leaks(fs, size, u))
  {
    RootKeepsMap(fs, u);
    var (fs1, dir) := DirOpenRoot(fs, u);
    if dir.Some? {
      RootOnly(fs, u);
      CreateCloses(fs1, dir.value, name, size, u);
    }
  }

  lemma CreateCloses(fs: Fs, dir: nat, name: string, size: nat, u: Luck)
    requires Inv(fs, multiset{dir}) && dir in fs.inodes && fs.inodes[dir].sector == ROOT_DIR_SECTOR
    requires !CreateIn(fs, dir, name, size, u).1
    ensures var fs', (fs1, s) := InodeClose(CreateIn(fs, dir, name, size, u).0, dir), Allocate(fs, 1, u.saved);
            && fs'.slots == fs.slots
            && (fs'.freeMap == fs.freeMap <==>
                  !(s.Some? && InodeCreate(fs1, s.value, size, u.inodeMemory, u.dataSaved).1 && size > 0))
  {
    CreateInKeeps(fs, dir, name, size, u, multiset{dir});
    CreateInLeaks(fs, dir, name, size, u, multiset{dir});
    RootCloseFrees(CreateIn(fs, dir, name, size, u).0, dir);
  }

  /** Creating a name that exists, with a size, loses data sectors. */
  lemma NameTakenLeaks()
    ensures Inv(OneFile(), multiset{}) && Leaks(OneFile(), 1, Reading(2))
    ensures !Create(OneFile(), "a", 1, Reading(2)).1
    ensures Create(OneFile(), "a", 1, Reading(2)).0.freeMap != OneFile().freeMap
  {
    OneFileHolds();
    OneFileLeaks();
    NameTakenFails();
    FailedCreateLeaks(OneFile(), "a", 1, Reading(2));
  }

  lemma OneFileLeaks()
    ensures Leaks(OneFile(), 1, Reading(2))
  {
    OneFileOpened(Reading(2));
    OneFileTaken(OneFile());
    var m := [true, true, true, true, true, true, false];
    assert Allocate(OneFile(), 1, true).0.freeMap == m;
    FirstFree(m, 6);
    assert InodeIO.BytesToSectors(1) == 1;
  }

  lemma NameTakenFails()
    ensures !Create(OneFile(), "a", 1, Reading(2)).1
  {
    var u := Reading(2);
    OneFileOpened(u);
    var fs := DirOpenRoot(OneFile(), u).0;
    assert Lookup(fs.slots, "a", 0, 2) == Some(0);
    assert !CreateIn(fs, 0, "a", 1, u).1;
  }

  lemma RootKeepsMap(fs: Fs, u: Luck)
    requires Inv(fs, multiset{})
    ensures var (fs', dir) := DirOpenRoot(fs, u);
            && fs'.freeMap == fs.freeMap && fs'.slots == fs.slots && fs'.disk == fs.disk
            && (dir.Some? ==> dir.value in fs'.inodes && fs'.inodes[dir.value].sector == ROOT_DIR_SECTOR)
  {
    OpenKeeps(fs, ROOT_DIR_SECTOR, u.rootMemory, multiset{});
    var (fs1, n) := InodeOpen(fs, ROOT_DIR_SECTOR, u.rootMemory);
    if n.Some? {
      assert multiset{} + multiset{n.value} == multiset{n.value};
      RootCloseFrees(fs1, n.value);
      CloseOnly(fs1, n.value);
    }
  }

  lemma CreateInLeaks(fs: Fs, dir: nat, name: string, size: nat, u: Luck, held: multiset<nat>)
    requires Inv(fs, held) && !CreateIn(fs, dir, name, size, u).1
    ensures var fs', (fs1, s) := CreateIn(fs, dir, name, size, u).0, Allocate(fs, 1, u.saved);
            && fs'.slots == fs.slots
            && (fs'.freeMap == fs.freeMap <==>
                  !(s.Some? && InodeCreate(fs1, s.value, size, u.inodeMemory, u.dataSaved).1 && size > 0))
  {
    AllocateKeeps(fs, 1, u.saved, held);
    var (fs1, s) := Allocate(fs, 1, u.saved);
    if s.Some? {
      var x := s.value;
      assert Pending(fs1, x) by { SystemSectors(fs, held); }
      CreateAtKeeps(fs1, x, dir, name, size, u, held);
      AllocateKeeps(fs1, InodeIO.BytesToSectors(size), u.dataSaved, held);
      var (fs2, made) := InodeCreate(fs1, x, size, u.inodeMemory, u.dataSaved);
      assert fs2.slots == fs.slots && CreateAt(fs1, x, dir, name, size, u).0 == fs2;
      InodeCreateKeeps(fs1, x, size, u.inodeMemory, u.dataSaved, held);
      ReleaseKeeps(fs2, x, 1, held);
      if made {
        MapAfterFailure(fs.freeMap, x, fs2.disk[x].start, InodeIO.BytesToSectors(size));
      } else {
        FlipBack(fs.freeMap, x, 1, false);
      }
    }
  }

  /** The inode's sector is given back, its data sectors are not. */
  lemma MapAfterFailure(m: seq<bool>, x: nat, start: nat, cnt: nat)
    requires x < |m| && !m[x] && start + cnt <= |m| && AllAre(SetRange(m, x, 1, true), start, cnt, false)
    ensures SetRange(SetRange(SetRange(m, x, 1, true), start, cnt, true), x, 1, false) == m <==> cnt == 0
  {
    var m1 := SetRange(m, x, 1, true);
    var m3 := SetRange(SetRange(m1, start, cnt, true), x, 1, false);
    if cnt > 0 {
      assert !m1[start] && m1[x];
      assert m3[start] && !m[start];
    } else {
      assert forall s :: 0 <= s < |m| ==> m3[s] == m[s];
    }
  }

  // ------------------------------------------------------------------
  // Formatting

  function Blank(size: nat): Fs
    requires size >= 2
  {
    Fs(SetRange(seq(size, _ => false), 0, 2, true), map[], seq(16, _ => Slot(0, "", false)), [], map[], map[], 0, false)
  }

  /** do_format: the free map's file and an empty root directory of 16 entries; None is a PANIC. */
  function Format(size: nat): Option<Fs>
    requires size >= 2
  {
    var (fs1, ok1) := InodeCreate(Blank(size), FREE_MAP_SECTOR, 4 * ElemCnt(size), true, true);
    var (fs2, ok2) := InodeCreate(fs1, ROOT_DIR_SECTOR, 16 * 20, true, true);
    if ok1 && ok2 then Some(fs2) else None
  }

  lemma InstallFirst(m: seq<bool>, d: DiskInode)
    requires |m| >= 2 && m[0] && m[1] && d.start + Sectors(d) <= |m| && AllAre(m, d.start, Sectors(d), false)
    ensures var m', disk' := SetRange(m, d.start, Sectors(d), true), Installed(map[], 0, d);
            Space(m', disk', {0}) && Spare(disk', {0}, 1, 1)
  {
    var m' := SetRange(m, d.start, Sectors(d), true);
    assert Space(m', map[], {});
    InstalledKeeps(m', map[], {}, 0, d);
    SpaceGrows(m', Installed(map[], 0, d), {}, 0);
    assert {0} == {} + {0};
  }

  lemma InstallSecond(m: seq<bool>, disk: map<nat, DiskInode>, d: DiskInode)
    requires |m| >= 2 && m[1] && Space(m, disk, {0}) && Spare(disk, {0}, 1, 1)
    requires d.start + Sectors(d) <= |m| && AllAre(m, d.start, Sectors(d), false)
    ensures Space(SetRange(m, d.start, Sectors(d), true), Installed(disk, 1, d), {0, 1})
  {
    var m' := SetRange(m, d.start, Sectors(d), true);
    FreeIsSpare(m, disk, {0}, d.start, Sectors(d));
    SpaceMarks(m, m', disk, {0});
    InstalledKeeps(m', disk, {0}, 1, d);
    SpaceGrows(m', Installed(disk, 1, d), {0}, 1);
    assert {0, 1} == {0} + {1};
  }

  lemma FormatHolds(size: nat)
    requires size >= 2 && Format(size).Some?
    ensures Inv(Format(size).value, multiset{})
  {
    var fs0 := Blank(size);
    var d0 := DiskInode(FirstRun(fs0.freeMap, 0, InodeIO.BytesToSectors(4 * ElemCnt(size)), false).value,
        4 * ElemCnt(size));
    InstallFirst(fs0.freeMap, d0);
    var fs1 := InodeCreate(fs0, FREE_MAP_SECTOR, 4 * ElemCnt(size), true, true).0;
    var d1 := DiskInode(FirstRun(fs1.freeMap, 0, InodeIO.BytesToSectors(320), false).value, 320);
    InstallSecond(fs1.freeMap, fs1.disk, d1);
    var fs := Format(size).value;
    assert NamedSet(fs.slots) == {} && OpenSet(fs.inodes) == {};
    assert LiveSet(fs) == {0, 1};
  }

  /** filesys_init: from a fresh format, with the free map file open, any run of calls at all. */
  lemma FreshRuns(size: nat, run: seq<Op>)
    requires size >= 2 && Format(size).Some?
    requires var fs := Format(size).value; var (fs1, n) := InodeOpen(fs, FREE_MAP_SECTOR, true);
             IsRun(FileOpen(fs1, n, true).0, run)
    ensures var fs := Format(size).value; var (fs1, n) := InodeOpen(fs, FREE_MAP_SECTOR, true);
            var fs' := After(FileOpen(fs1, n, true).0, run); !fs'.panic && Exclusive(fs') && CountsExact(fs')
  {
    FormatHolds(size);
    var fs := Format(size).value;
    OpenKeeps(fs, FREE_MAP_SECTOR, true, multiset{});
    var (fs1, n) := InodeOpen(fs, FREE_MAP_SECTOR, true);
    FileOpenKeeps(fs1, n.value, true, multiset{});
    RunKeeps(FileOpen(fs1, n, true).0, run);
  }

  // ------------------------------------------------------------------
  // Contents

  /** Writing one file changes the bytes of no other live file, nor any live inode. */
  lemma WritesStayInside(fs: Fs, d: seq<InodeIO.Sector>, d': seq<InodeIO.Sector>, x: nat, offset: nat,
                         data: seq<InodeIO.Byte>, y: nat)
    requires Inv(fs, multiset{}) && |d| == |fs.freeMap| && x in LiveSet(fs) && y in LiveSet(fs)
    requires x in fs.disk && y in fs.disk && offset + |data| <= fs.disk[x].length
    requires InodeIO.WrittenTo(d, d', fs.disk[x].start, offset, data)
    ensures y < |d| && d'[y] == d[y]
    ensures var i := fs.disk[y];
            && InodeIO.Fits(d, i.start, i.length) && InodeIO.Fits(d', i.start, i.length)
            && (y != x ==> InodeIO.Flat(d', i.start, i.length) == InodeIO.Flat(d, i.start, i.length))
  {
    var a, b := fs.disk[x], fs.disk[y];
    assert Backed(fs.freeMap, fs.disk, x) && Backed(fs.freeMap, fs.disk, y);
    assert Owns(fs.disk, y, y) && (Owns(fs.disk, x, y) ==> x == y);
    assert !(a.start <= y < a.start + Sectors(a));
    InodeIO.WriteSparesOthers(d, d', a.start, a.length, offset, data, a.start + Sectors(a), 0);
    if y != x && b.length > 0 && a.length > 0 {
      assert Owns(fs.disk, x, a.start) && Owns(fs.disk, y, b.start);
      assert !Owns(fs.disk, y, a.start) && !Owns(fs.disk, x, b.start);
      InodeIO.WriteSparesOthers(d, d', a.start, a.length, offset, data, b.start, b.length);
    } else if a.length == 0 {
      assert forall i :: 0 <= i < |d| ==> d'[i] == d[i];
      assert d' == d;
    }
  }
}
