/** The bytes behind the file system: for as long as a file is open it is an array of bytes that
    changes only by the writes made to it, whatever is created, written, closed or removed meanwhile.

    A run is a sequence of calls and writes, each with the disk it leaves behind.  A call may rewrite
    the data of the free map and of the root directory; a create also writes the new inode and zeros
    to the new data sectors. */
module FileBytes {
  import opened Basics
  import opened Bitmap
  import opened FileSystem
  import InodeIO

  type Byte = InodeIO.Byte
  type Sector = InodeIO.Sector

  datatype Event =
    | Call(op: Op, encoded: Sector, before: seq<Sector>, made: seq<Sector>, after: seq<Sector>)
    | Write(f: nat, offset: nat, data: seq<Byte>, bounceOk: bool, after: seq<Sector>)

  function ZeroSector(): (s: Sector)
    ensures forall j :: 0 <= j < 512 ==> s[j] == 0
  {
    seq(512, _ => 0)
  }

  // ------------------------------------------------------------------
  // What calls and writes do to the disk

  /** A data sector of the free map or of the root directory. */
  predicate SystemData(disk: map<nat, DiskInode>, s: nat) {
    (s != FREE_MAP_SECTOR && Owns(disk, FREE_MAP_SECTOR, s)) || (s != ROOT_DIR_SECTOR && Owns(disk, ROOT_DIR_SECTOR, s))
  }

  ghost predicate SystemOnly(fs: Fs, d: seq<Sector>, d': seq<Sector>) {
    |d'| == |d| && forall s :: 0 <= s < |d| && !SystemData(fs.disk, s) ==> d'[s] == d[s]
  }

  /** The inode that a call writes to the disk, with its sector. */
  function Makes(fs: Fs, op: Op): Option<(nat, DiskInode)> {
    match op
    case OCreate(_, size, u) =>
      var (fs1, dir) := DirOpenRoot(fs, u);
      var (fs2, x) := Allocate(fs1, 1, u.saved);
      var (_, start) := Allocate(fs2, InodeIO.BytesToSectors(size), u.dataSaved);
      if dir.Some? && x.Some? && u.inodeMemory && start.Some?
      then Some((x.value, DiskInode(start.value, size))) else None
    case _ => None
  }

  /** First the inode is written, then its data sectors are cleared. */
  ghost predicate InodeWritten(d: seq<Sector>, d': seq<Sector>, x: nat, encoded: Sector, i: DiskInode) {
    && |d'| == |d|
    && forall s :: 0 <= s < |d| ==>
         d'[s] == if i.start <= s < i.start + Sectors(i) then ZeroSector() else if s == x then encoded else d[s]
  }

  /** How many bytes inode_write_at writes. */
  function Amount(i: Inode, offset: nat, data: seq<Byte>, bounceOk: bool): (n: nat)
    ensures n <= |data| && (n > 0 ==> offset + n <= i.data.length)
  {
    if i.denyWriteCnt > 0 then 0 else InodeIO.Moved(i.data.length, |data|, offset, bounceOk)
  }

  ghost predicate Possible(fs: Fs, d: seq<Sector>, e: Event) {
    match e
    case Call(op, encoded, before, made, after) =>
      && Enabled(fs, op) && SystemOnly(fs, d, before) && SystemOnly(fs, made, after)
      && (match Makes(fs, op)
          case None => made == before
          case Some((x, i)) => InodeWritten(before, made, x, encoded, i))
    case Write(f, offset, data, bounceOk, after) =>
      && f in fs.files && fs.files[f].inode in fs.inodes
      && var i := fs.inodes[fs.files[f].inode];
         InodeIO.WrittenTo(d, after, i.data.start, offset, data[..Amount(i, offset, data, bounceOk)])
  }

  function StateAfter(fs: Fs, e: Event): Fs
    requires e.Call? ==> Enabled(fs, e.op)
  {
    if e.Call? then Apply(fs, e.op) else fs
  }

  ghost predicate IsTrace(fs: Fs, d: seq<Sector>, run: seq<Event>)
    decreases |run|
  {
    run != [] ==> Possible(fs, d, run[0]) && IsTrace(StateAfter(fs, run[0]), run[0].after, run[1..])
  }

  ghost function End(fs: Fs, d: seq<Sector>, run: seq<Event>): Fs
    requires IsTrace(fs, d, run)
    decreases |run|
  {
    if run == [] then fs else End(StateAfter(fs, run[0]), run[0].after, run[1..])
  }

  function DiskAfter(d: seq<Sector>, run: seq<Event>): seq<Sector>
    decreases |run|
  {
    if run == [] then d else DiskAfter(run[0].after, run[1..])
  }

  // ------------------------------------------------------------------
  // The bytes of a file

  ghost predicate IsUserFile(fs: Fs, f: nat) {
    f in fs.files && fs.files[f].inode in fs.inodes && fs.inodes[fs.files[f].inode].sector > 1
  }

  /** The file behind a handle lies on the disk. */
  ghost predicate OnDisk(fs: Fs, d: seq<Sector>, f: nat) {
    && IsUserFile(fs, f)
    && var i := fs.inodes[fs.files[f].inode]; InodeIO.Fits(d, i.data.start, i.data.length)
  }

  ghost function Bytes(fs: Fs, d: seq<Sector>, f: nat): seq<Byte>
    requires OnDisk(fs, d, f)
  {
    var i := fs.inodes[fs.files[f].inode];
    InodeIO.Flat(d, i.data.start, i.data.length)
  }

  function Overwrite(bytes: seq<Byte>, offset: nat, data: seq<Byte>): seq<Byte> {
    if data != [] && offset + |data| <= |bytes| then bytes[..offset] + data + bytes[offset + |data|..] else bytes
  }

  /** What one event makes of the bytes of inode n: a write through any handle on it changes them. */
  ghost function Step(fs: Fs, e: Event, n: nat, bytes: seq<Byte>): seq<Byte> {
    if e.Write? && e.f in fs.files && fs.files[e.f].inode == n && n in fs.inodes
    then Overwrite(bytes, e.offset, e.data[..Amount(fs.inodes[n], e.offset, e.data, e.bounceOk)])
    else bytes
  }

  ghost function Replay(fs: Fs, d: seq<Sector>, run: seq<Event>, n: nat, bytes: seq<Byte>): seq<Byte>
    requires IsTrace(fs, d, run)
    decreases |run|
  {
    if run == [] then bytes
    else Replay(StateAfter(fs, run[0]), run[0].after, run[1..], n, Step(fs, run[0], n, bytes))
  }

  // ------------------------------------------------------------------
  // Calls

  lemma FlatSame(d: seq<Sector>, d': seq<Sector>, start: nat, length: nat)
    requires InodeIO.Fits(d, start, length) && |d'| == |d|
    requires forall s :: start <= s < start + InodeIO.BytesToSectors(length) ==> d'[s] == d[s]
    ensures InodeIO.Flat(d', start, length) == InodeIO.Flat(d, start, length)
  {
  }

  /** What a create writes belonged to no live file. */
  lemma MakesSpare(fs: Fs, op: Op)
    requires Inv(fs, multiset{}) && Makes(fs, op).Some?
    ensures var (x, i) := Makes(fs, op).value;
            && Spare(fs.disk, LiveSet(fs), x, 1) && Spare(fs.disk, LiveSet(fs), i.start, Sectors(i))
            && x < |fs.freeMap| && i.start + Sectors(i) <= |fs.freeMap| && !(i.start <= x < i.start + Sectors(i))
  {
    RootOnly(fs, op.u);
    var (fs1, dir) := DirOpenRoot(fs, op.u);
    AllocateKeeps(fs1, 1, op.u.saved, multiset{dir.value});
    var (fs2, x) := Allocate(fs1, 1, op.u.saved);
    assert fs2.freeMap[x.value];
    AllocateKeeps(fs2, InodeIO.BytesToSectors(op.size), op.u.dataSaved, multiset{dir.value});
  }

  lemma CallSpares(fs: Fs, d: seq<Sector>, e: Event, y: nat, s: nat)
    requires Inv(fs, multiset{}) && e.Call? && Possible(fs, d, e)
    requires y in LiveSet(fs) && y > 1 && Owns(fs.disk, y, s) && s < |d|
    ensures |e.after| == |d| && e.after[s] == d[s]
  {
    assert !SystemData(fs.disk, s);
    if Makes(fs, e.op).Some? { MakesSpare(fs, e.op); }
  }

  lemma CallKeepsBytes(fs: Fs, d: seq<Sector>, e: Event, f: nat)
    requires Inv(fs, multiset{}) && |d| == |fs.freeMap| && e.Call? && Possible(fs, d, e) && e.op != OClose(f)
    requires OnDisk(fs, d, f)
    ensures var fs' := Apply(fs, e.op);
            && Inv(fs', multiset{}) && SameFile(fs, fs', f) && |e.after| == |fs'.freeMap| && OnDisk(fs', e.after, f)
            && Bytes(fs', e.after, f) == Bytes(fs, d, f)
  {
    HandleStays(fs, e.op, f);
    OpEvolves(fs, e.op);
    var i := fs.inodes[fs.files[f].inode];
    OpenAreLive(fs);
    assert |e.after| == |d|;
    forall s: nat | i.data.start <= s < i.data.start + InodeIO.BytesToSectors(i.data.length)
      ensures e.after[s] == d[s]
    {
      CallSpares(fs, d, e, i.sector, s);
    }
    FlatSame(d, e.after, i.data.start, i.data.length);
  }

  // ------------------------------------------------------------------
  // Writes

  lemma WriteStep(fs: Fs, d: seq<Sector>, e: Event, f: nat)
    requires Inv(fs, multiset{}) && |d| == |fs.freeMap| && e.Write? && Possible(fs, d, e) && OnDisk(fs, d, f)
    ensures |e.after| == |d| && OnDisk(fs, e.after, f)
    ensures Bytes(fs, e.after, f) == Step(fs, e, fs.files[f].inode, Bytes(fs, d, f))
  {
    var n, g := fs.files[f].inode, fs.files[e.f].inode;
    var i, j := fs.inodes[n], fs.inodes[g];
    var data := e.data[..Amount(j, e.offset, e.data, e.bounceOk)];
    if data == [] {
      InodeIO.NothingWritten(d, e.after, j.data.start, e.offset);
    } else if g == n {
      InodeIO.WriteChangesFile(d, e.after, i.data.start, i.data.length, e.offset, data);
    } else {
      OtherFile(fs, g, n);
      WritesStayInside(fs, d, e.after, j.sector, e.offset, data, i.sector);
    }
  }

  /** Two open inodes are two live files. */
  lemma OtherFile(fs: Fs, g: nat, n: nat)
    requires Inv(fs, multiset{}) && g in fs.inodes && n in fs.inodes && g != n
    ensures var i, j := fs.inodes[n], fs.inodes[g];
            && i.sector != j.sector && i.sector in LiveSet(fs) && j.sector in LiveSet(fs)
            && i.sector in fs.disk && j.sector in fs.disk && fs.disk[i.sector] == i.data && fs.disk[j.sector] == j.data
  {
    OpenAreLive(fs);
    assert InodeOk(fs, multiset{}, n) && InodeOk(fs, multiset{}, g);
  }

  // ------------------------------------------------------------------
  // Runs

  ghost predicate NeverCloses(run: seq<Event>, f: nat) {
    forall i :: 0 <= i < |run| && run[i].Call? ==> run[i].op != OClose(f)
  }

  lemma EventStep(fs: Fs, d: seq<Sector>, e: Event, f: nat)
    requires Inv(fs, multiset{}) && |d| == |fs.freeMap| && Possible(fs, d, e) && OnDisk(fs, d, f)
    requires e.Call? ==> e.op != OClose(f)
    ensures var fs' := StateAfter(fs, e);
            && Inv(fs', multiset{}) && SameFile(fs, fs', f) && |e.after| == |fs'.freeMap| && OnDisk(fs', e.after, f)
            && Bytes(fs', e.after, f) == Step(fs, e, fs.files[f].inode, Bytes(fs, d, f))
  {
    if e.Call? {
      CallKeepsBytes(fs, d, e, f);
    } else {
      WriteStep(fs, d, e, f);
      BothOk(fs, fs, f);
    }
  }

  /** While a handle on it stays open, a file's bytes are what its own writes have made of them. */
  lemma {:induction false} FileIsArray(fs: Fs, d: seq<Sector>, run: seq<Event>, f: nat)
    requires Inv(fs, multiset{}) && |d| == |fs.freeMap| && IsTrace(fs, d, run) && OnDisk(fs, d, f)
    requires NeverCloses(run, f)
    ensures var fs', d' := End(fs, d, run), DiskAfter(d, run);
            && SameFile(fs, fs', f) && OnDisk(fs', d', f)
            && Bytes(fs', d', f) == Replay(fs, d, run, fs.files[f].inode, Bytes(fs, d, f))
    decreases |run|
  {
    if run == [] {
      BothOk(fs, fs, f);
    } else {
      EventStep(fs, d, run[0], f);
      var rest := run[1..];
      assert forall i :: 0 <= i < |rest| ==> rest[i] == run[i + 1];
      FileIsArray(StateAfter(fs, run[0]), run[0].after, rest, f);
    }
  }

  /** In particular, without a write to it nothing that happens changes it. */
  lemma {:induction false} ReplayNothing(fs: Fs, d: seq<Sector>, run: seq<Event>, n: nat, bytes: seq<Byte>)
    requires IsTrace(fs, d, run) && forall i :: 0 <= i < |run| ==> run[i].Call?
    ensures Replay(fs, d, run, n, bytes) == bytes
    decreases |run|
  {
    if run != [] {
      var rest := run[1..];
      assert forall i :: 0 <= i < |rest| ==> rest[i] == run[i + 1];
      ReplayNothing(StateAfter(fs, run[0]), run[0].after, rest, n, bytes);
    }
  }

  // ------------------------------------------------------------------
  // New files

  lemma MakesCreated(fs: Fs, name: string, size: nat, u: Luck)
    requires Inv(fs, multiset{}) && Create(fs, name, size, u).1
    ensures Makes(fs, OCreate(name, size, u)).Some?
    ensures var (x, i) := Makes(fs, OCreate(name, size, u)).value; var fs' := Create(fs, name, size, u).0;
            && i.length == size && x in fs'.disk && fs'.disk[x] == i
            && Slot(x, name, true) in fs'.slots
  {
    RootOnly(fs, u);
    var (fs1, dir) := DirOpenRoot(fs, u);
    MadeIn(fs1, dir.value, name, size, u);
    MakesSpare(fs, OCreate(name, size, u));
    CreateInKeeps(fs1, dir.value, name, size, u, multiset{dir.value});
    CloseOnly(CreateIn(fs1, dir.value, name, size, u).0, dir.value);
  }

  lemma MadeIn(fs: Fs, dir: nat, name: string, size: nat, u: Luck)
    requires CreateIn(fs, dir, name, size, u).1
    ensures var (fs1, x) := Allocate(fs, 1, u.saved);
            && x.Some? && u.inodeMemory
            && var start := Allocate(fs1, InodeIO.BytesToSectors(size), u.dataSaved).1;
               && start.Some?
               && var fs', i := CreateIn(fs, dir, name, size, u).0, DiskInode(start.value, size);
                  fs'.disk == Installed(fs.disk, x.value, i) && Slot(x.value, name, true) in fs'.slots
  {
    var (fs1, x) := Allocate(fs, 1, u.saved);
    var (fs2, made) := InodeCreate(fs1, x.value, size, u.inodeMemory, u.dataSaved);
    var slots := DirAdd(fs2, dir, name, x.value, u).0.slots;
    assert slots[FreeSlot(fs2.slots, 0, u.scanReads)] == Slot(x.value, name, true);
  }

  /** A new file is named, has the size asked for and is all zeros. */
  lemma NewFileIsZero(fs: Fs, d: seq<Sector>, e: Event)
    requires Inv(fs, multiset{}) && |d| == |fs.freeMap| && Possible(fs, d, e)
    requires e.Call? && e.op.OCreate? && Create(fs, e.op.name, e.op.size, e.op.u).1
    ensures Makes(fs, e.op).Some?
    ensures var (x, i) := Makes(fs, e.op).value; var fs' := Apply(fs, e.op);
            && Slot(x, e.op.name, true) in fs'.slots && x in fs'.disk && fs'.disk[x] == i && i.length == e.op.size
            && InodeIO.Fits(e.after, i.start, i.length)
            && forall p :: 0 <= p < i.length ==> InodeIO.Flat(e.after, i.start, i.length)[p] == 0
  {
    MakesCreated(fs, e.op.name, e.op.size, e.op.u);
    MakesSpare(fs, e.op);
    var (x, i) := Makes(fs, e.op).value;
    forall s: nat | i.start <= s < i.start + Sectors(i) ensures e.after[s] == ZeroSector() {
      NotSystem(fs, i.start, Sectors(i), s);
    }
  }

  lemma NotSystem(fs: Fs, start: nat, cnt: nat, s: nat)
    requires Spare(fs.disk, LiveSet(fs), start, cnt) && start <= s < start + cnt
    ensures !SystemData(fs.disk, s)
  {
  }
}
