/** inode_read_at and inode_write_at: chunked sector transfers through a bounce buffer refine a flat
    array of bytes. */
module InodeIO {

  type Byte = n: int | 0 <= n < 256
  type Sector = s: seq<Byte> | |s| == 512 witness seq(512, i => 0)

  class Disk {
    var sectors: seq<Sector>

    method Read(i: nat) returns (s: Sector)
      requires i < |sectors|
      ensures s == sectors[i]
    {
      s := sectors[i];
    }

    method Write(i: nat, s: Sector)
      requires i < |sectors|
      modifies this
      ensures sectors == old(sectors)[i := s]
    {
      sectors := sectors[i := s];
    }
  }

  datatype Inode = Inode(start: nat, length: nat, denyWriteCnt: nat)

  function BytesToSectors(length: nat): nat { (length + 511) / 512 }

  /** The extent that byte_to_sector addresses lies on the disk. */
  predicate Fits(d: seq<Sector>, start: nat, length: nat) { start + BytesToSectors(length) <= |d| }

  /** The byte at position p of a file. */
  function ByteAt(d: seq<Sector>, start: nat, p: nat): Byte
    requires start + p / 512 < |d|
  {
    d[start + p / 512][p % 512]
  }

  /** A file as a flat array of bytes. */
  function Flat(d: seq<Sector>, start: nat, length: nat): (f: seq<Byte>)
    requires Fits(d, start, length)
    ensures |f| == length
  {
    seq(length, p requires 0 <= p < length => ByteAt(d, start, p))
  }

  /** What a disk cell holds once `data` has been written at `offset` of the file at `start`. */
  function CellAfter(d: seq<Sector>, start: nat, offset: nat, data: seq<Byte>, i: nat, j: nat): Byte
    requires i < |d| && j < 512
  {
    var p := (i - start) * 512 + j - offset;
    if 0 <= p < |data| then data[p] else d[i][j]
  }

  /** Exactly the bytes at offset .. offset + |data| of the file have changed, to `data`. */
  ghost predicate WrittenTo(d: seq<Sector>, d': seq<Sector>, start: nat, offset: nat, data: seq<Byte>) {
    && |d'| == |d|
    && forall i, j :: 0 <= i < |d| && 0 <= j < 512 ==> d'[i][j] == CellAfter(d, start, offset, data, i, j)
  }

  /** Bytes between offset and the end of the file or of the request. */
  function Available(length: nat, size: int, offset: nat): nat {
    var n := if size < length - offset then size else length - offset;
    if n < 0 then 0 else n
  }

  /** How many bytes a transfer moves: all that are available, unless the bounce buffer cannot be
      allocated; then only the whole sectors before the first partial one. */
  function Moved(length: nat, size: int, offset: nat, bounceOk: bool): nat {
    var n := Available(length, size, offset);
    if bounceOk then n else if offset % 512 == 0 then n / 512 * 512 else 0
  }

  /** That is as much as can be: everything up to the end of the file and of the request or, without a bounce
      buffer, as many whole sectors from a sector boundary. */
  lemma MovedIsMost(length: nat, size: int, offset: nat, bounceOk: bool, m: nat)
    ensures var n := Moved(length, size, offset, bounceOk);
            && (n > 0 ==> n <= size && offset + n <= length)
            && (!bounceOk ==> n % 512 == 0 && (n > 0 ==> offset % 512 == 0))
            && (m <= size && offset + m <= length && (bounceOk || (m % 512 == 0 && offset % 512 == 0)) ==> m <= n)
  {
  }

  // ------------------------------------------------------------------

  function Patch(s: Sector, ofs: nat, data: seq<Byte>): (r: Sector)
    requires ofs + |data| <= 512
  {
    s[..ofs] + data + s[ofs + |data|..]
  }

  lemma WholePatch(s: Sector, data: seq<Byte>)
    requires |data| == 512
    ensures Patch(s, 0, data) == data
  {
  }

  /** Until a bounce buffer has been needed, whole sectors from a sector boundary have been moved. */
  ghost predicate Progress(offset: nat, done: nat, bounced: bool) {
    bounced || (done % 512 == 0 && (done > 0 ==> offset % 512 == 0))
  }

  lemma WholeChunk(offset: nat, done: nat, bounced: bool)
    requires Progress(offset, done, bounced) && (offset + done) % 512 == 0
    ensures Progress(offset, done + 512, bounced)
  {
  }

  /** Where a transfer stops for want of a bounce buffer. */
  lemma StopsAtPartial(length: nat, size: int, offset: nat, done: nat, chunk: nat)
    requires var n := Available(length, size, offset);
             && done < n && Progress(offset, done, false)
             && 0 < chunk <= n - done && chunk <= 512 && (chunk == n - done || chunk == 512 - (offset + done) % 512)
             && ((offset + done) % 512 != 0 || chunk != 512)
    ensures done == Moved(length, size, offset, false)
  {
  }

  /** Writing the next chunk into its sector extends what has been written. */
  lemma ChunkExtends(d: seq<Sector>, m: seq<Sector>, start: nat, offset: nat, data: seq<Byte>, w: nat, c: nat,
        i: nat, o: nat)
    requires w + c <= |data| && WrittenTo(d, m, start, offset, data[..w])
    requires i == start + (offset + w) / 512 < |d| && o == (offset + w) % 512 && o + c <= 512
    ensures WrittenTo(d, m[i := Patch(m[i], o, data[w..w + c])], start, offset, data[..w + c])
  {
    var d' := m[i := Patch(m[i], o, data[w..w + c])];
    forall k, j | 0 <= k < |d| && 0 <= j < 512
      ensures d'[k][j] == CellAfter(d, start, offset, data[..w + c], k, j)
    {
      assert m[k][j] == CellAfter(d, start, offset, data[..w], k, j);
      var p := (k - start) * 512 + j - offset;
      if k == i {
        assert p - w == j - o;
      }
    }
  }

  /** The bounce-buffer half of inode_write_at.  The sector is always read first: starting from
      zeros would need a whole sector of data, which goes to the disk directly. */
  method WriteBounced(disk: Disk, sector: nat, sectorOfs: nat, data: seq<Byte>)
    requires sector < |disk.sectors| && sectorOfs + |data| <= 512 && |data| < 512
    modifies disk
    ensures disk.sectors == old(disk.sectors)[sector := Patch(old(disk.sectors)[sector], sectorOfs, data)]
  {
    var sectorLeft := 512 - sectorOfs;
    var bounce: Sector;
    if sectorOfs > 0 || |data| < sectorLeft {
      bounce := disk.Read(sector);
    } else {
      assert false;
    }
    disk.Write(sector, Patch(bounce, sectorOfs, data));
  }

  /** A whole sector is written directly, part of one through the bounce buffer. */
  method WriteChunk(disk: Disk, sector: nat, sectorOfs: nat, data: seq<Byte>)
    requires sector < |disk.sectors| && sectorOfs + |data| <= 512
    modifies disk
    ensures disk.sectors == old(disk.sectors)[sector := Patch(old(disk.sectors)[sector], sectorOfs, data)]
  {
    if sectorOfs == 0 && |data| == 512 {
      WholePatch(disk.sectors[sector], data);
      disk.Write(sector, data);
    } else {
      WriteBounced(disk, sector, sectorOfs, data);
    }
  }

  method WriteAt(disk: Disk, inode: Inode, buffer: seq<Byte>, size: int, offset: nat, bounceOk: bool)
    returns (written: nat)
    requires Fits(disk.sectors, inode.start, inode.length) && size <= |buffer|
    modifies disk
    ensures written == if inode.denyWriteCnt > 0 then 0 else Moved(inode.length, size, offset, bounceOk)
    ensures written <= |buffer|
    ensures WrittenTo(old(disk.sectors), disk.sectors, inode.start, offset, buffer[..written])
  {
    written := 0;
    if inode.denyWriteCnt > 0 {
      return;
    }
    ghost var n := Available(inode.length, size, offset);
    ghost var d := disk.sectors;
    var left, pos, bounced := size, offset, false;
    while left > 0
      invariant left == size - written && pos == offset + written && written <= n
      invariant bounced ==> bounceOk
      invariant Progress(offset, written, bounced)
      invariant WrittenTo(d, disk.sectors, inode.start, offset, buffer[..written])
    {
      var sectorOfs := pos % 512;
      var inodeLeft, sectorLeft := inode.length - pos, 512 - sectorOfs;
      var minLeft := if inodeLeft < sectorLeft then inodeLeft else sectorLeft;
      var chunk := if left < minLeft then left else minLeft;
      if chunk <= 0 {
        break;
      }
      var sector := inode.start + pos / 512;
      if sectorOfs == 0 && chunk == 512 {
        WholeChunk(offset, written, bounced);
      } else if !bounced {
        if !bounceOk {
          StopsAtPartial(inode.length, size, offset, written, chunk);
          break;
        }
        bounced := true;
      }
      ChunkExtends(d, disk.sectors, inode.start, offset, buffer, written, chunk, sector, sectorOfs);
      WriteChunk(disk, sector, sectorOfs, buffer[written..written + chunk]);
      left, pos, written := left - chunk, pos + chunk, written + chunk;
    }
  }

  lemma SectorHolds(d: seq<Sector>, start: nat, length: nat, pos: nat, chunk: nat)
    requires Fits(d, start, length) && pos + chunk <= length && 0 < chunk && pos % 512 + chunk <= 512
    ensures start + pos / 512 < |d|
    ensures d[start + pos / 512][pos % 512..pos % 512 + chunk] == Flat(d, start, length)[pos..pos + chunk]
  {
    var i, o, f := start + pos / 512, pos % 512, Flat(d, start, length);
    var a, b := f[pos..pos + chunk], d[i][o..o + chunk];
    forall k | 0 <= k < chunk ensures a[k] == b[k] {
      assert (pos + k) / 512 == pos / 512 && (pos + k) % 512 == o + k;
    }
  }

  /** One turn of inode_read_at's loop, once it is known how much to copy. */
  method ReadChunk(disk: Disk, inode: Inode, buffer: array<Byte>, read: nat, pos: nat, chunk: nat)
    requires Fits(disk.sectors, inode.start, inode.length) && 0 < chunk && pos + chunk <= inode.length
    requires pos % 512 + chunk <= 512 && read + chunk <= buffer.Length
    modifies buffer
    ensures var file := Flat(disk.sectors, inode.start, inode.length);
            forall k :: 0 <= k < buffer.Length ==>
              buffer[k] == if read <= k < read + chunk then file[pos + (k - read)] else old(buffer[k])
  {
    var sector, sectorOfs := inode.start + pos / 512, pos % 512;
    SectorHolds(disk.sectors, inode.start, inode.length, pos, chunk);
    ghost var piece := Flat(disk.sectors, inode.start, inode.length)[pos..pos + chunk];
    if sectorOfs == 0 && chunk == 512 {
      ReadDirect(disk, sector, buffer, read);
      assert piece == disk.sectors[sector];
    } else {
      ReadBounced(disk, sector, sectorOfs, chunk, buffer, read);
      assert piece == disk.sectors[sector][sectorOfs..sectorOfs + chunk];
    }
  }

  method ReadAt(disk: Disk, inode: Inode, buffer: array<Byte>, size: int, offset: nat, bounceOk: bool)
    returns (read: nat)
    requires Fits(disk.sectors, inode.start, inode.length) && size <= buffer.Length
    modifies buffer
    ensures read == Moved(inode.length, size, offset, bounceOk) <= buffer.Length
    ensures read > 0 ==> offset + read <= inode.length
    ensures var file := Flat(disk.sectors, inode.start, inode.length);
            forall k :: 0 <= k < buffer.Length ==> buffer[k] == if k < read then file[offset + k] else old(buffer[k])
  {
    read := 0;
    ghost var n := Available(inode.length, size, offset);
    ghost var file := Flat(disk.sectors, inode.start, inode.length);
    var left, pos, bounced := size, offset, false;
    while left > 0
      invariant left == size - read && pos == offset + read && read <= n
      invariant bounced ==> bounceOk
      invariant Progress(offset, read, bounced)
      invariant forall k :: 0 <= k < buffer.Length ==> buffer[k] == if k < read then file[offset + k]
                else old(buffer[k])
    {
      var sectorOfs := pos % 512;
      var inodeLeft, sectorLeft := inode.length - pos, 512 - sectorOfs;
      var minLeft := if inodeLeft < sectorLeft then inodeLeft else sectorLeft;
      var chunk := if left < minLeft then left else minLeft;
      if chunk <= 0 {
        break;
      }
      if sectorOfs == 0 && chunk == 512 {
        WholeChunk(offset, read, bounced);
      } else if !bounced {
        if !bounceOk {
          StopsAtPartial(inode.length, size, offset, read, chunk);
          break;
        }
        bounced := true;
      }
      ReadChunk(disk, inode, buffer, read, pos, chunk);
      left, pos, read := left - chunk, pos + chunk, read + chunk;
    }
  }

  method ReadDirect(disk: Disk, sector: nat, buffer: array<Byte>, at: nat)
    requires sector < |disk.sectors| && at + 512 <= buffer.Length
    modifies buffer
    ensures forall k :: 0 <= k < buffer.Length ==>
              buffer[k] == if at <= k < at + 512 then disk.sectors[sector][k - at] else old(buffer[k])
  {
    var bytes := disk.Read(sector);
    forall k | at <= k < at + 512 {
      buffer[k] := bytes[k - at];
    }
  }

  method ReadBounced(disk: Disk, sector: nat, sectorOfs: nat, chunk: nat, buffer: array<Byte>, at: nat)
    requires sector < |disk.sectors| && sectorOfs + chunk <= 512 && at + chunk <= buffer.Length
    modifies buffer
    ensures var piece := disk.sectors[sector][sectorOfs..sectorOfs + chunk];
            forall k :: 0 <= k < buffer.Length ==>
              buffer[k] == if at <= k < at + chunk then piece[k - at] else old(buffer[k])
  {
    var bounce := disk.Read(sector);
    forall k | at <= k < at + chunk {
      buffer[k] := bounce[sectorOfs + k - at];
    }
  }

  // ------------------------------------------------------------------
  // What a write means for files

  lemma CellOfByte(d: seq<Sector>, d': seq<Sector>, start: nat, offset: nat, data: seq<Byte>, start': nat, p: nat)
    requires WrittenTo(d, d', start, offset, data) && start' + p / 512 < |d|
    ensures ByteAt(d', start', p) == CellAfter(d, start, offset, data, start' + p / 512, p % 512)
  {
  }

  /** A write replaces exactly its bytes of the file ... */
  lemma WriteChangesFile(d: seq<Sector>, d': seq<Sector>, start: nat, length: nat, offset: nat, data: seq<Byte>)
    requires Fits(d, start, length) && offset + |data| <= length && WrittenTo(d, d', start, offset, data)
    ensures Fits(d', start, length)
    ensures var f := Flat(d, start, length);
            Flat(d', start, length) == f[..offset] + data + f[offset + |data|..]
  {
    var f, f' := Flat(d, start, length), Flat(d', start, length);
    var g := f[..offset] + data + f[offset + |data|..];
    forall p | 0 <= p < length ensures f'[p] == g[p] {
      CellOfByte(d, d', start, offset, data, start, p);
    }
  }

  /** ... and leaves every file that shares no sector with it, and every other sector, as it was. */
  lemma WriteSparesOthers(d: seq<Sector>, d': seq<Sector>, start: nat, length: nat, offset: nat, data: seq<Byte>,
                          start': nat, length': nat)
    requires Fits(d, start, length) && Fits(d, start', length') && offset + |data| <= length
    requires WrittenTo(d, d', start, offset, data)
    requires start' + BytesToSectors(length') <= start || start + BytesToSectors(length) <= start'
    ensures Fits(d', start', length') && Flat(d', start', length') == Flat(d, start', length')
    ensures forall i :: 0 <= i < |d| && !(start <= i < start + BytesToSectors(length)) ==> d'[i] == d[i]
  {
    var f, f' := Flat(d, start', length'), Flat(d', start', length');
    forall p | 0 <= p < length' ensures f'[p] == f[p] {
      CellOfByte(d, d', start, offset, data, start', p);
    }
    forall i | 0 <= i < |d| && !(start <= i < start + BytesToSectors(length)) ensures d'[i] == d[i] {
      forall j | 0 <= j < 512 ensures d'[i][j] == d[i][j] {
        assert d'[i][j] == CellAfter(d, start, offset, data, i, j);
      }
    }
  }

  lemma NothingWritten(d: seq<Sector>, d': seq<Sector>, start: nat, offset: nat)
    requires WrittenTo(d, d', start, offset, [])
    ensures d' == d
  {
    forall s | 0 <= s < |d| ensures d'[s] == d[s] {
      forall j | 0 <= j < 512 ensures d'[s][j] == d[s][j] {
        assert d'[s][j] == CellAfter(d, start, offset, [], s, j);
      }
    }
  }

  /** Reading back gives the bytes that were written and after them those that were there before,
      whether or not writes are denied and whichever bounce buffer cannot be allocated. */
  method RoundTrip(disk: Disk, inode: Inode, data: seq<Byte>, buffer: array<Byte>, offset: nat,
                   writeBounce: bool, readBounce: bool) returns (w: nat, n: nat)
    requires Fits(disk.sectors, inode.start, inode.length) && buffer.Length == |data|
    modifies disk, buffer
    ensures w == if inode.denyWriteCnt > 0 then 0 else Moved(inode.length, |data|, offset, writeBounce)
    ensures n == Moved(inode.length, |data|, offset, readBounce) <= buffer.Length
    ensures n > 0 ==> offset + n <= inode.length
    ensures var file := Flat(old(disk.sectors), inode.start, inode.length);
            forall k :: 0 <= k < |data| ==>
              buffer[k] == if k >= n then old(buffer[k]) else if k < w then data[k] else file[offset + k]
  {
    w := WriteAt(disk, inode, data, |data|, offset, writeBounce);
    n := ReadAt(disk, inode, buffer, |data|, offset, readBounce);
    if w > 0 {
      WriteChangesFile(old(disk.sectors), disk.sectors, inode.start, inode.length, offset, data[..w]);
    } else {
      NothingWritten(old(disk.sectors), disk.sectors, inode.start, offset);
    }
  }
}
