/** Byte access to a device that reads and writes whole sectors (qemu/block.c:894-1085). */
module BlockIo {
  import opened Common
  import opened Bytes

  const SECTORS_PER_DIRTY_CHUNK: nat := 2048

  /** disk with data at offset. */
  function Patched(disk: seq<Byte>, offset: nat, data: seq<Byte>): seq<Byte>
    requires offset + |data| <= |disk|
  {
    disk[..offset] + data + disk[offset + |data|..]
  }

  /** Byte by byte: now is disk with data at offset. */
  ghost predicate Overwritten(disk: seq<Byte>, now: seq<Byte>, offset: nat, data: seq<Byte>) {
    && |now| == |disk|
    && forall k :: 0 <= k < |disk| ==> now[k] == if offset <= k < offset + |data| then data[k - offset] else disk[k]
  }

  lemma PatchedOverwrites(disk: seq<Byte>, offset: nat, data: seq<Byte>)
    requires offset + |data| <= |disk|
    ensures Overwritten(disk, Patched(disk, offset, data), offset, data)
  {}

  /** Writing twice in a row is writing once. */
  lemma PatchedTwice(disk: seq<Byte>, offset: nat, a: seq<Byte>, b: seq<Byte>)
    requires offset + |a| + |b| <= |disk|
    ensures Patched(Patched(disk, offset, a), offset + |a|, b) == Patched(disk, offset, a + b)
  {}

  /** Writing a sector that was read and changed at k writes only the change. */
  lemma PatchedInside(disk: seq<Byte>, start: nat, len: nat, k: nat, a: seq<Byte>)
    requires start + len <= |disk| && k + |a| <= len
    ensures Patched(disk, start, Patched(disk[start..start + len], k, a)) == Patched(disk, start + k, a)
  {}

  function CountTrue(bits: seq<bool>): nat {
    if bits == [] then 0 else CountTrue(bits[..|bits| - 1]) + if bits[|bits| - 1] then 1 else 0
  }

  ghost function Marks(bits: seq<bool>): set<nat> { set i: nat | i < |bits| && bits[i] }

  /** The count is the number of marks. */
  lemma {:induction false} CountIsMarks(bits: seq<bool>)
    ensures CountTrue(bits) == |Marks(bits)|
  {
    if bits != [] {
      var n := |bits| - 1;
      CountIsMarks(bits[..n]);
      if bits[n] {
        assert Marks(bits) == Marks(bits[..n]) + {n};
      } else {
        assert Marks(bits) == Marks(bits[..n]);
      }
    } else {
      assert Marks(bits) == {};
    }
  }

  lemma {:induction false} CountTrueUpdate(bits: seq<bool>, i: nat, v: bool)
    requires i < |bits| && bits[i] != v
    ensures CountTrue(bits[i := v]) == CountTrue(bits) + if v then 1 else -1
  {
    var n := |bits| - 1;
    if i < n {
      assert bits[i := v][..n] == bits[..n][i := v];
      CountTrueUpdate(bits[..n], i, v);
    } else {
      assert bits[i := v][..n] == bits[..n];
    }
  }

  /** On a disk of whole sectors the last, partial sector is there as a whole or not at all. */
  lemma WholeSectors(size: nat, sector: nat, n: nat, left: nat)
    requires size % SECTOR == 0 && left < SECTOR
    ensures (sector + n) * SECTOR == sector * SECTOR + n * SECTOR
    ensures (sector + n + 1) * SECTOR == sector * SECTOR + n * SECTOR + SECTOR
    ensures left > 0 ==> (sector * SECTOR + (n * SECTOR + left) <= size <==> (sector + n + 1) * SECTOR <= size)
  {}

  lemma JoinSlices(disk: seq<Byte>, a: nat, b: nat, left: nat, n: nat)
    requires a <= b && left <= n && b + n <= |disk|
    ensures disk[a..b] + disk[b..b + n][..left] == disk[a..b + left]
  {}

  /** A range inside one sector lies on the disk exactly when the sector does. */
  lemma HeadFits(size: nat, offset: nat, len: nat)
    requires size % SECTOR == 0 && 0 < len <= SECTOR - offset % SECTOR
    ensures (offset / SECTOR + 1) * SECTOR <= size <==> offset + len <= size
  {}

  lemma HeadSlice(disk: seq<Byte>, offset: nat, len: nat)
    requires len <= SECTOR - offset % SECTOR && (offset / SECTOR + 1) * SECTOR <= |disk|
    ensures var s := offset / SECTOR;
      disk[s * SECTOR..(s + 1) * SECTOR][offset % SECTOR..offset % SECTOR + len] == disk[offset..offset + len]
  {
    var s, k := offset / SECTOR * SECTOR, offset % SECTOR;
    assert offset == s + k;
    SliceOfSlice(disk, s, s + SECTOR, k, k + len);
  }

  class BlockDevice {
    var disk: seq<Byte>
    var readOnly: bool
    var dirtyBitmap: seq<bool>   // one bit per chunk of sectors
    var dirtyCount: nat

    ghost predicate Valid()
      reads this
    {
      && |disk| % SECTOR == 0
      && SECTORS_PER_DIRTY_CHUNK * |dirtyBitmap| >= |disk| / SECTOR
      && dirtyCount == CountTrue(dirtyBitmap)
    }

    /** bdrv_read */
    method Read(sector: nat, n: nat) returns (ret: int, buf: seq<Byte>)
      ensures ret == 0 <==> (sector + n) * SECTOR <= |disk|
      ensures ret == 0 ==> buf == disk[sector * SECTOR..(sector + n) * SECTOR]
      ensures ret == 0 || ret == -EIO
    {
      if sector * SECTOR > |disk| || |disk| - sector * SECTOR < n * SECTOR { return -EIO, []; }
      return 0, disk[sector * SECTOR..(sector + n) * SECTOR];
    }

    /** set_dirty_bitmap: every chunk the range touches gets the value.  For an empty range that is the chunk of its
        start, unless the start is the first sector of a chunk other than chunk 0. */
    method SetDirty(sector: nat, n: nat, dirty: bool)
      requires dirtyCount == CountTrue(dirtyBitmap) && LastChunk(sector, n) < |dirtyBitmap|
      modifies this`dirtyBitmap, this`dirtyCount
      ensures dirtyCount == CountTrue(dirtyBitmap) && |dirtyBitmap| == |old(dirtyBitmap)|
      ensures n > 0 ==> forall c :: 0 <= c < |dirtyBitmap| ==>
                dirtyBitmap[c] == if Touches(sector, n, c) then dirty else old(dirtyBitmap)[c]
      ensures n == 0 ==> forall c :: 0 <= c < |dirtyBitmap| ==>
                dirtyBitmap[c] == if c == sector / SECTORS_PER_DIRTY_CHUNK
                    && (sector % SECTORS_PER_DIRTY_CHUNK != 0 || sector == 0)
                                  then dirty else old(dirtyBitmap)[c]
    {
      var first, last := sector / SECTORS_PER_DIRTY_CHUNK, LastChunk(sector, n);
      var start := first;
      LastChunkOf(sector, n);
      while start <= last
        invariant first <= start && (start <= last + 1 || start == first)
        invariant |dirtyBitmap| == |old(dirtyBitmap)| && dirtyCount == CountTrue(dirtyBitmap)
        invariant forall c :: 0 <= c < |dirtyBitmap| ==>
                    dirtyBitmap[c] == if first <= c < start then dirty else old(dirtyBitmap)[c]
      {
        if dirtyBitmap[start] != dirty {
          CountTrueUpdate(dirtyBitmap, start, dirty);
          dirtyBitmap, dirtyCount := dirtyBitmap[start := dirty], dirtyCount + if dirty then 1 else -1;
        }
        start := start + 1;
      }
      if n > 0 {
        forall c | 0 <= c < |dirtyBitmap| ensures Touches(sector, n, c) <==> first <= c <= last {
          ChunksTouched(sector, n, c);
        }
      }
    }

    /** bdrv_write */
    method Write(sector: nat, buf: seq<Byte>, n: nat) returns (ret: int)
      requires Valid() && |buf| == n * SECTOR && n > 0
      modifies this`disk, this`dirtyBitmap, this`dirtyCount
      ensures Valid() && |disk| == |old(disk)|
      ensures ret == 0 <==> !readOnly && (sector + n) * SECTOR <= |disk|
      ensures if ret == 0 then disk == Patched(old(disk), sector * SECTOR, buf) else ret < 0 && disk == old(disk)
      ensures ret == 0 ==> Overwritten(old(disk), disk, 512 * sector, buf)
      ensures MarkedBy(old(dirtyBitmap), dirtyBitmap, 512 * sector, if ret == 0 then 512 * n else 0)
      ensures Tracked(old(disk), disk, old(dirtyBitmap), dirtyBitmap)
    {
      hide MarkedBy, Tracked;
      MarkedNothing(dirtyBitmap, 512 * sector);
      NothingToTrack(disk, dirtyBitmap);
      if readOnly { return -EACCES; }
      if sector * SECTOR > |disk| || |disk| - sector * SECTOR < n * SECTOR { return -EIO; }
      SetDirty(sector, n, true);
      SectorsMarked(old(dirtyBitmap), dirtyBitmap, sector, n);
      PatchedOverwrites(disk, sector * SECTOR, buf);
      disk := Patched(disk, sector * SECTOR, buf);
      MarkedTracks(old(disk), disk, old(dirtyBitmap), dirtyBitmap, 512 * sector, buf);
      return 0;
    }

    /** The part of bdrv_pread after the first, unaligned piece. */
    method PreadAligned(sector: nat, count: nat) returns (ret: int, buf: seq<Byte>)
      requires Valid() && count > 0
      ensures ret == 0 <==> sector * SECTOR + count <= |disk|
      ensures ret == 0 ==> buf == disk[sector * SECTOR..sector * SECTOR + count]
      ensures ret == 0 || ret == -EIO
    {
      var n := count / SECTOR;
      buf := [];
      var tmp;
      var left := count - n * SECTOR;
      WholeSectors(|disk|, sector, n, left);
      if n > 0 {
        ret, buf := Read(sector, n);
        if ret < 0 { return; }
      }
      if left > 0 {
        ret, tmp := Read(sector + n, 1);
        if ret < 0 { return; }
        JoinSlices(disk, sector * SECTOR, (sector + n) * SECTOR, left, SECTOR);
        buf := buf + tmp[..left];
      }
      ret := 0;
    }

    /** bdrv_pread refines a flat byte array: it fails exactly when the range leaves the device. */
    method Pread(offset: nat, count1: nat) returns (ret: int, buf: seq<Byte>)
      requires Valid()
      ensures ret == count1 <==> count1 == 0 || offset + count1 <= |disk|
      ensures ret == count1 && count1 > 0 ==> buf == disk[offset..offset + count1]
      ensures ret == count1 || ret == -EIO
    {
      HeadAligns(offset);
      buf := [];
      var len := (SECTOR - offset % SECTOR) % SECTOR;
      if len > count1 { len := count1; }
      var sector, tmp := offset / SECTOR, [];
      if len > 0 {
        HeadFits(|disk|, offset, len);
        ret, tmp := Read(sector, 1);
        if ret < 0 { return; }
        HeadSlice(disk, offset, len);
        buf := tmp[offset % SECTOR..offset % SECTOR + len];
        if len == count1 { return count1, buf; }
        sector := sector + 1;
      }
      ret := count1;
      if len < count1 {
        var e;
        e, tmp := PreadAligned(sector, count1 - len);
        if e < 0 { return e, buf; }
        buf := buf + tmp;
      }
    }

    /** One read-modify-write of part of a sector. */
    method PatchSector(sector: nat, k: nat, part: seq<Byte>) returns (ret: int)
      requires Valid() && k + |part| <= SECTOR && part != []
      modifies this`disk, this`dirtyBitmap, this`dirtyCount
      ensures Valid() && |disk| == |old(disk)|
      ensures ret == 0 <==> !readOnly && (sector + 1) * SECTOR <= |disk|
      ensures if ret == 0 then disk == Patched(old(disk), sector * SECTOR + k, part) else ret < 0 && disk == old(disk)
      ensures MarkedBy(old(dirtyBitmap), dirtyBitmap, sector * SECTOR + k, if ret == 0 then |part| else 0)
    {
      hide MarkedBy, Tracked, Overwritten;
      MarkedNothing(dirtyBitmap, sector * SECTOR + k);
      var tmp;
      ret, tmp := Read(sector, 1);
      if ret < 0 { return; }
      PatchedInside(disk, sector * SECTOR, SECTOR, k, part);
      ret := Write(sector, Patched(tmp, k, part), 1);
      if ret == 0 { PartMarked(old(dirtyBitmap), dirtyBitmap, sector, k, |part|); } else {
        MarkedNowhere(old(dirtyBitmap), dirtyBitmap, 512 * sector, sector * SECTOR + k);
      }
    }

    /** The part of bdrv_pwrite after the first, unaligned piece: whole sectors in place, then the
        beginning of a last sector. */
    method PwriteAligned(sector: nat, data: seq<Byte>) returns (ret: int, ghost done: nat)
      requires Valid()
      modifies this`disk, this`dirtyBitmap, this`dirtyCount
      ensures Valid() && |disk| == |old(disk)|
      ensures ret == |data| <==> data == [] || (!readOnly && sector * SECTOR + |data| <= |disk|)
      ensures (ret == |data| && done == |data|) || (ret < 0 && done < |data|)
      ensures (done == 0 || sector * SECTOR + done <= |disk|)
          && disk == Splice(old(disk), sector * SECTOR, data[..done])
      ensures MarkedBy(old(dirtyBitmap), dirtyBitmap, sector * SECTOR, done)
    {
      hide Tracked, MarkedBy, Overwritten, Splice;
      ghost var disk0, bits0 := disk, dirtyBitmap;
      done := 0;
      SpliceNothing(disk, sector * SECTOR, data);
      MarkedNothing(dirtyBitmap, sector * SECTOR);
      var n := |data| / SECTOR;
      WholeSectors(|disk|, sector, n, |data| - n * SECTOR);
      if n > 0 {
        ret := Write(sector, data[..n * SECTOR], n);
        if ret < 0 { return; }
        SpliceFits(disk0, sector * SECTOR, data[..n * SECTOR]);
        done := n * SECTOR;
      }
      if n * SECTOR < |data| {
        ghost var disk1, bits1 := disk, dirtyBitmap;
        ret := PatchSector(sector + n, 0, data[n * SECTOR..]);
        MarkedTwice(bits0, bits1, dirtyBitmap, sector * SECTOR, done, if ret == 0 then |data| - done else 0);
        if ret < 0 { return; }
        SpliceTwice(disk0, disk1, sector * SECTOR, data, n * SECTOR);
        done := |data|;
      }
      ret := |data|;
      assert data[..|data|] == data;
    }

    /** bdrv_pwrite refines a flat byte array.  When it fails, only a beginning of the data has
        been written, if anything. */
    method Pwrite(offset: nat, data: seq<Byte>) returns (ret: int, ghost done: nat)
      requires Valid()
      modifies this`disk, this`dirtyBitmap, this`dirtyCount
      ensures Valid() && |disk| == |old(disk)|
      ensures ret == |data| <==> data == [] || (!readOnly && offset + |data| <= |disk|)
      ensures (ret == |data| && done == |data|) || (ret < 0 && done < |data|)
      ensures Overwritten(old(disk), disk, offset, data[..done])
      ensures MarkedBy(old(dirtyBitmap), dirtyBitmap, offset, done)
      ensures Tracked(old(disk), disk, old(dirtyBitmap), dirtyBitmap)
    {
      ret, done := PwriteSplices(offset, data);
      SpliceOverwrites(old(disk), offset, data[..done]);
      MarkedTracks(old(disk), disk, old(dirtyBitmap), dirtyBitmap, offset, data[..done]);
    }

    /** The body of bdrv_pwrite. */
    method PwriteSplices(offset: nat, data: seq<Byte>) returns (ret: int, ghost done: nat)
      requires Valid()
      modifies this`disk, this`dirtyBitmap, this`dirtyCount
      ensures Valid() && |disk| == |old(disk)|
      ensures ret == |data| <==> data == [] || (!readOnly && offset + |data| <= |disk|)
      ensures (ret == |data| && done == |data|) || (ret < 0 && done < |data|)
      ensures (done == 0 || offset + done <= |disk|) && disk == Splice(old(disk), offset, data[..done])
      ensures MarkedBy(old(dirtyBitmap), dirtyBitmap, offset, done)
    {
      hide Tracked, MarkedBy, Overwritten, Splice;
      ghost var disk0, bits0 := disk, dirtyBitmap;
      done := 0;
      SpliceNothing(disk, offset, data);
      MarkedNothing(dirtyBitmap, offset);
      HeadAligns(offset);
      var len := (SECTOR - offset % SECTOR) % SECTOR;
      if len > |data| { len := |data|; }
      var sector := offset / SECTOR;
      if len == 0 {
        if data != [] { ret, done := PwriteAligned(sector, data); } else { ret := 0; }
        return;
      }
      ret := PatchSector(sector, offset % SECTOR, data[..len]);
      if ret < 0 { return; }
      SpliceFits(disk0, offset, data[..len]);
      done := len;
      if len == |data| { return |data|, done; }
      ghost var disk1, bits1 := disk, dirtyBitmap;
      ghost var more;
      ret, more := PwriteAligned(sector + 1, data[len..]);
      MarkedTwice(bits0, bits1, dirtyBitmap, offset, len, more);
      SpliceThen(disk0, disk1, offset, data, len, more);
      done := len + more;
      if ret >= 0 { ret := |data|; }
    }
  }

  lemma HeadAligns(offset: nat)
    ensures var len := (SECTOR - offset % SECTOR) % SECTOR;
            (offset / SECTOR + if len > 0 then 1 else 0) * SECTOR == offset + len
  {}

  /** Patched, for ranges that may leave the disk. */
  ghost function Splice(disk: seq<Byte>, offset: nat, data: seq<Byte>): seq<Byte> {
    if offset + |data| <= |disk| then Patched(disk, offset, data) else disk
  }

  lemma SpliceNothing(disk: seq<Byte>, offset: nat, data: seq<Byte>)
    ensures Splice(disk, offset, data[..0]) == disk
  {}

  lemma SpliceOverwrites(disk: seq<Byte>, offset: nat, data: seq<Byte>)
    requires data == [] || offset + |data| <= |disk|
    ensures Overwritten(disk, Splice(disk, offset, data), offset, data)
  {
    if offset + |data| <= |disk| { PatchedOverwrites(disk, offset, data); }
  }

  /** What bdrv_pwrite has written, bdrv_pread reads back; every other byte reads as before. */
  method WriteThenRead(d: BlockDevice, offset: nat, data: seq<Byte>) returns (buf: seq<Byte>)
    requires d.Valid() && !d.readOnly && offset + |data| <= |d.disk| && data != []
    modifies d
    ensures buf == data && |d.disk| == |old(d.disk)|
    ensures forall k :: 0 <= k < |d.disk| && !(offset <= k < offset + |data|) ==> d.disk[k] == old(d.disk)[k]
  {
    ghost var was := d.disk;
    var _, done := d.Pwrite(offset, data);
    assert data[..done] == data;
    var _, r := d.Pread(offset, |data|);
    assert r == data;
    buf := r;
  }

  lemma SpliceFits(disk: seq<Byte>, offset: nat, data: seq<Byte>)
    requires offset + |data| <= |disk|
    ensures Splice(disk, offset, data) == Patched(disk, offset, data)
  {}

  lemma SpliceTwice(disk: seq<Byte>, now: seq<Byte>, offset: nat, data: seq<Byte>, n: nat)
    requires n <= |data| && offset + |data| <= |disk| && now == Splice(disk, offset, data[..n])
    ensures |now| == |disk| && Patched(now, offset + n, data[n..]) == Splice(disk, offset, data[..|data|])
  {
    assert data[..n] + data[n..] == data == data[..|data|];
    PatchedTwice(disk, offset, data[..n], data[n..]);
  }

  lemma SpliceThen(disk: seq<Byte>, now: seq<Byte>, offset: nat, data: seq<Byte>, n: nat, more: nat)
    requires n <= |data| && more <= |data| - n && offset + n <= |disk| && now == Patched(disk, offset, data[..n])
    requires more == 0 || offset + n + more <= |disk|
    ensures Splice(now, offset + n, data[n..][..more]) == Splice(disk, offset, data[..n + more])
  {
    assert data[..n] + data[n..][..more] == data[..n + more];
    PatchedTwice(disk, offset, data[..n], data[n..][..more]);
  }

  lemma NothingToTrack(disk: seq<Byte>, bits: seq<bool>)
    ensures Tracked(disk, disk, bits, bits)
  {}

  /** The chunk that byte k of the disk lies in; a chunk is 1 MB. */
  function ChunkOf(k: nat): nat { k / 0x10_0000 }

  lemma ChunkOfSector(k: nat)
    ensures ChunkOf(k) == k / SECTOR / SECTORS_PER_DIRTY_CHUNK
  {}

  /** Chunk c holds one of the n bytes from offset on. */
  ghost predicate HasByte(offset: nat, n: nat, c: nat) {
    exists k: nat :: offset <= k < offset + n && ChunkOf(k) == c
  }

  /** Exactly the chunks of the n bytes from offset on have been marked. */
  ghost predicate MarkedBy(bits: seq<bool>, bits': seq<bool>, offset: nat, n: nat) {
    |bits'| == |bits| && forall c :: 0 <= c < |bits| ==> (bits'[c] <==> bits[c] || HasByte(offset, n, c))
  }

  lemma MarkedNothing(bits: seq<bool>, offset: nat)
    ensures MarkedBy(bits, bits, offset, 0)
  {}

  lemma MarkedNowhere(bits: seq<bool>, bits': seq<bool>, a: nat, b: nat)
    requires MarkedBy(bits, bits', a, 0)
    ensures MarkedBy(bits, bits', b, 0)
  {}

  lemma HasByteSplits(offset: nat, n: nat, m: nat, c: nat)
    ensures HasByte(offset, n + m, c) <==> HasByte(offset, n, c) || HasByte(offset + n, m, c)
  {
    hide ChunkOf;
    if HasByte(offset, n + m, c) {
      var k: nat :| offset <= k < offset + n + m && ChunkOf(k) == c;
      assert k < offset + n || offset + n <= k;
    }
    if k: nat :| offset <= k < offset + n && ChunkOf(k) == c { assert HasByte(offset, n + m, c); }
    if k: nat :| offset + n <= k < offset + n + m && ChunkOf(k) == c { assert HasByte(offset, n + m, c); }
  }

  lemma MarkedTwice(b0: seq<bool>, b1: seq<bool>, b2: seq<bool>, offset: nat, n: nat, m: nat)
    requires MarkedBy(b0, b1, offset, n) && MarkedBy(b1, b2, offset + n, m)
    ensures MarkedBy(b0, b2, offset, n + m)
  {
    hide HasByte;
    forall c | 0 <= c < |b0| ensures b2[c] <==> b0[c] || HasByte(offset, n + m, c) { HasByteSplits(offset, n, m, c); }
  }

  /** A part of a sector lies in the chunk of the sector. */
  lemma PartOfSector(sector: nat, k: nat, n: nat, c: nat)
    requires 0 < n && k + n <= SECTOR
    ensures HasByte(sector * SECTOR + k, n, c) <==> sector / SECTORS_PER_DIRTY_CHUNK == c
  {
    forall b: nat | sector * SECTOR <= b < sector * SECTOR + SECTOR
      ensures ChunkOf(b) == sector / SECTORS_PER_DIRTY_CHUNK
    {
      ChunkOfSector(b);
      assert b / SECTOR == sector;
    }
    assert ChunkOf(sector * SECTOR + k) == sector / SECTORS_PER_DIRTY_CHUNK;
  }

  lemma SectorBytes(sector: nat, n: nat, c: nat)
    ensures HasByte(512 * sector, 512 * n, c) <==> Touches(sector, n, c)
  {
    if HasByte(512 * sector, 512 * n, c) {
      var k: nat :| 512 * sector <= k < 512 * sector + 512 * n && ChunkOf(k) == c;
      ChunkOfSector(k);
      assert sector <= k / SECTOR < sector + n;
    }
    if Touches(sector, n, c) {
      var t :| sector <= t < sector + n && t / SECTORS_PER_DIRTY_CHUNK == c;
      assert 512 * t / SECTOR == t;
      ChunkOfSector(512 * t);
      assert ChunkOf(512 * t) == c;
    }
  }

  lemma SectorsMarked(bits: seq<bool>, bits': seq<bool>, sector: nat, n: nat)
    requires |bits'| == |bits|
    requires forall c :: 0 <= c < |bits| ==> bits'[c] == if Touches(sector, n, c) then true else bits[c]
    ensures MarkedBy(bits, bits', 512 * sector, 512 * n)
  {
    hide HasByte, Touches;
    forall c | 0 <= c < |bits| ensures bits'[c] <==> bits[c] || HasByte(512 * sector, 512 * n, c) {
      SectorBytes(sector, n, c);
    }
  }

  lemma PartMarked(bits: seq<bool>, bits': seq<bool>, sector: nat, k: nat, n: nat)
    requires 0 < n && k + n <= SECTOR && MarkedBy(bits, bits', 512 * sector, 512)
    ensures MarkedBy(bits, bits', sector * SECTOR + k, n)
  {
    hide HasByte;
    forall c | 0 <= c < |bits| ensures bits'[c] <==> bits[c] || HasByte(sector * SECTOR + k, n, c) {
      PartOfSector(sector, k, n, c);
      PartOfSector(sector, 0, 512, c);
    }
  }

  lemma MarkedTracks(disk: seq<Byte>, now: seq<Byte>, bits: seq<bool>, bits': seq<bool>, offset: nat, data: seq<Byte>)
    requires Overwritten(disk, now, offset, data) && MarkedBy(bits, bits', offset, |data|)
    requires |disk| % SECTOR == 0 && SECTORS_PER_DIRTY_CHUNK * |bits| >= |disk| / SECTOR
    ensures Tracked(disk, now, bits, bits')
  {
    forall k | 0 <= k < |disk| && now[k] != disk[k]
      ensures k / SECTOR / SECTORS_PER_DIRTY_CHUNK < |bits| && bits'[k / SECTOR / SECTORS_PER_DIRTY_CHUNK]
    {
      InChunks(|disk|, |bits|, k);
      ChunkOfSector(k);
      assert ChunkOf(k) == k / SECTOR / SECTORS_PER_DIRTY_CHUNK;
    }
  }

  lemma InChunks(size: nat, chunks: nat, k: nat)
    requires size % SECTOR == 0 && SECTORS_PER_DIRTY_CHUNK * chunks >= size / SECTOR && k < size
    ensures k / SECTOR / SECTORS_PER_DIRTY_CHUNK < chunks
  {
    assert k / SECTOR < size / SECTOR;
  }

  /** (sector + n - 1) / SECTORS_PER_DIRTY_CHUNK as C divides, towards zero. */
  function LastChunk(sector: nat, n: nat): nat {
    if sector + n == 0 then 0 else (sector + n - 1) / SECTORS_PER_DIRTY_CHUNK
  }

  lemma LastChunkOf(sector: nat, n: nat)
    ensures n > 0 ==> LastChunk(sector, n) >= sector / SECTORS_PER_DIRTY_CHUNK
    ensures n == 0 ==> var first := sector / SECTORS_PER_DIRTY_CHUNK;
      LastChunk(sector, n) == if sector % SECTORS_PER_DIRTY_CHUNK != 0 || sector == 0 then first else first - 1
  {}

  /** Chunk c holds one of the n sectors from sector on. */
  ghost predicate Touches(sector: nat, n: nat, c: nat) {
    exists s :: sector <= s < sector + n && s / SECTORS_PER_DIRTY_CHUNK == c
  }

  lemma ChunksTouched(sector: nat, n: nat, c: nat)
    requires n > 0
    ensures Touches(sector, n, c) <==>
      sector / SECTORS_PER_DIRTY_CHUNK <= c <= (sector + n - 1) / SECTORS_PER_DIRTY_CHUNK
  {
    if sector / SECTORS_PER_DIRTY_CHUNK <= c <= (sector + n - 1) / SECTORS_PER_DIRTY_CHUNK {
      var s := if sector / SECTORS_PER_DIRTY_CHUNK == c then sector else SECTORS_PER_DIRTY_CHUNK * c;
      assert s / SECTORS_PER_DIRTY_CHUNK == c;
    }
  }

  /** No byte changes without its chunk being marked, and no mark goes away. */
  ghost predicate Tracked(disk: seq<Byte>, disk': seq<Byte>, bits: seq<bool>, bits': seq<bool>) {
    && |disk'| == |disk| && |bits'| == |bits|
    && (forall c :: 0 <= c < |bits| && bits[c] ==> bits'[c])
    && forall k :: 0 <= k < |disk| && disk'[k] != disk[k] ==>
         k / SECTOR / SECTORS_PER_DIRTY_CHUNK < |bits| && bits'[k / SECTOR / SECTORS_PER_DIRTY_CHUNK]
  }
}
