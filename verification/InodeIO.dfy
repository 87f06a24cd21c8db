/** Reading and writing the bytes of an inode through the buffer cache (inode.c). */
module InodeIO {
  import opened Sector
  import opened Geometry
  import opened BlockTree
  import opened FileBytes
  import opened Cache

  /** (block_sector_t) -1. */
  const NO_SECTOR := 0xFFFF_FFFF

  /** The sectors of an inode of `d.length` bytes are exactly `own`. */
  ghost predicate Stored(view: seq<Block>, d: DiskInode, own: seq<nat>) {
    && 0 <= d.length && Sectors(d.length) <= CAPACITY && |own| == Total(Sectors(d.length))
    && Tree(view, d, own) && OnDevice(view, own)
  }

  lemma StillStored(view: seq<Block>, after: seq<Block>, d: DiskInode, own: seq<nat>)
    requires Stored(view, d, own) && OnlyDataChanged(view, after, own)
    ensures Stored(after, d, own) && OnDevice(after, own)
  {
    TreeFrame(view, after, d, own);
  }

  lemma WriteNothing(view: seq<Block>, own: seq<nat>, ofs: nat, buf: seq<byte>)
    requires OnDevice(view, own)
    ensures OnlyDataChanged(view, view, own) && Patched(view, view, own, ofs, buf[..0])
  {
  }

  lemma SectorsExist(view: seq<Block>, own: seq<nat>)
    requires OnDevice(view, own)
    ensures forall r :: 0 <= r < |own| ==> own[r] < |view|
  {
  }

  method IndexToSector(cache: BufferCache, d: DiskInode, index: nat, ghost own: seq<nat>) returns (sector: nat)
    requires cache.Valid() && Tree(cache.view, d, own)
    requires index < CAPACITY ==> DataPos(index) < |own|
    modifies cache`clock, cache.device, cache.slots
    ensures cache.Valid()
    ensures sector == if index < CAPACITY then own[DataPos(index)] else NO_SECTOR
  {
    hide Accesses;
    if index < CAPACITY {
      Navigate(cache.view, d, own, index);
    }
    var base, limit := 0, DIRECT_BLOCKS_COUNT;
    if index < limit {
      return d.direct[index];
    }
    base := limit;
    limit := limit + INDIRECT_BLOCKS_PER_SECTOR;
    if index < limit {
      var block := cache.Read(d.indirect);
      return Pointers(block)[index - base];
    }
    base := limit;
    limit := limit + INDIRECT_BLOCKS_PER_SECTOR * INDIRECT_BLOCKS_PER_SECTOR;
    if index < limit {
      var first := (index - base) / INDIRECT_BLOCKS_PER_SECTOR;
      var second := (index - base) % INDIRECT_BLOCKS_PER_SECTOR;
      var block := cache.Read(d.doubly);
      block := cache.Read(Pointers(block)[first]);
      return Pointers(block)[second];
    }
    return NO_SECTOR;
  }

  method ByteToSector(cache: BufferCache, d: DiskInode, pos: int, ghost own: seq<nat>) returns (sector: nat)
    requires cache.Valid() && Stored(cache.view, d, own)
    modifies cache`clock, cache.device, cache.slots
    ensures cache.Valid()
    ensures sector == if 0 <= pos < d.length then SectorAt(own, DataPos(pos / SECTOR_SIZE)) else NO_SECTOR
    ensures 0 <= pos < d.length ==> DataPos(pos / SECTOR_SIZE) < |own|
  {
    if 0 <= pos && pos < d.length {
      DataPosBelowTotal(pos / SECTOR_SIZE, Sectors(d.length));
      sector := IndexToSector(cache, d, pos / SECTOR_SIZE, own);
    } else {
      sector := NO_SECTOR;
    }
  }

  /** inode_read_at: copies the bytes from `ofs` on into `buffer`, up to `size` of them or
      the end of the file. */
  method ReadAt(cache: BufferCache, d: DiskInode, buffer: array<byte>, size: nat, ofs: nat, ghost own: seq<nat>)
    returns (bytesRead: nat)
    requires cache.Valid() && Stored(cache.view, d, own)
    requires size <= buffer.Length && buffer as object !in cache.Repr()
    modifies cache`clock, cache.device, cache.slots, buffer
    ensures cache.Valid()
    ensures bytesRead == if ofs < d.length then Min(size, d.length - ofs) else 0
    ensures bytesRead > 0 ==> buffer[..bytesRead] == Bytes(cache.view, own, d.length)[ofs..ofs + bytesRead]
    ensures buffer[bytesRead..] == old(buffer[bytesRead..])
  {
    hide BufferCache.Valid, Tree, OnDevice;
    bytesRead := 0;
    SectorsExist(cache.view, own);
    var left, offset := size, ofs;
    while left > 0
      invariant cache.Valid()
      invariant 0 <= left && left + bytesRead == size && offset == ofs + bytesRead
      invariant bytesRead > 0 ==> offset <= d.length
      invariant forall i :: 0 <= i < bytesRead ==> buffer[i] == ByteAt(cache.view, own, ofs + i)
      invariant forall i :: bytesRead <= i < buffer.Length ==> buffer[i] == old(buffer[i])
      decreases left
    {
      var sector := ByteToSector(cache, d, offset, own);
      var sectorOfs := offset % SECTOR_SIZE;
      var inodeLeft := d.length - offset;
      var sectorLeft := SECTOR_SIZE - sectorOfs;
      var minLeft := if inodeLeft < sectorLeft then inodeLeft else sectorLeft;
      var chunk := if left < minLeft then left else minLeft;
      if chunk <= 0 {
        break;
      }
      ReadOneChunk(cache, sector, sectorOfs, buffer, bytesRead, chunk);
      forall k | bytesRead <= k < bytesRead + chunk ensures buffer[k] == ByteAt(cache.view, own, ofs + k) {
        assert (ofs + k) / SECTOR_SIZE == offset / SECTOR_SIZE;
        assert (ofs + k) % SECTOR_SIZE == sectorOfs + (k - bytesRead);
      }
      left := left - chunk;
      offset := offset + chunk;
      bytesRead := bytesRead + chunk;
    }
  }

  /** One iteration's transfer: a whole sector straight into the buffer, part of one by way
      of a bounce buffer. */
  method ReadOneChunk(cache: BufferCache, sector: nat, sectorOfs: nat, buffer: array<byte>, at: nat, chunk: nat)
    requires cache.Valid() && sector < |cache.view| && buffer as object !in cache.Repr()
    requires sectorOfs + chunk <= SECTOR_SIZE && at + chunk <= buffer.Length
    modifies cache`clock, cache.device, cache.slots, buffer
    ensures cache.Valid()
    ensures forall k :: 0 <= k < buffer.Length ==>
              buffer[k] == if at <= k < at + chunk then cache.view[sector][sectorOfs + (k - at)] else old(buffer[k])
  {
    hide Accesses;
    if sectorOfs == 0 && chunk == SECTOR_SIZE {
      var target := cache.Read(sector);
      CopyChunk(buffer, at, target, 0, chunk);
    } else {
      var bounce := cache.Read(sector);
      CopyChunk(buffer, at, bounce, sectorOfs, chunk);
    }
  }

  /** memcpy of `n` bytes of a sector into the caller's buffer. */
  method CopyChunk(buffer: array<byte>, at: nat, block: Block, from: nat, n: nat)
    requires at + n <= buffer.Length && from + n <= SECTOR_SIZE
    modifies buffer
    ensures forall k :: 0 <= k < buffer.Length ==>
              buffer[k] == if at <= k < at + n then block[from + (k - at)] else old(buffer[k])
  {
    forall k | at <= k < at + n {
      buffer[k] := block[from + (k - at)];
    }
  }

  /** memcpy of `n` bytes of the caller's buffer into a sector. */
  function Patch(block: Block, at: nat, buf: seq<byte>, from: nat, n: nat): (r: Block)
    requires at + n <= SECTOR_SIZE && from + n <= |buf|
    ensures forall i :: 0 <= i < SECTOR_SIZE ==>
              r[i] == if at <= i < at + n then buf[from + (i - at)] else block[i]
  {
    block[..at] + buf[from..from + n] + block[at + n..]
  }

  /** The loop of inode_write_at: writes `buf` at `ofs`, never past the end of the file. */
  method WriteChunks(cache: BufferCache, d: DiskInode, buf: seq<byte>, ofs: nat, ghost own: seq<nat>)
    returns (bytesWritten: nat)
    requires cache.Valid() && Stored(cache.view, d, own)
    modifies cache, cache.device, cache.slots
    ensures cache.Valid() && OnlyDataChanged(old(cache.view), cache.view, own)
    ensures bytesWritten == if ofs < d.length then Min(|buf|, d.length - ofs) else 0
    ensures Patched(old(cache.view), cache.view, own, ofs, buf[..bytesWritten])
  {
    hide BufferCache.Valid, Tree, OnlyDataChanged, Patched, OnDevice, DataPos, Sectors, Total;
    bytesWritten := 0;
    var size, offset := |buf|, ofs;
    WriteNothing(cache.view, own, ofs, buf);
    ghost var before := cache.view;
    while size > 0
      invariant cache.Valid() && OnlyDataChanged(before, cache.view, own)
      invariant 0 <= size && size + bytesWritten == |buf| && offset == ofs + bytesWritten
      invariant bytesWritten > 0 ==> offset <= d.length
      invariant Patched(before, cache.view, own, ofs, buf[..bytesWritten])
      decreases size
    {
      StillStored(before, cache.view, d, own);
      var sector := ByteToSector(cache, d, offset, own);
      var sectorOfs := offset % SECTOR_SIZE;
      var inodeLeft := d.length - offset;
      var sectorLeft := SECTOR_SIZE - sectorOfs;
      var minLeft := if inodeLeft < sectorLeft then inodeLeft else sectorLeft;
      var chunk := if size < minLeft then size else minLeft;
      if chunk <= 0 {
        break;
      }
      ghost var mid := cache.view;
      WriteOneChunk(cache, sector, sectorOfs, sectorLeft, buf, bytesWritten, chunk, offset / SECTOR_SIZE, own);
      OnlyDataTrans(before, mid, cache.view, own);
      PatchTrans(before, mid, cache.view, own, ofs, buf[..bytesWritten], buf[bytesWritten..bytesWritten + chunk]);
      assert buf[..bytesWritten] + buf[bytesWritten..bytesWritten + chunk] == buf[..bytesWritten + chunk];
      size := size - chunk;
      offset := offset + chunk;
      bytesWritten := bytesWritten + chunk;
    }
  }

  method ChunkSource(cache: BufferCache, sector: nat, sectorOfs: nat, sectorLeft: nat, buf: seq<byte>, from: nat,
      chunk: nat)
    returns (source: Block)
    requires cache.Valid() && sector < |cache.view|
    requires 0 < chunk <= sectorLeft == SECTOR_SIZE - sectorOfs && from + chunk <= |buf|
    modifies cache`clock, cache.device, cache.slots
    ensures cache.Valid()
    ensures forall j :: 0 <= j < SECTOR_SIZE ==>
              source[j] == if sectorOfs <= j < sectorOfs + chunk then buf[from + (j - sectorOfs)]
                        else cache.view[sector][j]
  {
    hide Accesses;
    if sectorOfs == 0 && chunk == SECTOR_SIZE {
      source := buf[from..from + chunk];
    } else {
      var bounce := ZEROS;
      if sectorOfs > 0 || chunk < sectorLeft {
        bounce := cache.Read(sector);
      }
      source := Patch(bounce, sectorOfs, buf, from, chunk);
    }
  }

  /** One iteration's transfer: a whole sector goes straight to the cache, a partial one
      through a bounce buffer that first reads the sector. */
  method WriteOneChunk(cache: BufferCache, sector: nat, sectorOfs: nat, sectorLeft: nat, buf: seq<byte>, from: nat,
                       chunk: nat, ghost i: nat, ghost own: seq<nat>)
    requires cache.Valid() && OnDevice(cache.view, own)
    requires DataPos(i) < |own| && sector == own[DataPos(i)]
    requires 0 < chunk <= sectorLeft == SECTOR_SIZE - sectorOfs && from + chunk <= |buf|
    modifies cache, cache.device, cache.slots
    ensures cache.Valid() && OnlyDataChanged(old(cache.view), cache.view, own)
    ensures Patched(old(cache.view), cache.view, own, SECTOR_SIZE * i + sectorOfs, buf[from..from + chunk])
  {
    hide Accesses;
    ghost var before := cache.view;
    var source := ChunkSource(cache, sector, sectorOfs, sectorLeft, buf, from, chunk);
    cache.Write(sector, source);
    PatchedSector(before, own, i, source, sectorOfs, buf[from..from + chunk]);
  }

  /** The first `cur` slots of `sectors` hold the inode's first `cur` data sectors. */
  ghost predicate Collected(sectors: seq<nat>, cur: nat, own: seq<nat>) {
    cur <= |sectors| && forall k :: 0 <= k < cur ==> DataPos(k) < |own| && sectors[k] == own[DataPos(k)]
  }

  /** get_inode_data_sectors. */
  method DataSectors(cache: BufferCache, d: DiskInode, ghost own: seq<nat>) returns (sectors: array<nat>)
    requires cache.Valid() && Stored(cache.view, d, own)
    modifies cache`clock, cache.device, cache.slots
    ensures cache.Valid() && fresh(sectors) && sectors.Length == Sectors(d.length)
    ensures Collected(sectors[..], sectors.Length, own)
  {
    hide BufferCache.Valid, Tree, OnDevice, Collected, Lists, DataPos, Pointers, Accesses;
    var numSectors := Sectors(d.length);
    sectors := new nat[numSectors];
    assert sectors as object !in cache.Repr();
    NoneCollected(sectors[..], own);
    var curI := 0;
    var l := Min(numSectors, DIRECT_BLOCKS_COUNT);
    var i := 0;
    while i < l
      invariant cache.Valid() && 0 <= i <= l && curI == i && Collected(sectors[..], curI, own)
    {
      NthSector(cache.view, d, own, i);
      CollectOne(sectors[..], curI, own, d.direct[i]);
      sectors[curI] := d.direct[i];
      curI := curI + 1;
      i := i + 1;
    }
    numSectors := numSectors - l;

    l := Min(numSectors, INDIRECT_BLOCKS_PER_SECTOR);
    if l > 0 {
      SingleSectors(cache.view, d, own, l);
      var block := cache.Read(d.indirect);
      CollectBlock(cache, d, block, l, sectors, curI, own);
      curI := curI + l;
      numSectors := numSectors - l;
    }

    l := Min(numSectors, INDIRECT_BLOCKS_PER_SECTOR * INDIRECT_BLOCKS_PER_SECTOR);
    if l > 0 {
      NthSector(cache.view, d, own, 251);
      var block := cache.Read(d.doubly);
      var left := l;
      i := 0;
      while i < DivRoundUp(l, INDIRECT_BLOCKS_PER_SECTOR)
        invariant 0 <= i && left == l - Min(l, i * INDIRECT_BLOCKS_PER_SECTOR) && curI == 251 + (l - left)
        invariant cache.Valid() && Collected(sectors[..], curI, own)
      {
        var subsize := Min(left, INDIRECT_BLOCKS_PER_SECTOR);
        GroupSectors(cache.view, d, own, i, subsize);
        var block2 := cache.Read(Pointers(block)[i]);
        CollectBlock(cache, d, block2, subsize, sectors, curI, own);
        curI := curI + subsize;
        left := left - subsize;
        i := i + 1;
      }
      numSectors := numSectors - l;
    }
  }

  lemma NoneCollected(sectors: seq<nat>, own: seq<nat>)
    ensures Collected(sectors, 0, own)
  {
  }

  lemma CollectOne(sectors: seq<nat>, cur: nat, own: seq<nat>, sector: nat)
    requires cur < |sectors| && Collected(sectors, cur, own) && DataPos(cur) < |own| && sector == own[DataPos(cur)]
    ensures Collected(sectors[cur := sector], cur + 1, own)
  {
  }

  /** Navigate, for an index below the file's sector count. */
  lemma NthSector(view: seq<Block>, d: DiskInode, own: seq<nat>, i: nat)
    requires Stored(view, d, own) && i < Sectors(d.length)
    ensures DataPos(i) < |own|
    ensures i < 123 ==> i < |d.direct| && d.direct[i] == own[DataPos(i)]
    ensures 123 <= i < 251 ==> d.indirect < |view| && Pointers(view[d.indirect])[i - 123] == own[DataPos(i)]
    ensures 251 <= i ==>
              var k := (i - 251) / 128;
              && d.doubly < |view| && k < 128 && Pointers(view[d.doubly])[k] < |view|
              && Pointers(view[Pointers(view[d.doubly])[k]])[(i - 251) % 128] == own[DataPos(i)]
  {
    DataPosBelowTotal(i, Sectors(d.length));
    Navigate(view, d, own, i);
  }

  /** The first `l` entries of an index block are the data sectors from index `cur` on. */
  ghost predicate Lists(block: Block, l: nat, cur: nat, own: seq<nat>) {
    && l <= INDIRECT_BLOCKS_PER_SECTOR
    && forall k :: cur <= k < cur + l ==> DataPos(k) < |own| && Pointers(block)[k - cur] == own[DataPos(k)]
  }

  lemma SingleSectors(view: seq<Block>, d: DiskInode, own: seq<nat>, l: nat)
    requires Stored(view, d, own) && 0 < l <= INDIRECT_BLOCKS_PER_SECTOR && 123 + l <= Sectors(d.length)
    ensures d.indirect < |view| && Lists(view[d.indirect], l, 123, own)
  {
    hide Stored, DataPos, Pointers;
    NthSector(view, d, own, 123);
    forall i | 123 <= i < 123 + l ensures DataPos(i) < |own| && Pointers(view[d.indirect])[i - 123] == own[DataPos(i)] {
      NthSector(view, d, own, i);
    }
  }

  lemma GroupSectors(view: seq<Block>, d: DiskInode, own: seq<nat>, k: nat, l: nat)
    requires Stored(view, d, own) && 0 < l <= INDIRECT_BLOCKS_PER_SECTOR && 251 + 128 * k + l <= Sectors(d.length)
    ensures d.doubly < |view| && k < 128 && Pointers(view[d.doubly])[k] < |view|
    ensures Lists(view[Pointers(view[d.doubly])[k]], l, 251 + 128 * k, own)
  {
    hide Stored, DataPos, Pointers;
    NthSector(view, d, own, 251 + 128 * k);
    var block := view[Pointers(view[d.doubly])[k]];
    forall i | 251 + 128 * k <= i < 251 + 128 * k + l
      ensures DataPos(i) < |own| && Pointers(block)[i - (251 + 128 * k)] == own[DataPos(i)]
    {
      assert (i - 251) / 128 == k && (i - 251) % 128 == i - (251 + 128 * k);
      NthSector(view, d, own, i);
    }
  }

  /** Appends the first `l` entries of one index block of data sectors. */
  method CollectBlock(cache: BufferCache, d: DiskInode, block: Block, l: nat, sectors: array<nat>, cur: nat,
      ghost own: seq<nat>)
    requires l <= INDIRECT_BLOCKS_PER_SECTOR && cur + l <= sectors.Length && Collected(sectors[..], cur, own)
    requires Stored(cache.view, d, own) && sectors.Length == Sectors(d.length)
    requires Lists(block, l, cur, own)
    modifies sectors
    ensures Collected(sectors[..], cur + l, own)
  {
    hide Collected, Stored;
    var j := 0;
    while j < l
      invariant 0 <= j <= l && Collected(sectors[..], cur + j, own)
    {
      CollectOne(sectors[..], cur + j, own, Pointers(block)[j]);
      sectors[cur + j] := Pointers(block)[j];
      j := j + 1;
    }
  }
}
