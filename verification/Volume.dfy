/** The mounted file system's shared state and the free map (free-map.c): an in-memory
    bitmap, one bit per sector, written through to a file on the disk it describes. */
module Volume {
  import opened Sector
  import opened Geometry
  import opened FreeList
  import opened BlockTree
  import opened FileBytes
  import opened InodeIO
  import opened Cache
  import opened Words
  import opened Bitmap

  /** struct inode: an open inode. */
  class Inode {
    const sector: nat
    var data: DiskInode
    var denyWriteCnt: nat

    constructor (sector: nat, data: DiskInode)
      ensures this.sector == sector && this.data == data && denyWriteCnt == 0
    {
      this.sector := sector;
      this.data := data;
      denyWriteCnt := 0;
    }
  }

  /** The sectors of `own` belong to one inode and are not those of the free-map file. */
  ghost predicate Private(own: seq<nat>, bits: seq<bool>, mapOwn: seq<nat>) {
    Owned(own, bits) && forall r :: 0 <= r < |own| ==> own[r] !in mapOwn
  }

  class Volume {
    const cache: BufferCache
    const freeMap: BitMap
    var mapFile: Inode?
    ghost var mapOwn: seq<nat>

    ghost function Repr(): set<object> {
      cache.Repr() + freeMap.Repr()
    }

    /** Everything but the agreement between the bitmap and its file. */
    ghost predicate Core()
      reads this, Repr(), mapFile
    {
      && cache.Valid() && freeMap.Valid() && cache.Repr() !! freeMap.Repr()
      && |cache.view| == freeMap.bitCount + 1
      && freeMap.bitCount > 1 && freeMap.contents[0]
      && (mapFile == null ==> mapOwn == [])
      && (mapFile != null ==>
            && Stored(cache.view, mapFile.data, mapOwn) && Owned(mapOwn, freeMap.contents)
            && mapFile.data.length == ELEM_BYTES * ElemCount(freeMap.bitCount))
    }

    ghost predicate Synced()
      requires Core()
      reads this, Repr(), mapFile
    {
      mapFile != null ==> Bytes(cache.view, mapOwn, mapFile.data.length) == freeMap.FileImage()
    }

    /** The free-map file, if open, holds exactly the bitmap. */
    ghost predicate Valid()
      reads this, Repr(), mapFile
    {
      Core() && Synced()
    }

    /** No one has denied writes to the free-map file. */
    ghost predicate Ready()
      reads this, Repr(), mapFile
    {
      Valid() && (mapFile != null ==> mapFile.denyWriteCnt == 0)
    }

    /** free_map_init: the last sector of the device has no bit. */
    constructor (cache: BufferCache)
      requires cache.Valid() && 3 <= |cache.view| <= BITMAP_ERROR
      ensures Ready() && this.cache == cache && mapFile == null && fresh(freeMap.Repr())
      ensures freeMap.contents == seq(|cache.view| - 1, i => i < 2) && mapOwn == []
    {
      this.cache := cache;
      var bitMap := new BitMap(cache.device.Length - 1);
      this.freeMap := bitMap;
      mapFile := null;
      mapOwn := [];
      new;
      freeMap.Mark(0);
      freeMap.Mark(1);
    }

    /** num_free_sectors. */
    method NumFreeSectors() returns (n: nat)
      requires Valid()
      ensures n == |Free(freeMap.contents)|
    {
      n := freeMap.Count(0, freeMap.bitCount, false);
      assert freeMap.contents[0..0 + freeMap.bitCount] == freeMap.contents;
    }

    /** bitmap_write to the open free-map file. The file already has the bitmap's length, so
        the test that would extend it, and so re-enter the allocator, does not hold. */
    method BitmapWrite() returns (ok: bool)
      requires Core() && mapFile != null
      modifies cache, cache.device, cache.slots
      ensures Core() && ok == (mapFile.denyWriteCnt == 0)
      ensures ok ==> Valid()
      ensures !ok ==> cache.view == old(cache.view)
      ensures OnlyDataChanged(old(cache.view), cache.view, mapOwn)
    {
      if mapFile.denyWriteCnt > 0 {
        return false;
      }
      ghost var before := cache.view;
      var image := ElemsBytes(freeMap.bits[..]);
      var size := ELEM_BYTES * ElemCount(freeMap.bitCount);
      var last := ByteToSector(cache, mapFile.data, size - 1, mapOwn);
      assert last != NO_SECTOR;
      var written := WriteChunks(cache, mapFile.data, image, 0, mapOwn);
      TreeFrame(before, cache.view, mapFile.data, mapOwn);
      assert Bytes(cache.view, mapOwn, mapFile.data.length) == freeMap.FileImage();
      return written == size;
    }

    /** free_map_allocate. */
    method Allocate(cnt: nat) returns (ok: bool, sector: nat)
      requires Valid()
      modifies Repr()
      ensures Valid() && OnlyDataChanged(old(cache.view), cache.view, mapOwn)
      ensures ok ==> Run(old(freeMap.contents), sector, cnt, false)
      ensures ok ==> forall j :: 0 <= j < sector ==> !Run(old(freeMap.contents), j, cnt, false)
      ensures ok ==> freeMap.contents == SetRange(old(freeMap.contents), sector, cnt, true)
      ensures !ok ==> freeMap.contents == old(freeMap.contents)
      ensures !ok ==>
                (mapFile != null && mapFile.denyWriteCnt > 0) ||
                forall j :: 0 <= j ==> !Run(freeMap.contents, j, cnt, false)
    {
      sector := freeMap.ScanAndFlip(0, cnt, false);
      if sector != BITMAP_ERROR && mapFile != null {
        var written := BitmapWrite();
        if !written {
          freeMap.SetMultiple(sector, cnt, false);
          assert freeMap.contents == old(freeMap.contents);
          sector := BITMAP_ERROR;
        }
      }
      if sector == BITMAP_ERROR {
        PacksUnique(freeMap.bits[..], old(freeMap.bits[..]), freeMap.contents);
      }
      return sector != BITMAP_ERROR, sector;
    }

    /** free_map_release; the bits must be set, as the source asserts. */
    method Release(sector: nat, cnt: nat)
      requires Ready() && mapFile != null
      requires Run(freeMap.contents, sector, cnt, true)
      requires sector > 0 && forall k :: sector <= k < sector + cnt ==> k !in mapOwn
      modifies Repr()
      ensures Ready() && OnlyDataChanged(old(cache.view), cache.view, mapOwn)
      ensures freeMap.contents == SetRange(old(freeMap.contents), sector, cnt, false)
    {
      var all := freeMap.All(sector, cnt);
      assert all;
      freeMap.SetMultiple(sector, cnt, false);
      forall r | 0 <= r < |mapOwn| ensures freeMap.contents[mapOwn[r]] {
        assert mapOwn[r] in mapOwn;
      }
      var written := BitmapWrite();
    }

    /** buffer_cache_read. */
    method ReadSector(s: nat) returns (target: Block)
      requires Ready() && s < |cache.view|
      modifies cache`clock, cache.device, cache.slots
      ensures Ready() && target == cache.view[s]
    {
      hide Accesses;
      target := cache.Read(s);
    }

    /** buffer_cache_write to a sector that is not the free-map file's. */
    method WriteSector(s: nat, source: Block)
      requires Ready() && s < |cache.view| && s !in mapOwn
      modifies cache, cache.device, cache.slots
      ensures Ready() && cache.view == old(cache.view)[s := source]
    {
      hide Accesses;
      ghost var before := cache.view;
      cache.Write(s, source);
      if mapFile != null {
        TreeFrame(before, cache.view, mapFile.data, mapOwn);
        assert Bytes(cache.view, mapOwn, mapFile.data.length) == Bytes(before, mapOwn, mapFile.data.length);
      }
    }

    /** byte_to_sector. */
    method LocateByte(d: DiskInode, pos: int, ghost own: seq<nat>) returns (sector: nat)
      requires Ready() && Stored(cache.view, d, own)
      modifies cache`clock, cache.device, cache.slots
      ensures Ready()
      ensures sector == if 0 <= pos < d.length then SectorAt(own, DataPos(pos / SECTOR_SIZE)) else NO_SECTOR
      ensures 0 <= pos < d.length ==> DataPos(pos / SECTOR_SIZE) < |own|
    {
      sector := ByteToSector(cache, d, pos, own);
    }

    /** Writes to the sectors of an inode other than the free-map file's. */
    method WriteData(d: DiskInode, buf: seq<byte>, ofs: nat, ghost own: seq<nat>) returns (bytesWritten: nat)
      requires Ready() && Stored(cache.view, d, own) && forall r :: 0 <= r < |own| ==> own[r] !in mapOwn
      modifies cache, cache.device, cache.slots
      ensures Ready() && OnlyDataChanged(old(cache.view), cache.view, own)
      ensures bytesWritten == if ofs < d.length then Min(|buf|, d.length - ofs) else 0
      ensures Patched(old(cache.view), cache.view, own, ofs, buf[..bytesWritten])
    {
      ghost var before := cache.view;
      bytesWritten := WriteChunks(cache, d, buf, ofs, own);
      if mapFile != null {
        forall x | x in mapOwn ensures x !in own {
        }
        TreeFrame(before, cache.view, mapFile.data, mapOwn);
        assert Bytes(cache.view, mapOwn, mapFile.data.length) == Bytes(before, mapOwn, mapFile.data.length);
      }
    }

    method ReadData(d: DiskInode, buffer: array<byte>, size: nat, ofs: nat,
        ghost own: seq<nat>) returns (bytesRead: nat)
      requires Ready() && Stored(cache.view, d, own)
      requires size <= buffer.Length && buffer as object !in Repr()
      modifies cache`clock, cache.device, cache.slots, buffer
      ensures Ready()
      ensures bytesRead == if ofs < d.length then Min(size, d.length - ofs) else 0
      ensures bytesRead > 0 ==> buffer[..bytesRead] == Bytes(cache.view, own, d.length)[ofs..ofs + bytesRead]
      ensures buffer[bytesRead..] == old(buffer[bytesRead..])
    {
      bytesRead := ReadAt(cache, d, buffer, size, ofs, own);
    }

    /** get_inode_data_sectors. */
    method DataSectorsOf(d: DiskInode, ghost own: seq<nat>) returns (sectors: array<nat>)
      requires Ready() && Stored(cache.view, d, own)
      modifies cache`clock, cache.device, cache.slots
      ensures Ready() && fresh(sectors) && sectors.Length == Sectors(d.length)
      ensures Collected(sectors[..], sectors.Length, own)
    {
      sectors := DataSectors(cache, d, own);
    }
  }

  /** Sector `i` is in use exactly when bit i % 8 of byte i / 8 of the open free-map file is set. */
  lemma MapFileBit(vol: Volume, i: nat)
    requires vol.Valid() && vol.mapFile != null && i < vol.freeMap.bitCount
    ensures vol.mapFile.data.length >= 0
    ensures var file := Bytes(vol.cache.view, vol.mapOwn, vol.mapFile.data.length);
            i / 8 < |file| && Bit(file[i / 8], i % 8) == vol.freeMap.contents[i]
  {
    hide Bit, ElemsBytes, Bytes, Stored;
    FileBit(vol.freeMap.bits[..], vol.freeMap.contents, i);
  }
}
