/** The mounted file system: every live inode over one volume. Its methods act on inodes by
    sector number, opening the inode from its on-disk copy and closing it again. */
module FileSystem {
  import opened Sector
  import opened Geometry
  import opened FreeList
  import opened BlockTree
  import opened FileBytes
  import opened InodeIO
  import opened Cache
  import opened Words
  import opened Bitmap
  import opened Volume
  import opened Reserve
  import opened Files
  import opened FileTable
  import opened MapFile

  /** The number of sectors creating a file of `length` bytes takes, its inode included. */
  function CreationCost(length: nat): nat {
    1 + Total(Sectors(length))
  }

  /** A file of `length` bytes can be written up to `end`. */
  predicate RoomFor(length: nat, end: nat, free: nat) {
    end <= length || (Sectors(end) <= CAPACITY && CreationCost(end) <= CreationCost(length) + free)
  }

  /** The free sectors once it has been. */
  function LeftByWrite(length: nat, end: nat, free: nat): (left: nat)
    requires RoomFor(length, end, free)
    ensures left + CreationCost(Max(length, end)) == free + CreationCost(length)
  {
    hide Total;
    if end <= length then free else free + CreationCost(length) - CreationCost(end)
  }

  /** For a file that owns what its length needs, that is all inode_write_at asks. */
  lemma RoomToWrite(length: nat, ofs: nat, size: nat, free: nat)
    requires size > 0
    ensures CaseOf(false, length, ofs, size, Total(Sectors(length)), free) == Splices <==>
            RoomFor(length, ofs + size, free)
  {
    hide Total;
  }

  /** Creating a file of `length` bytes overwrites sector 0. */
  predicate CreationWipes(length: nat, free: nat) {
    free > 0 && Wipes(length, 0, free - 1)
  }

  /** The free sectors after a creation that fails: its inode sector is given back, the sectors of
      the partly grown tree are not. */
  function LeftByFailedCreation(length: nat, free: nat): nat {
    if free == 0 then 0 else 1 + SectorsLeft(length, 0, free - 1)
  }

  /** What became of the inode in sector 0: it is still there, or the sector holds zeros. */
  ghost predicate MapInodeAfter(vol: Volume, wasOnDisk: bool, wiped: bool)
    reads vol, vol.cache, vol.mapFile
  {
    if wiped then |vol.cache.view| > 0 && IsZeroed(vol.cache.view[0]) else wasOnDisk ==> MapInodeOnDisk(vol)
  }

  class FileSystem {
    const vol: Volume
    ghost var files: Table

    /** `files` are all at rest and share no sector. */
    ghost predicate Inv()
      reads this, vol, vol.Repr(), vol.mapFile
    {
      && vol.Ready() && vol.mapFile != null
      && Safe(vol.cache.view, vol.freeMap.contents, files, vol.mapOwn)
    }

    /** No sector is in use but the free-map file's and those of `files`. */
    ghost predicate NoLeaks()
      reads this, vol, vol.freeMap
    {
      Exact(vol.freeMap.contents, files, vol.mapOwn)
    }

    /** A sector that is in use but belongs to no file. */
    ghost predicate Spare(sector: nat)
      reads this, vol, vol.freeMap
    {
      && 0 < sector < |vol.freeMap.contents| && vol.freeMap.contents[sector]
      && sector !in vol.mapOwn && Unclaimed(files, sector, [])
    }

    /** No sector but this one is in use without belonging to anything. */
    ghost predicate NoLeaksBut(sector: nat)
      reads this, vol, vol.freeMap
    {
      sector < |vol.freeMap.contents| && Exact(vol.freeMap.contents[sector := false], files, vol.mapOwn)
    }

    ghost function Data(): map<nat, seq<byte>>
      reads this, vol, vol.cache
    {
      Contents(vol.cache.view, files)
    }

    /** The free sectors, lowest first. */
    ghost function FreeSectors(): seq<nat>
      reads vol, vol.freeMap
    {
      Free(vol.freeMap.contents)
    }

    constructor (vol: Volume, ghost files: Table)
      requires vol.Ready() && vol.mapFile != null && Safe(vol.cache.view, vol.freeMap.contents, files, vol.mapOwn)
      ensures Inv() && this.vol == vol && this.files == files
    {
      this.vol := vol;
      this.files := files;
    }

    /** The allocation and inode creation of filesys_create. */
    method Create(length: nat, isDir: bool) returns (ok: bool, sector: nat)
      requires Inv() && length <= OFFSET_LIMIT
      modifies this, vol.Repr()
      ensures Inv()
      ensures ok == (Sectors(length) <= CAPACITY && CreationCost(length) <= |old(FreeSectors())|)
      ensures ok ==>
                sector !in old(files) && sector in files && files == old(files)[sector := files[sector]] &&
                files[sector].d.isDir == isDir
      ensures ok ==> Data() == old(Data())[sector := Zeros(length)]
      ensures ok ==> [sector] + files[sector].own == old(FreeSectors())[..CreationCost(length)]
      ensures ok ==> FreeSectors() == old(FreeSectors())[CreationCost(length)..]
      ensures ok && old(NoLeaks()) ==> NoLeaks()
      ensures !ok ==> files == old(files) && Data() == old(Data())
      ensures !ok ==> |FreeSectors()| == LeftByFailedCreation(length, |old(FreeSectors())|)
      ensures MapInodeAfter(vol, old(MapInodeOnDisk(vol)), !ok && CreationWipes(length, |old(FreeSectors())|))
    {
      hide Inv, Data, FreeSectors, NoLeaks, NoLeaksBut, Spare, MapInodeOnDisk, Zeros, Total, SectorsLeft, Wipes;
      ghost var free := FreeSectors();
      ok, sector := TakeSector();
      if ok {
        ok := CreateAt(sector, length, isDir);
        if ok {
          FileFacts(this, sector);
          TakenInOrder(free, sector, files[sector].own, FreeSectors());
        } else {
          GiveBack(sector);
        }
      }
    }

    /** free_map_allocate of the inode's sector. */
    method TakeSector() returns (ok: bool, sector: nat)
      requires Inv()
      modifies vol.Repr()
      ensures Inv() && Data() == old(Data()) && ok == (|old(FreeSectors())| > 0)
      ensures ok ==> Spare(sector) && sector !in files && old(FreeSectors()) == [sector] + FreeSectors()
      ensures ok && old(NoLeaks()) ==> NoLeaksBut(sector)
      ensures !ok ==> FreeSectors() == old(FreeSectors())
      ensures old(MapInodeOnDisk(vol)) ==> MapInodeOnDisk(vol)
    {
      hide Volume.Valid, Volume.Core, Volume.Synced, FileOK, Safe, Exact, OnlyDataChanged, Sound, Contents, Lowest,
        Free, Claims;
      ghost var s := Now(vol, []);
      NothingOwned(vol);
      ghost var head;
      ok, sector, head := AllocateOne(vol, []);
      ghost var t := Now(vol, []);
      MapInUse(vol);
      SectorZeroNotMap(s.view, t.view, t.bits, vol.mapOwn);
      if ok {
        InodeSectorTaken(s, t, files, sector, vol.mapOwn);
      } else {
        AllocationFailed(s, t, files, vol.mapOwn);
      }
    }

    /** free_map_release of a sector that belongs to no file. */
    method GiveBack(sector: nat)
      requires Inv() && Spare(sector)
      modifies vol.Repr()
      ensures Inv() && Data() == old(Data())
      ensures vol.freeMap.contents == old(vol.freeMap.contents)[sector := false]
      ensures |FreeSectors()| == |old(FreeSectors())| + 1
      ensures MapInodeAfter(vol, old(MapInodeOnDisk(vol)), false)
      ensures |vol.cache.view| > 0 && |old(vol.cache.view)| > 0 && vol.cache.view[0] == old(vol.cache.view[0])
    {
      hide Volume.Valid, Volume.Core, Volume.Synced, FileOK, Safe, Exact, OnlyDataChanged, Contents, Claims, Free,
        Clear;
      ghost var s := Now(vol, []);
      MapInUse(vol);
      vol.Release(sector, 1);
      MapInUse(vol);
      SectorReturned(s, Now(vol, []), files, sector, vol.mapOwn);
      OneMoreFree(s.bits, sector);
      SectorZeroNotMap(s.view, vol.cache.view, vol.freeMap.contents, vol.mapOwn);
    }

    /** inode_create on a sector that is in use but belongs to no file, as the root directory's
        is when the disk is formatted. */
    method CreateAt(sector: nat, length: nat, isDir: bool) returns (ok: bool)
      requires Inv() && length <= OFFSET_LIMIT && Spare(sector)
      modifies this, vol.Repr()
      ensures Inv()
      ensures ok == (Sectors(length) <= CAPACITY && Total(Sectors(length)) <= |old(FreeSectors())|)
      ensures ok ==>
                sector !in old(files) && sector in files && files == old(files)[sector := files[sector]] &&
                files[sector].d.isDir == isDir
      ensures ok ==> Data() == old(Data())[sector := Zeros(length)]
      ensures ok ==> files[sector].own + FreeSectors() == old(FreeSectors())
      ensures ok && old(NoLeaksBut(sector)) ==> NoLeaks()
      ensures !ok ==> files == old(files) && Data() == old(Data())
      ensures !ok ==> Spare(sector) && |FreeSectors()| == SectorsLeft(length, 0, |old(FreeSectors())|)
      ensures MapInodeAfter(vol, old(MapInodeOnDisk(vol)), !ok && Wipes(length, 0, |old(FreeSectors())|))
    {
      hide Volume.Valid, Volume.Core, Volume.Synced, FileOK, Safe, Exact, OnlyDataChanged, Sound, OthersKept,
        BystandersKept, Contents;
      hide Grown, Zeros, RanOut, Affordable, Lowest, Bytes, Free, Claims, Total, Run;
      ghost var t := Now(vol, []);
      NothingOwned(vol);
      MapInUse(vol);
      SectorTaken(t.bits, files, sector);
      ghost var d, own;
      ok, d, own := InodeCreate(vol, sector, length, isDir);
      ghost var u := Now(vol, own);
      if ok {
        NewFile(Snapshot(t.view, t.bits[sector := false], []), t, u, files, sector, d, vol.mapOwn);
        SectorZeroKept(t, u, sector, vol.mapOwn);
        files := files[sector := FileInfo(own, d)];
      } else {
        MapInUse(vol);
        NotCreated(t, t, u, files, sector, length, vol.mapOwn);
      }
    }

    /** inode_open, inode_remove and inode_close: every sector of the file becomes free. */
    method Remove(sector: nat)
      requires Inv() && sector in files
      modifies this, vol.Repr()
      ensures Inv()
      ensures files == old(files) - {sector} && Data() == old(Data()) - {sector}
      ensures vol.freeMap.contents == Clear(old(vol.freeMap.contents), {sector} + SetOf(old(files[sector].own)))
      ensures old(NoLeaks()) ==> NoLeaks()
      ensures old(MapInodeOnDisk(vol)) ==> MapInodeOnDisk(vol)
    {
      hide Volume.Valid, Volume.Core, Volume.Synced, FileOK, Safe, Exact, OnlyDataChanged, Contents, Clear, SetOf;
      ghost var own, d := files[sector].own, files[sector].d;
      ghost var s := Now(vol, own);
      FileAt(s.view, s.bits, files, sector, vol.mapOwn);
      var f := OpenAtRest(vol, sector, d, own);
      InodeRemove(vol, f, own);
      MapInUse(vol);
      RemoveStep(s, Now(vol, own), files, sector, vol.mapOwn);
      SectorZeroNotMap(s.view, vol.cache.view, vol.freeMap.contents, vol.mapOwn);
      files := files - {sector};
    }

    /** filesys_create's clean-up when the name could not be added: only the inode's own sector
        is released. */
    method Abandon(sector: nat)
      requires Inv() && sector in files
      modifies this, vol.Repr()
      ensures Inv()
      ensures files == old(files) - {sector} && Data() == old(Data()) - {sector}
      ensures vol.freeMap.contents == old(vol.freeMap.contents)[sector := false]
      ensures |FreeSectors()| == |old(FreeSectors())| + 1
      ensures old(MapInodeOnDisk(vol)) ==> MapInodeOnDisk(vol)
      ensures |vol.cache.view| > 0 && |old(vol.cache.view)| > 0 && vol.cache.view[0] == old(vol.cache.view[0])
    {
      hide Volume.Valid, Volume.Core, Volume.Synced, FileOK, Safe, Contents, Claims, Run;
      SectorUnclaimed(vol.cache.view, vol.freeMap.contents, files, sector, vol.mapOwn);
      files := files - {sector};
      GiveBack(sector);
    }

    /** inode_read_at on a freshly opened inode. */
    method Read(sector: nat, buffer: array<byte>, size: nat, ofs: nat) returns (bytesRead: nat)
      requires Inv() && sector in files
      requires size <= buffer.Length && buffer as object !in vol.Repr()
      modifies vol.cache`clock, vol.cache.device, vol.cache.slots, buffer
      ensures Inv() && sector in Data() && Data() == old(Data())
      ensures Delivers(Data()[sector], ofs, size, buffer[..], bytesRead)
      ensures bytesRead <= size && buffer[bytesRead..] == old(buffer[bytesRead..])
    {
      hide Volume.Valid, Volume.Core, Volume.Synced, FileOK, Safe, Contents, Bytes;
      ghost var own, d := files[sector].own, files[sector].d;
      ghost var s := Now(vol, own);
      FileAt(s.view, s.bits, files, sector, vol.mapOwn);
      AtRest(s, sector, d, vol.mapOwn);
      var f := OpenAtRest(vol, sector, d, own);
      bytesRead := vol.ReadData(f.data, buffer, size, ofs, own);
    }

    /** get_inode_data_sectors on a freshly opened inode. */
    method DataSectors(sector: nat) returns (sectors: array<nat>)
      requires Inv() && sector in files
      modifies vol.cache`clock, vol.cache.device, vol.cache.slots
      ensures Inv() && sector in Data() && Data() == old(Data())
      ensures fresh(sectors) && sectors.Length == Sectors(|Data()[sector]|)
      ensures Collected(sectors[..], sectors.Length, files[sector].own)
    {
      hide Volume.Valid, Volume.Core, Volume.Synced, FileOK, Safe, Contents, Bytes, Collected;
      ghost var own, d := files[sector].own, files[sector].d;
      ghost var s := Now(vol, own);
      FileAt(s.view, s.bits, files, sector, vol.mapOwn);
      AtRest(s, sector, d, vol.mapOwn);
      var f := OpenAtRest(vol, sector, d, own);
      sectors := vol.DataSectorsOf(f.data, own);
    }

    /** inode_length on a freshly opened inode. */
    method Length(sector: nat) returns (n: nat)
      requires Inv() && sector in files
      modifies vol.cache`clock, vol.cache.device, vol.cache.slots
      ensures Inv() && sector in Data() && n == |Data()[sector]| && Data() == old(Data())
    {
      hide Volume.Valid, Volume.Core, Volume.Synced, FileOK, Safe, Contents;
      ghost var own, d := files[sector].own, files[sector].d;
      ghost var s := Now(vol, own);
      FileAt(s.view, s.bits, files, sector, vol.mapOwn);
      var f := OpenAtRest(vol, sector, d, own);
      n := f.data.length;
    }

    /** The inode's sector and the bytes in its data sectors are as `info` and `bytes` have them. */
    ghost predicate Survives(info: FileInfo, sector: nat, bytes: seq<byte>)
      reads vol, vol.cache
    {
      && Encodable(info.d) && 0 <= info.d.length && sector < |vol.cache.view|
      && vol.cache.view[sector] == EncodeInode(info.d) && Bytes(vol.cache.view, info.own, info.d.length) == bytes
    }

    /** inode_write_at on a freshly opened inode. A write that finds no room for want of a single
        data sector leaves every file as it was. Any other write that does not happen in full drops
        the file from `files`: its tree may be left half grown, but no other file is affected. */
    method Write(sector: nat, buf: seq<byte>, ofs: nat) returns (written: nat)
      requires Inv() && sector in files && ofs + |buf| <= OFFSET_LIMIT
      modifies this, vol.Repr()
      ensures Inv()
      ensures var c := CaseOf(false, old(files[sector].d.length), ofs, |buf|,
                            |old(files[sector].own)|, |old(FreeSectors())|);
              && written == (if c == Splices then |buf| else 0)
              && (c == Splices ==>
                    && sector in files && files == old(files)[sector := files[sector]]
                    && files[sector].d.isDir == old(files)[sector].d.isDir
                    && Data() == old(Data())[sector := Splice(old(Data())[sector], ofs, buf)]
                    && files[sector].own + FreeSectors() == old(files[sector].own + FreeSectors())
                    && (old(NoLeaks()) ==> NoLeaks()))
              && (c == NoRoom && Nearly(ofs + |buf|, |old(files[sector].own)|) ==>
                    files == old(files) && Data() == old(Data()))
              && (c != Splices && !(c == NoRoom && Nearly(ofs + |buf|, |old(files[sector].own)|)) ==>
                    files == old(files) - {sector} && Data() == old(Data()) - {sector})
              && (c == NoRoom ==>
                    && Survives(old(files[sector]), sector, old(Data())[sector])
                    && |FreeSectors()| == SectorsLeft(ofs + |buf|, |old(files[sector].own)|, |old(FreeSectors())|))
              && MapInodeAfter(vol, old(MapInodeOnDisk(vol)),
                               c == NoRoom && Wipes(ofs + |buf|, |old(files[sector].own)|, |old(FreeSectors())|))
    {
      hide Volume.Valid, Volume.Core, Volume.Synced, FileOK, Safe, Exact, OnlyDataChanged, Sound, OthersKept,
        BystandersKept, Contents;
      hide Splice, Bytes, Reservable, Affordable, RanOut, Extends, Unclaimed, Free, StaysAllocated;
      ghost var own, d := files[sector].own, files[sector].d;
      ghost var s := Now(vol, own);
      FileAt(s.view, s.bits, files, sector, vol.mapOwn);
      var f := OpenAtRest(vol, sector, d, own);
      ghost var grown;
      written, grown := WriteAt(vol, f, buf, ofs, own);
      ghost var t := Now(vol, grown);
      MapInUse(vol);
      if CaseOf(false, d.length, ofs, |buf|, |own|, |Free(s.bits)|) == Splices {
        WriteStep(s, t, files, sector, f.data, vol.mapOwn);
        OwnSectorZeroKept(s, t, sector, d, vol.mapOwn);
        files := files[sector := FileInfo(grown, f.data)];
      } else {
        OthersUnclaimed(s.view, s.bits, files, sector, vol.mapOwn);
        SafeWithout(s.view, s.bits, files, vol.mapOwn, sector);
        DropStep(s, t, files - {sector}, sector, vol.mapOwn);
        ghost var rest := files - {sector};
        if CaseOf(false, d.length, ofs, |buf|, |own|, |Free(s.bits)|) == NoRoom {
          FileSurvives(s, t, sector, d, ofs + |buf|, vol.mapOwn);
          if Nearly(ofs + |buf|, |own|) {
            FileKept(s, t, files, sector, ofs + |buf|, vol.mapOwn);
            rest := files;
          }
        } else {
          OwnSectorZeroKept(s, t, sector, d, vol.mapOwn);
        }
        files := rest;
      }
    }
  }

  /** The size of a live file's tree is determined by its length. */
  lemma FileFacts(fs: FileSystem, sector: nat)
    requires fs.Inv() && sector in fs.files
    ensures sector in fs.Data() && 0 < sector < WORD_LIMIT && |fs.Data()[sector]| == fs.files[sector].d.length
    ensures var n := Sectors(|fs.Data()[sector]|); n <= CAPACITY && |fs.files[sector].own| == Total(n)
    ensures sector !in fs.files[sector].own
    ensures forall r :: 0 <= r < |fs.files[sector].own| ==> 0 < fs.files[sector].own[r] < 0xFFFF_FFFE
  {
  }

  /** Every live file's inode is in its sector, byte for byte, and its index blocks word for word. */
  lemma InodeLaidOut(fs: FileSystem, sector: nat)
    requires fs.Inv() && sector in fs.files
    ensures sector in fs.Data() && sector < |fs.vol.cache.view|
    ensures InodeAt(fs.vol.cache.view[sector], fs.files[sector].own, fs.files[sector].d.isDir, |fs.Data()[sector]|)
    ensures IndexBlocksAt(fs.vol.cache.view, fs.files[sector].own)
  {
    hide Volume.Valid, Volume.Core, Volume.Synced, FileOK, Safe, Contents, InodeAt, IndexBlocksAt;
    var view, bits, info := fs.vol.cache.view, fs.vol.freeMap.contents, fs.files[sector];
    FileFacts(fs, sector);
    FileAt(view, bits, fs.files, sector, fs.vol.mapOwn);
    RestsInForm(Snapshot(view, bits, info.own), sector, info.d, fs.vol.mapOwn);
  }

  /** A live file's sectors, its inode's included, are as many as creating it took, all in use. */
  lemma FileSectors(fs: FileSystem, sector: nat)
    requires fs.Inv() && sector in fs.files
    ensures sector in fs.Data()
    ensures var s := {sector} + SetOf(fs.files[sector].own);
            && |s| == CreationCost(|fs.Data()[sector]|)
            && forall x :: x in s ==> x < |fs.vol.freeMap.contents| && fs.vol.freeMap.contents[x]
  {
    hide Volume.Valid, Volume.Core, Volume.Synced, FileOK, Safe, Contents, Disjoint;
    var own := fs.files[sector].own;
    FileFacts(fs, sector);
    forall x | x in {sector} + SetOf(own) ensures x < |fs.vol.freeMap.contents| && fs.vol.freeMap.contents[x] {
      assert Claims(fs.files, sector, x);
      ClaimedInUse(fs.vol.cache.view, fs.vol.freeMap.contents, fs.files, fs.vol.mapOwn, sector, x);
    }
    FileAt(fs.vol.cache.view, fs.vol.freeMap.contents, fs.files, sector, fs.vol.mapOwn);
    TreeDistinct(Snapshot(fs.vol.cache.view, fs.vol.freeMap.contents, own), sector, fs.files[sector].d, fs.vol.mapOwn);
    DistinctSize(own);
  }

  lemma TreeDistinct(s: Snapshot, sector: nat, d: DiskInode, mapOwn: seq<nat>)
    requires FileOK(s, sector, d, mapOwn)
    ensures forall i, j :: 0 <= i < j < |s.own| ==> s.own[i] != s.own[j]
  {
  }

  lemma {:induction false} DistinctSize(s: seq<nat>)
    requires forall i, j :: 0 <= i < j < |s| ==> s[i] != s[j]
    ensures |SetOf(s)| == |s|
  {
    if s == [] {
    } else {
      var t, x := s[..|s| - 1], s[|s| - 1];
      DistinctSize(t);
      assert SetOf(s) == SetOf(t) + {x};
    }
  }

  /** Clearing the bits of sectors in use adds exactly those to the free ones. */
  lemma ClearCount(bits: seq<bool>, s: set<nat>)
    requires forall x :: x in s ==> x < |bits| && bits[x]
    ensures |Free(Clear(bits, s))| == |Free(bits)| + |s|
  {
    hide Free, Clear, SetOf;
    var before, after := Free(bits), Free(Clear(bits, s));
    FreeExact(bits);
    FreeExact(Clear(bits, s));
    DistinctSize(before);
    DistinctSize(after);
    ClearedSet(bits, s);
  }

  lemma ClearedSet(bits: seq<bool>, s: set<nat>)
    requires forall x :: x in s ==> x < |bits| && bits[x]
    ensures SetOf(Free(Clear(bits, s))) == SetOf(Free(bits)) + s && SetOf(Free(bits)) !! s
  {
    hide Free;
    FreeExact(bits);
    FreeExact(Clear(bits, s));
  }

  lemma OneMoreFree(bits: seq<bool>, sector: nat)
    requires sector < |bits| && bits[sector]
    ensures |Free(SetRange(bits, sector, 1, false))| == |Free(bits)| + 1
  {
    ClearCount(bits, {sector});
    assert SetRange(bits, sector, 1, false) == Clear(bits, {sector});
  }

  lemma SectorUnclaimed(view: seq<Block>, bits: seq<bool>, files: Table, sector: nat, mapOwn: seq<nat>)
    requires Safe(view, bits, files, mapOwn) && sector in files
    ensures 0 < sector < |bits| && bits[sector] && sector !in mapOwn && Run(bits, sector, 1, true)
    ensures Safe(view, bits, files - {sector}, mapOwn)
    ensures Contents(view, files - {sector}) == Contents(view, files) - {sector}
    ensures forall r, x :: Claims(files - {sector}, r, x) ==> x != sector
  {
    hide FileOK;
    assert Claims(files, sector, sector);
    ClaimedInUse(view, bits, files, mapOwn, sector, sector);
    SafeWithout(view, bits, files, mapOwn, sector);
    OthersUnclaimed(view, bits, files, sector, mapOwn);
  }

  lemma FileAt(view: seq<Block>, bits: seq<bool>, files: Table, sector: nat, mapOwn: seq<nat>)
    requires Safe(view, bits, files, mapOwn) && sector in files
    ensures FileOK(Snapshot(view, bits, files[sector].own), sector, files[sector].d, mapOwn)
    ensures sector in Contents(view, files) && 0 <= files[sector].d.length && 0 < sector < |view|
    ensures Contents(view, files)[sector] == Bytes(view, files[sector].own, files[sector].d.length)
  {
  }

  /** The free-map inode's sector is none of the sectors the operations write. */
  lemma SectorZeroNotMap(view: seq<Block>, after: seq<Block>, bits: seq<bool>, mapOwn: seq<nat>)
    requires OnlyDataChanged(view, after, mapOwn) && Owned(mapOwn, bits)
    ensures |view| > 0 ==> after[0] == view[0]
  {
  }

  lemma SectorZeroKept(t: Snapshot, u: Snapshot, sector: nat, mapOwn: seq<nat>)
    requires Sound(t, mapOwn) && t.own == [] && sector > 0 && OthersKept(t, u, sector, mapOwn)
    ensures |t.view| > 0 && |u.view| > 0 && u.view[0] == t.view[0]
  {
  }

  lemma OwnSectorZeroKept(s: Snapshot, t: Snapshot, sector: nat, d: DiskInode, mapOwn: seq<nat>)
    requires FileOK(s, sector, d, mapOwn) && sector > 0 && OthersKept(s, t, sector, mapOwn)
    ensures |s.view| > 0 && |t.view| > 0 && t.view[0] == s.view[0]
  {
  }

  lemma NothingOwned(vol: Volume)
    requires vol.Ready()
    ensures CanGrow(vol, [])
  {
  }

  lemma AllocationFailed(s: Snapshot, t: Snapshot, files: Table, mapOwn: seq<nat>)
    requires Sound(s, mapOwn) && Safe(s.view, s.bits, files, mapOwn)
    requires OnlyDataChanged(s.view, t.view, mapOwn) && t.bits == s.bits
    ensures Safe(t.view, t.bits, files, mapOwn) && Contents(t.view, files) == Contents(s.view, files)
  {
    MarkStep(s.view, s.bits, t.view, t.bits, files, mapOwn);
  }

  /** The inode sector of a new file has been taken off the free list. */
  lemma InodeSectorTaken(s: Snapshot, t: Snapshot, files: Table, sector: nat, mapOwn: seq<nat>)
    requires Sound(s, mapOwn) && s.own == [] == t.own && Safe(s.view, s.bits, files, mapOwn)
    requires OnlyDataChanged(s.view, t.view, mapOwn) && Lowest(s.bits, sector) && t.bits == s.bits[sector := true]
    ensures Sound(t, mapOwn) && sector < |t.bits| == |s.bits| && t.bits[sector] && sector !in mapOwn && sector > 0
    ensures Safe(t.view, t.bits, files, mapOwn) && Contents(t.view, files) == Contents(s.view, files)
    ensures Unclaimed(files, sector, []) && sector !in files
    ensures Free(s.bits) == [sector] + Free(t.bits) && t.bits[sector := false] == s.bits
  {
    hide FileOK;
    TakeLowest(s.bits, sector);
    assert sector in files ==> Claims(files, sector, sector);
    forall r, x | Claims(files, r, x) ensures x != sector && 0 <= x < |s.bits| && s.bits[x] {
      ClaimedInUse(s.view, s.bits, files, mapOwn, r, x);
    }
    MarkStep(s.view, s.bits, t.view, t.bits, files, mapOwn);
  }

  lemma NewFile(s: Snapshot, t: Snapshot, u: Snapshot, files: Table, sector: nat, d: DiskInode, mapOwn: seq<nat>)
    requires Safe(t.view, t.bits, files, mapOwn) && Contents(t.view, files) == Contents(s.view, files) && t.own == []
    requires sector < |s.bits| && t.bits == s.bits[sector := true] && sector > 0
    requires forall r, x :: Claims(files, r, x) ==> x != sector
    requires FileOK(u, sector, d, mapOwn) && OthersKept(t, u, sector, mapOwn) && Grown(t.bits, [], u.bits, u.own)
    ensures sector !in files && 0 <= d.length
    ensures Safe(u.view, u.bits, files[sector := FileInfo(u.own, d)], mapOwn)
    ensures Contents(u.view, files[sector := FileInfo(u.own, d)])
            == Contents(s.view, files)[sector := Bytes(u.view, u.own, d.length)]
    ensures Exact(s.bits, files, mapOwn) ==> Exact(u.bits, files[sector := FileInfo(u.own, d)], mapOwn)
    ensures Free(t.bits) == u.own + Free(u.bits)
  {
    hide FileOK, Bytes, Disjoint, ContentsOf, Safe, OthersKept, Exact;
    assert sector in files ==> Claims(files, sector, sector);
    UpdateStep(t, u, files, sector, d, mapOwn);
    GrownPrefix(t.bits, [], u.bits, u.own);
    GrownBits(t.bits, [], u.bits, u.own);
    assert [] + Free(t.bits) == Free(t.bits);
    if Exact(s.bits, files, mapOwn) {
      ExactGrown(s.bits, u.bits, files, files[sector := FileInfo(u.own, d)], sector, [], u.own, mapOwn);
    }
  }

  lemma SectorTaken(bits: seq<bool>, files: Table, sector: nat)
    requires sector < |bits| && bits[sector] && Unclaimed(files, sector, [])
    ensures bits[sector := false][sector := true] == bits
    ensures forall r, x :: Claims(files, r, x) ==> x != sector
  {
  }

  lemma TakenInOrder(free: seq<nat>, sector: nat, own: seq<nat>, left: seq<nat>)
    requires free == [sector] + (own + left)
    ensures [sector] + own == free[..1 + |own|] && left == free[1 + |own|..]
  {
  }

  /** The inode could not be created; the other files are untouched. */
  lemma NotCreated(s: Snapshot, t: Snapshot, u: Snapshot, files: Table, sector: nat, length: nat, mapOwn: seq<nat>)
    requires Safe(t.view, t.bits, files, mapOwn) && Contents(t.view, files) == Contents(s.view, files) && t.own == []
    requires sector < |t.bits| && t.bits[sector] && FailedGrowth(t, u, length, mapOwn)
    requires |u.bits| > 0 && u.bits[0] && Owned(mapOwn, u.bits)
    requires forall r, x :: Claims(files, r, x) ==> x != sector
    ensures Safe(u.view, u.bits, files, mapOwn) && Contents(u.view, files) == Contents(s.view, files)
    ensures Run(u.bits, sector, 1, true)
  {
    DropStep(t, u, files, sector, mapOwn);
  }

  /** A file whose write found no room keeps its inode and its bytes on the disk. */
  lemma FileSurvives(s: Snapshot, t: Snapshot, sector: nat, d: DiskInode, length: nat, mapOwn: seq<nat>)
    requires FileOK(s, sector, d, mapOwn) && sector > 0 && 0 <= d.length && FailedGrowth(s, t, length, mapOwn)
    ensures Encodable(d) && sector < |t.view| && t.view[sector] == EncodeInode(d)
    ensures Bytes(t.view, s.own, d.length) == Bytes(s.view, s.own, d.length)
  {
    FileEncodable(s, d, mapOwn);
  }

  /** A write that found no room for want of one data sector leaves the table as it was. */
  lemma FileKept(s: Snapshot, t: Snapshot, files: Table, sector: nat, length: nat, mapOwn: seq<nat>)
    requires Safe(s.view, s.bits, files, mapOwn) && sector in files && s.own == files[sector].own
    requires FailedGrowth(s, t, length, mapOwn) && Nearly(length, |s.own|)
    requires Safe(t.view, t.bits, files - {sector}, mapOwn)
    requires Contents(t.view, files - {sector}) == Contents(s.view, files - {sector})
    ensures Safe(t.view, t.bits, files, mapOwn) && Contents(t.view, files) == Contents(s.view, files)
  {
    hide FileOK, FailedGrowth, Nearly, Bytes, Disjoint, Claims;
    var rest, info := files - {sector}, files[sector];
    StillAtRest(s, t, sector, info.d, length, mapOwn);
    OthersUnclaimed(s.view, s.bits, files, sector, mapOwn);
    SafeAdd(t.view, t.bits, rest, mapOwn, sector, info);
    assert rest[sector := info] == files;
    SafeWithout(s.view, s.bits, files, mapOwn, sector);
  }

  lemma SectorReturned(s: Snapshot, t: Snapshot, files: Table, sector: nat, mapOwn: seq<nat>)
    requires Safe(s.view, s.bits, files, mapOwn) && OnlyDataChanged(s.view, t.view, mapOwn)
    requires sector < |s.bits| && t.bits == SetRange(s.bits, sector, 1, false)
    requires |t.bits| > 0 && t.bits[0] && Owned(mapOwn, t.bits)
    requires forall r, x :: Claims(files, r, x) ==> x != sector
    ensures Safe(t.view, t.bits, files, mapOwn) && Contents(t.view, files) == Contents(s.view, files)
  {
    hide FileOK;
    MarkStep(s.view, s.bits, t.view, t.bits, files, mapOwn);
  }

  /** The free-map file's sectors and sector 0 are always in use. */
  lemma MapInUse(vol: Volume)
    requires vol.Ready()
    ensures |vol.freeMap.contents| > 0 && vol.freeMap.contents[0] && Owned(vol.mapOwn, vol.freeMap.contents)
    ensures |vol.cache.view| == |vol.freeMap.contents| + 1
  {
  }

  /** filesys_done followed by filesys_init on the same device: writes the cache back, then
      mounts the disk afresh. Nothing is lost, provided sector 0 has not been wiped. */
  method Remount(fs: FileSystem) returns (ok: bool, mounted: FileSystem)
    requires fs.Inv() && MapInodeOnDisk(fs.vol)
    modifies fs.vol.cache.device, fs.vol.cache.slots
    ensures ok && mounted.Inv() && mounted.vol.cache.device == fs.vol.cache.device
    ensures fresh(mounted) && fresh(mounted.vol.Repr() - {mounted.vol.cache.device})
    ensures mounted.files == fs.files && mounted.Data() == old(fs.Data())
    ensures mounted.FreeSectors() == old(fs.FreeSectors())
    ensures mounted.NoLeaks() == old(fs.NoLeaks())
    ensures mounted.vol.mapOwn == fs.vol.mapOwn && MapInodeOnDisk(mounted.vol)
  {
    hide Volume.Valid, Volume.Core, Volume.Synced, Safe, Exact, Contents, MapOnDisk;
    ghost var d, own, words, saved := fs.vol.mapFile.data, fs.vol.mapOwn,
      fs.vol.freeMap.bits[..], fs.vol.freeMap.contents;
    MountFacts(fs.vol);
    var device := WriteBack(fs.vol);
    var vol;
    ok, vol := MountVolume(device, d, own, words, saved);
    mounted := new FileSystem(vol, fs.files);
  }

  /** filesys_init on a disk whose sector 0 has been overwritten with zeros. It reports the failure
      and goes on with the bitmap of free_map_init, in which only the first two sectors are in use. */
  method MountWiped(device: array<Block>) returns (ok: bool, vol: Volume)
    requires 3 <= device.Length <= BITMAP_ERROR && IsZeroed(device[0])
    modifies device
    ensures !ok && fresh(vol) && vol.cache.Valid() && vol.freeMap.Valid() && vol.cache.device == device
    ensures vol.cache.view == old(device[..]) && vol.freeMap.contents == seq(device.Length - 1, i => i < 2)
    ensures vol.mapFile != null && vol.mapFile.data.length == 0 && vol.mapOwn == []
  {
    hide Volume.Valid, Volume.Core, Volume.Synced;
    var cache := new BufferCache(device);
    vol := new Volume(cache);
    ok := OpenWipedMap(vol);
  }

  /** A disk holding a free-map file at `own`, inode `d` and bitmap `saved`, packed as `words`. */
  ghost predicate MapOnDisk(view: seq<Block>, d: DiskInode, own: seq<nat>, words: seq<Elem>, saved: seq<bool>) {
    && 3 <= |view| <= BITMAP_ERROR && Encodable(d) && view[0] == EncodeInode(d) && Stored(view, d, own)
    && |saved| == |view| - 1 && saved[0] && Owned(own, saved)
    && d.length == MapBytes(|saved|) && Packs(words, saved) && Bytes(view, own, d.length) == ElemsBytes(words)
  }

  /** filesys_init: the cache, the free map, and the free-map file. */
  method MountVolume(device: array<Block>, ghost d: DiskInode, ghost own: seq<nat>, ghost words: seq<Elem>,
      ghost saved: seq<bool>)
    returns (ok: bool, vol: Volume)
    requires MapOnDisk(device[..], d, own, words, saved)
    modifies device
    ensures ok && vol.Ready() && vol.mapFile != null && vol.cache.device == device && MapInodeOnDisk(vol)
    ensures fresh(vol) && fresh(vol.Repr() - {device})
    ensures vol.cache.view == old(device[..]) && vol.mapOwn == own && vol.freeMap.contents == saved
  {
    hide Volume.Valid, Volume.Core, Volume.Synced, EncodeInode, Stored, Owned, Packs, Bytes, ElemsBytes, Encodable;
    var cache := new BufferCache(device);
    vol := new Volume(cache);
    VolumeSize(vol);
    ok := FreeMapOpen(vol, d, own, words, saved);
  }

  /** What a mounted volume has on disk for the next mount to find. */
  lemma MountFacts(vol: Volume)
    requires vol.Ready() && vol.mapFile != null
    requires MapInodeOnDisk(vol)
    ensures MapOnDisk(vol.cache.view, vol.mapFile.data, vol.mapOwn, vol.freeMap.bits[..], vol.freeMap.contents)
  {
  }

  /** free_map_close and free_map_open: the bitmap read back is the one that was there. */
  method ReopenMap(fs: FileSystem)
    requires fs.Inv() && MapInodeOnDisk(fs.vol)
    modifies fs.vol`mapFile, fs.vol`mapOwn, fs.vol.Repr()
    ensures fs.Inv() && fs.Data() == old(fs.Data()) && fs.FreeSectors() == old(fs.FreeSectors())
    ensures fs.NoLeaks() == old(fs.NoLeaks()) && fs.vol.mapOwn == old(fs.vol.mapOwn) && MapInodeOnDisk(fs.vol)
  {
    hide Volume.Valid, Volume.Core, Volume.Synced, Safe, Exact, Contents, Stored, Packs, Bytes, ElemsBytes, EncodeInode;
    ghost var d, own := fs.vol.mapFile.data, fs.vol.mapOwn;
    ghost var words, saved := fs.vol.freeMap.bits[..], fs.vol.freeMap.contents;
    MountFacts(fs.vol);
    VolumeSize(fs.vol);
    CloseMap(fs.vol);
    var ok := FreeMapOpen(fs.vol, d, own, words, saved);
  }

  /** file_close of the free-map file. */
  method CloseMap(vol: Volume)
    requires vol.Ready()
    modifies vol`mapFile, vol`mapOwn
    ensures vol.Ready() && vol.mapFile == null
  {
    vol.mapFile := null;
    vol.mapOwn := [];
  }

  /** filesys_done's buffer_cache_close. */
  method WriteBack(vol: Volume) returns (device: array<Block>)
    requires vol.Ready()
    modifies vol.cache.device, vol.cache.slots
    ensures device == vol.cache.device && device[..] == vol.cache.view
  {
    vol.cache.Close();
    device := vol.cache.device;
  }
}
