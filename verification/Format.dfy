/** Formatting a disk (do_format in filesys.c, dir_create in directory.c): the state from which
    every run of the file system starts. */
module Format {
  import opened Sector
  import opened Geometry
  import opened FreeList
  import opened BlockTree
  import opened FileBytes
  import opened Cache
  import opened Bitmap
  import opened Volume
  import opened Files
  import opened FileTable
  import opened MapFile
  import opened FileSystem
  import opened Directory
  import opened Dirs
  import opened Filesys
  import opened Defrag

  const MAX_FILES_IN_DIRECTORY := 1000

  /** A directory entry of zeros with only its sector and its mark set. */
  function ParentEntry(sector: nat): Entry {
    Entry(sector, seq(NAME_BYTES, _ => 0), true)
  }

  lemma NoSlotUsed(count: nat, i: nat)
    requires i < count
    ensures |Slots(Zeros(ENTRY_BYTES * count))| == count && !Slots(Zeros(ENTRY_BYTES * count))[i].inUse
  {
    var b := Zeros(ENTRY_BYTES * count)[ENTRY_BYTES * i..ENTRY_BYTES * i + ENTRY_BYTES];
    assert b[35] == 0;
  }

  /** A new directory has its parent's slot and no binding. */
  lemma NewDirectory(sector: nat, count: nat)
    requires 0 < count && sector < WORD_LIMIT
    ensures var data := Splice(Zeros(ENTRY_BYTES * count), 0, EncodeEntry(ParentEntry(sector)));
            && |data| == ENTRY_BYTES * count && |Slots(data)| == count && Slots(data)[0] == ParentEntry(sector)
            && WellFormed(Slots(data)) && Bindings(Slots(data)) == map[] && Holes(Slots(data)) == count - 1
            && Slots(data)[0].sector == sector && forall k :: 0 <= k < 31 ==> Slots(data)[0].name[k] == 0
  {
    hide Zeros, Bindings, EncodeEntry, Holes;
    var empty := Zeros(ENTRY_BYTES * count);
    forall i | 0 <= i < count ensures |Slots(empty)| == count && !Slots(empty)[i].inUse {
      NoSlotUsed(count, i);
    }
    NoSlotUsed(count, 0);
    SlotsAfterWrite(empty, 0, ParentEntry(sector));
    var slots := Slots(Splice(empty, 0, EncodeEntry(ParentEntry(sector))));
    assert WellFormed(slots);
    EmptyIsNoBinding(slots);
    AllHoles(Slots(empty));
    HolesAfter(Slots(empty), 0, ParentEntry(sector));
  }

  lemma {:induction false} AllHoles(slots: seq<Entry>)
    requires forall i :: 0 <= i < |slots| ==> !slots[i].inUse
    ensures Holes(slots) == |slots|
  {
    if slots == [] {
    } else {
      AllHoles(slots[1..]);
    }
  }

  /** dir_create. */
  method DirCreate(fs: FileSystem, sector: nat, count: nat) returns (ok: bool)
    requires fs.Inv() && 0 < count && ENTRY_BYTES * count <= OFFSET_LIMIT && fs.Spare(sector)
    modifies fs, fs.vol.Repr()
    ensures fs.Inv()
    ensures var n := Sectors(ENTRY_BYTES * count); ok == (n <= CAPACITY && Total(n) <= |old(fs.FreeSectors())|)
    ensures ok ==>
              sector !in old(fs.files) && sector in fs.files && fs.files == old(fs.files)[sector := fs.files[sector]]
    ensures ok ==> sector in fs.Data() && fs.Data() == old(fs.Data())[sector := fs.Data()[sector]]
    ensures ok ==> fs.Data()[sector] == Splice(Zeros(ENTRY_BYTES * count), 0, EncodeEntry(ParentEntry(sector)))
    ensures ok ==> fs.files[sector].own + fs.FreeSectors() == old(fs.FreeSectors())
    ensures ok && old(fs.NoLeaksBut(sector)) ==> fs.NoLeaks()
    ensures ok && old(MapInodeOnDisk(fs.vol)) ==> MapInodeOnDisk(fs.vol)
  {
    hide FileSystem.Inv, FileSystem.Data, FileSystem.FreeSectors, FileSystem.NoLeaks, FileSystem.NoLeaksBut,
      FileSystem.Spare, Zeros, Splice, EncodeEntry, Total, MapInodeOnDisk, Wipes;
    ok := fs.CreateAt(sector, ENTRY_BYTES * count, true);
    if ok {
      FileFacts(fs, sector);
      FirstSlotFits(count, |fs.files[sector].own|, |fs.FreeSectors()|);
      var written := fs.Write(sector, EncodeEntry(ParentEntry(sector)), 0);
    }
  }

  lemma FirstSlotFits(count: nat, owned: nat, free: nat)
    requires 0 < count
    ensures CaseOf(false, ENTRY_BYTES * count, 0, ENTRY_BYTES, owned, free) == Splices
  {
  }

  /** free_map_init, seen as a sequence: only the first two sectors are in use. */
  function Reserved(n: nat): (bits: seq<bool>)
    ensures |bits| == n
  {
    seq(n, i => i < 2)
  }

  function Upward(start: nat, n: nat): (s: seq<nat>)
    ensures |s| == n && forall i :: 0 <= i < n ==> s[i] == start + i
  {
    seq(n, i => start + i)
  }

  lemma ReservedFree(n: nat)
    requires 2 <= n
    ensures Free(Reserved(n)) == Upward(2, n - 2)
  {
    CompactFree(Reserved(n), 2);
  }

  /** What free_map_create leaves: the free-map file's sectors follow the two reserved ones. */
  lemma MapComesFirst(n: nat, bits: seq<bool>, mapOwn: seq<nat>)
    requires 2 <= n && Grown(Reserved(n), [], bits, mapOwn)
    ensures |bits| == n && mapOwn + Free(bits) == Upward(2, n - 2)
    ensures bits[1] && 1 !in mapOwn && Exact(bits[1 := false], map[], mapOwn)
  {
    ReservedFree(n);
    assert [] + Free(Reserved(n)) == Free(Reserved(n));
    hide Free, Upward;
    GrownBits(Reserved(n), [], bits, mapOwn);
    assert mapOwn[0..] == mapOwn;
  }

  lemma NoFilesYet(vol: Volume)
    requires vol.Ready()
    ensures Safe(vol.cache.view, vol.freeMap.contents, map[], vol.mapOwn)
  {
  }

  /** A prefix of consecutive sectors is consecutive, and so is the rest. */
  lemma UpwardSplit(start: nat, n: nat, s: seq<nat>, t: seq<nat>)
    requires s + t == Upward(start, n)
    ensures |s| <= n && s == Upward(start, |s|) && t == Upward(start + |s|, n - |s|)
  {
    assert |s + t| == |s| + |t|;
    forall i | 0 <= i < |s| ensures s[i] == start + i {
      assert s[i] == (s + t)[i];
    }
    forall i | 0 <= i < |t| ensures t[i] == start + |s| + i {
      assert t[i] == (s + t)[|s| + i];
    }
  }

  lemma UpwardMembers(start: nat, n: nat)
    ensures forall x: int :: x in Upward(start, n) <==> start <= x < start + n
  {
    forall x: int ensures x in Upward(start, n) <==> start <= x < start + n {
      assert start <= x < start + n ==> Upward(start, n)[x - start] == x;
    }
  }

  /** The directory's sectors follow the free-map file's. */
  lemma BaseComesFirst(s: DirState, free: seq<nat>, n: nat)
    requires ROOT_DIR_SECTOR in s.files
    requires s.mapOwn + free == Upward(2, n) && s.files[ROOT_DIR_SECTOR].own + s.free == free
    ensures BasePacked(s)
  {
    var own := s.files[ROOT_DIR_SECTOR].own;
    UpwardSplit(2, n, s.mapOwn, free);
    UpwardSplit(2 + |s.mapOwn|, n - |s.mapOwn|, own, s.free);
    UpwardMembers(2, |s.mapOwn|);
    UpwardMembers(2 + |s.mapOwn|, |own|);
  }

  /** The part of filesys_init and do_format up to free_map_create. */
  method FormatMap(device: array<Block>) returns (ok: bool, fs: FileSystem?)
    requires 3 <= device.Length <= BITMAP_ERROR
    modifies device
    ensures var n := device.Length - 1;
            ok == (Sectors(MapBytes(n)) <= CAPACITY && Total(Sectors(MapBytes(n))) <= n - 2)
    ensures ok ==>
              fs != null && fresh(fs) && fs.Inv() && fs.files == map[] &&
              fs.vol.cache.device == device && fresh(fs.vol.Repr() - {device})
    ensures ok ==> fs.Spare(ROOT_DIR_SECTOR) && fs.NoLeaksBut(ROOT_DIR_SECTOR) && MapInodeOnDisk(fs.vol)
    ensures ok ==> fs.vol.mapOwn + fs.FreeSectors() == Upward(2, device.Length - 3)
    ensures ok ==> |fs.vol.mapOwn| == Total(Sectors(MapBytes(device.Length - 1)))
  {
    hide Volume.Valid, Volume.Core, Volume.Synced, Safe, Exact, Grown, Upward, Total, Free, MapBytes;
    ghost var n := device.Length - 1;
    var cache := new BufferCache(device);
    var vol := new Volume(cache);
    VolumeSize(vol);
    ReservedFree(n);
    ok := FreeMapCreate(vol);
    if !ok {
      return false, null;
    }
    NoFilesYet(vol);
    MapComesFirst(n, vol.freeMap.contents, vol.mapOwn);
    fs := new FileSystem(vol, map[]);
  }

  /** The free-map file and the root directory fit on a disk of `blocks` sectors. */
  predicate Formattable(blocks: nat) {
    && blocks >= 3 && Sectors(MapBytes(blocks - 1)) <= CAPACITY
    && Total(Sectors(MapBytes(blocks - 1))) + Total(Sectors(ENTRY_BYTES * MAX_FILES_IN_DIRECTORY)) <= blocks - 3
  }

  /** filesys_init on a disk to be formatted. */
  method Format(device: array<Block>) returns (ok: bool, dir: Dir?)
    requires 3 <= device.Length <= BITMAP_ERROR
    modifies device
    ensures ok == Formattable(device.Length)
    ensures ok ==> dir != null && fresh(dir) && dir.Valid() && dir.inode == ROOT_DIR_SECTOR && dir.pos == ENTRY_BYTES
    ensures ok ==> dir.fs.vol.cache.device == device && fresh(dir.fs) && fresh(dir.fs.vol.Repr() - {device})
    ensures ok ==> Linked(dir.State()) && Named(dir.State()) == map[] && dir.State().tidy && dir.State().mapped
    ensures ok ==> |dir.State().entries| == MAX_FILES_IN_DIRECTORY
    ensures ok ==> Holes(dir.State().entries) == MAX_FILES_IN_DIRECTORY - 1
    ensures ok ==> dir.State().entries[0].sector == ROOT_DIR_SECTOR && dir.State().entries[0].inUse
    ensures ok ==> BasePacked(dir.State()) && ROOT_DIR_SECTOR in dir.State().files
    ensures ok ==> var s := dir.State();
            && s.mapOwn + (s.files[ROOT_DIR_SECTOR].own + s.free) == Upward(2, device.Length - 3)
            && |s.mapOwn| == Total(Sectors(MapBytes(device.Length - 1)))
            && |s.files[ROOT_DIR_SECTOR].own| == Total(Sectors(ENTRY_BYTES * MAX_FILES_IN_DIRECTORY))
  {
    hide FileSystem.Inv, FileSystem.Data, FileSystem.NoLeaks, FileSystem.NoLeaksBut, FileSystem.Spare,
      FileSystem.FreeSectors, Upward, Total, MapBytes, Bindings, WellFormed, Slots, Zeros, Splice, EncodeEntry, Bound,
      BasePacked, MapInodeOnDisk;
    var fs;
    ok, fs := FormatMap(device);
    if !ok {
      return false, null;
    }
    ghost var free := fs.FreeSectors();
    ok := DirCreate(fs, ROOT_DIR_SECTOR, MAX_FILES_IN_DIRECTORY);
    if !ok {
      return false, null;
    }
    NewDirectory(ROOT_DIR_SECTOR, MAX_FILES_IN_DIRECTORY);
    ReopenMap(fs);
    FileFacts(fs, ROOT_DIR_SECTOR);
    dir := new Dir(fs, ROOT_DIR_SECTOR);
    assert forall o :: o in fs.vol.Repr() ==> o != dir;
    dir.EntriesFormed();
    OnlyTheRoot(dir.State());
    BaseComesFirst(dir.State(), free, device.Length - 3);
  }

  lemma OnlyTheRoot(s: DirState)
    requires |s.entries| > 0 && WellFormed(s.entries) && Bindings(s.entries) == map[]
    requires s.files.Keys == {ROOT_DIR_SECTOR} && s.data.Keys == s.files.Keys
    ensures Linked(s) && Named(s) == map[]
  {
  }
}
