/** Open directories (struct dir in directory.c): their methods read and write the slots in
    the bytes of the directory's inode. */
module Dirs {
  import opened Sector
  import opened Geometry
  import opened FileBytes
  import opened Reserve
  import opened Files
  import opened FileTable
  import opened MapFile
  import opened FileSystem
  import opened Directory

  /** What a directory's methods can see and change: its entries, every file's contents, sectors
      and header, the free sectors, the free-map file's sectors, whether no sector is lost, and
      whether the inode in sector 0 is there for the next mount. */
  datatype DirState = DirState(
    entries: seq<Entry>,
    data: map<nat, seq<byte>>,
    files: Table,
    free: seq<nat>,
    mapOwn: seq<nat>,
    tidy: bool,
    mapped: bool)

  /** What every operation that takes place keeps. */
  ghost predicate Keeps(s: DirState, t: DirState) {
    t.mapOwn == s.mapOwn && (s.tidy ==> t.tidy) && (s.mapped ==> t.mapped)
  }

  /** Nothing has changed but the free sectors, and perhaps the inode in sector 0. */
  ghost predicate SameFiles(s: DirState, t: DirState) {
    t.entries == s.entries && t.data == s.data && t.files == s.files && t.mapOwn == s.mapOwn
  }

  /** Slot `i` exists, or one more can be afforded. */
  ghost predicate SlotFits(s: DirState, inode: nat, i: nat) {
    i < |s.entries| ||
    (inode in s.files && Reservable(ENTRY_BYTES * i + ENTRY_BYTES, |s.files[inode].own|, |s.free|))
  }

  /** Entry `e` has been stored at slot `i` of `inode`. Nothing else has changed, but for the
      sectors the directory may have gained. */
  ghost predicate Stores(s: DirState, t: DirState, inode: nat, i: nat, e: Entry) {
    && i <= |s.entries| && t.entries == Put(s.entries, i, e)
    && inode in s.files && inode in t.files && inode in t.data
    && t.data == s.data[inode := t.data[inode]] && t.files == s.files[inode := t.files[inode]]
    && t.files[inode].d.isDir == s.files[inode].d.isDir
    && t.files[inode].own + t.free == s.files[inode].own + s.free
    && (i < |s.entries| ==> t.free == s.free && t.files[inode].own == s.files[inode].own)
    && Keeps(s, t)
  }

  /** What dir_add does when it succeeds. */
  ghost predicate Adds(s: DirState, t: DirState, inode: nat, name: Name, sector: nat) {
    && |s.entries| > 0 && |t.entries| > 0 && |name| <= NAME_MAX
    && Bindings(t.entries) == Bindings(s.entries)[name := sector] && t.entries[0] == s.entries[0]
    && Stores(s, t, inode, FreeSlot(s.entries, 0), Entry(sector, Padded(name), true))
  }

  class Dir {
    const fs: FileSystem
    const inode: nat
    var pos: nat

    /** dir_open: the first entry, which is the parent's, is skipped. */
    constructor (fs: FileSystem, inode: nat)
      ensures this.fs == fs && this.inode == inode && pos == ENTRY_BYTES
    {
      this.fs := fs;
      this.inode := inode;
      this.pos := ENTRY_BYTES;
    }

    ghost function Data(): (data: seq<byte>)
      reads fs, fs.vol, fs.vol.cache
    {
      if inode in fs.Data() then fs.Data()[inode] else []
    }

    ghost function Entries(): seq<Entry>
      reads fs, fs.vol, fs.vol.cache
    {
      Slots(Data())
    }

    ghost function State(): DirState
      reads fs, fs.vol, fs.vol.cache, fs.vol.freeMap, fs.vol.mapFile
    {
      DirState(Entries(), fs.Data(), fs.files, fs.FreeSectors(), fs.vol.mapOwn, fs.NoLeaks(), MapInodeOnDisk(fs.vol))
    }

    /** The directory is a live inode holding whole slots. */
    ghost predicate Valid()
      reads fs, fs.vol, fs.vol.Repr(), fs.vol.mapFile
    {
      fs.Inv() && inode in fs.files && |Data()| % ENTRY_BYTES == 0 && WellFormed(Entries())
    }

    /** What Valid and State say, for use where they are not unfolded. */
    lemma EntriesFormed()
      requires Valid()
      ensures WellFormed(State().entries) && |State().entries| > 0 && fs.Inv() && inode in fs.files
      ensures forall i :: 0 <= i < |State().entries| ==> |State().entries[i].name| == NAME_BYTES
      ensures State().files == fs.files && State().data == fs.Data() && fs.Data().Keys == fs.files.Keys
    {
      hide FileSystem.Inv, ContentsOf, DecodeEntry;
    }

    method NewBuffer(size: nat) returns (buffer: array<byte>)
      requires Valid()
      ensures Valid() && State() == old(State())
      ensures fresh(buffer) && buffer.Length == size && buffer as object !in fs.vol.Repr()
    {
      hide Valid;
      buffer := new byte[size](_ => 0);
      assert buffer as object !in fs.vol.Repr();
    }

    /** inode_read_at of one entry; it is short exactly at the end of the directory. */
    method ReadEntry(ofs: nat, ghost i: nat) returns (full: bool, e: Entry)
      requires Valid() && ofs == ENTRY_BYTES * i
      modifies fs.vol.cache`clock, fs.vol.cache.device, fs.vol.cache.slots
      ensures Valid() && State() == old(State())
      ensures full == (i < |State().entries|) && (full ==> e == State().entries[i])
    {
      hide FileSystem.Inv, DecodeEntry, WellFormed, Slots, Delivers;
      var buffer := NewBuffer(ENTRY_BYTES);
      var bytesRead := fs.Read(inode, buffer, ENTRY_BYTES, ofs);
      SlotRead(Data(), i, buffer[..], bytesRead);
      full := bytesRead == ENTRY_BYTES;
      e := DecodeEntry(buffer[..]);
    }

    /** lookup. */
    method Lookup(name: Name) returns (found: bool, e: Entry, ofs: nat, ghost i: nat)
      requires Valid()
      modifies fs.vol.cache`clock, fs.vol.cache.device, fs.vol.cache.slots
      ensures Valid() && State() == old(State())
      ensures i == Find(State().entries, name, 1) && ofs == ENTRY_BYTES * i
      ensures found == (i < |State().entries|) && (found ==> e == State().entries[i])
    {
      hide Valid, State, Entries, Data, Bindings, WellFormed, FileSystem.Inv, UsedSlot, FreeSlot, Find, Listing, Put,
        IsFor, StringIn, ValidName, Padded, SlotFits, StoreFailed;
      ghost var slots := State().entries;
      i := 1;
      EntriesFormed();
      FindUnfold(slots, name, 1);
      ofs := ENTRY_BYTES;
      var full;
      full, e := ReadEntry(ofs, i);
      while full && !IsFor(e, name)
        invariant Valid() && State() == old(State())
        invariant 1 <= i <= |slots| && ofs == ENTRY_BYTES * i && full == (i < |slots|) && (full ==> e == slots[i])
        invariant Find(slots, name, i) == Find(slots, name, 1)
        decreases |slots| - i
      {
        FindUnfold(slots, name, i);
        i := i + 1;
        ofs := ofs + ENTRY_BYTES;
        full, e := ReadEntry(ofs, i);
      }
      FindUnfold(slots, name, i);
      found := full;
    }

    /** The directory could not grow: what became of the free sectors and of sector 0. */
    ghost predicate StoreFailed(s: DirState, i: nat)
      reads fs, fs.vol, fs.vol.cache, fs.vol.freeMap, fs.vol.mapFile
    {
      && inode in s.files
      && |State().free| == SectorsLeft(ENTRY_BYTES * i + ENTRY_BYTES, |s.files[inode].own|, |s.free|)
      && MapInodeAfter(fs.vol, s.mapped, Wipes(ENTRY_BYTES * i + ENTRY_BYTES, |s.files[inode].own|, |s.free|))
    }

    /** inode_write_at of one entry, at an existing slot or just past the last. */
    method WriteEntry(ofs: nat, e: Entry, ghost i: nat) returns (ok: bool)
      requires Valid() && i <= |State().entries| && ofs == ENTRY_BYTES * i
      requires |e.name| == NAME_BYTES && e.sector < WORD_LIMIT && WellFormed(Put(State().entries, i, e))
      modifies fs, fs.vol.Repr()
      ensures fs.Inv() && ok == SlotFits(old(State()), inode, i)
      ensures ok ==> Valid() && Stores(old(State()), State(), inode, i, e)
      ensures !ok ==> Valid() && SameFiles(old(State()), State()) && StoreFailed(old(State()), i)
    {
      hide FileSystem.Inv, FileSystem.Data, FileSystem.FreeSectors, FileSystem.NoLeaks, MapInodeOnDisk, EncodeEntry,
        WellFormed, Put, Slots, Splice, Wipes, Nearly, SectorsLeft;
      ghost var data, own, free := Data(), fs.files[inode].own, fs.FreeSectors();
      FileFacts(fs, inode);
      SlotRoom(data, i, |own|, |free|);
      SlotsAfterWrite(data, i, e);
      var written := fs.Write(inode, EncodeEntry(e), ofs);
      ok := written == ENTRY_BYTES;
      if ok {
        FileFacts(fs, inode);
        SameTree(data, i, EncodeEntry(e), own, fs.files[inode].own, free, fs.FreeSectors());
      }
    }

    /** dir_add of a plain file. A name it does not take changes nothing; a directory that would have
        to grow and cannot is as it was. */
    method Add(name: Name, sector: nat) returns (ok: bool)
      requires Valid() && IsString(name) && sector < WORD_LIMIT
      modifies fs, fs.vol.Repr()
      ensures var s, refused := old(State()), !ValidName(name) || name in Bindings(old(State()).entries);
              && Valid() && ok == (!refused && SlotFits(s, inode, FreeSlot(s.entries, 0)))
              && (ok ==> Adds(s, State(), inode, name, sector))
              && (refused ==> State() == s)
              && (!ok && !refused ==> SameFiles(s, State()) && StoreFailed(s, FreeSlot(s.entries, 0)))
    {
      hide Valid, State, Entries, Data, Bindings, WellFormed, FileSystem.Inv, UsedSlot, FreeSlot, Find, Listing, Put,
        IsFor, StringIn, ValidName, Padded, SlotFits, Stores, Adds, StoreFailed;
      ghost var slots := State().entries;
      EntriesFormed();
      NameRules(name);
      LookupIsBinding(slots, name);
      if name == [] || |name| > NAME_MAX {
        return false;
      }
      var found, _, _, _ := Lookup(name);
      EntriesFormed();
      if found {
        return false;
      }
      ok := Insert(name, sector);
    }

    /** dir_add once the name has been found to be valid and new. */
    method Insert(name: Name, sector: nat) returns (ok: bool)
      requires Valid() && ValidName(name) && name !in Bindings(State().entries) && sector < WORD_LIMIT
      modifies fs, fs.vol.Repr()
      ensures fs.Inv() && ok == SlotFits(old(State()), inode, FreeSlot(old(State()).entries, 0))
      ensures ok ==> Valid() && Adds(old(State()), State(), inode, name, sector)
      ensures !ok ==> Valid() && SameFiles(old(State()), State())
      ensures !ok ==> StoreFailed(old(State()), FreeSlot(old(State()).entries, 0))
    {
      hide Valid, State, Entries, Data, Bindings, WellFormed, FileSystem.Inv, UsedSlot, FreeSlot, Find, Listing, Put,
        IsFor, StringIn, ValidName, Padded, SlotFits, Stores, Adds, StoreFailed;
      ghost var s := State();
      EntriesFormed();
      NameRules(name);
      var ofs;
      ghost var i;
      ofs, i := FindFree();
      EntriesFormed();
      AddBinds(s.entries, name, sector);
      ok := WriteEntry(ofs, Entry(sector, Padded(name), true), i);
      if ok {
        EntriesFormed();
        StoresAdds(s, State(), inode, name, sector);
      }
    }

    /** dir_add's search, which starts at offset 0. */
    method FindFree() returns (ofs: nat, ghost i: nat)
      requires Valid()
      modifies fs.vol.cache`clock, fs.vol.cache.device, fs.vol.cache.slots
      ensures Valid() && State() == old(State())
      ensures i == FreeSlot(State().entries, 0) && ofs == ENTRY_BYTES * i
    {
      hide Valid, State, Entries, Data, Bindings, WellFormed, FileSystem.Inv, UsedSlot, FreeSlot, Find, Listing, Put,
        IsFor, StringIn, ValidName, Padded, SlotFits, StoreFailed;
      ghost var slots := State().entries;
      i, ofs := 0, 0;
      FreeUnfold(slots, 0);
      var full, e := ReadEntry(ofs, i);
      while full && e.inUse
        invariant Valid() && State() == old(State())
        invariant i <= |slots| && ofs == ENTRY_BYTES * i && full == (i < |slots|) && (full ==> e == slots[i])
        invariant FreeSlot(slots, i) == FreeSlot(slots, 0)
        decreases |slots| - i
      {
        FreeUnfold(slots, i);
        i := i + 1;
        ofs := ofs + ENTRY_BYTES;
        full, e := ReadEntry(ofs, i);
      }
      FreeUnfold(slots, i);
    }

    /** dir_is_empty. */
    method IsEmpty() returns (empty: bool)
      requires Valid()
      modifies fs.vol.cache`clock, fs.vol.cache.device, fs.vol.cache.slots
      ensures Valid() && State() == old(State())
      ensures empty == (Bindings(State().entries) == map[])
    {
      hide Valid, State, Entries, Data, Bindings, WellFormed, FileSystem.Inv, UsedSlot, FreeSlot, Find, Listing, Put,
        IsFor, StringIn, ValidName, Padded, SlotFits, StoreFailed;
      ghost var slots := State().entries;
      EntriesFormed();
      EmptyIsNoBinding(slots);
      var e, full, ofs;
      ghost var i;
      e, full, ofs, i := NextUsed(ENTRY_BYTES, 1);
      empty := !full;
    }

    /** The scan that dir_readdir and dir_is_empty share: the first entry in use from `ofs` on. */
    method NextUsed(start: nat, ghost k: nat) returns (e: Entry, full: bool, ofs: nat, ghost i: nat)
      requires Valid() && k <= |State().entries| && start == ENTRY_BYTES * k
      modifies fs.vol.cache`clock, fs.vol.cache.device, fs.vol.cache.slots
      ensures Valid() && State() == old(State())
      ensures i == UsedSlot(State().entries, k) && ofs == ENTRY_BYTES * i
      ensures full == (i < |State().entries|) && (full ==> e == State().entries[i])
    {
      hide Valid, State, Entries, Data, Bindings, WellFormed, FileSystem.Inv, UsedSlot, FreeSlot, Find, Listing, Put,
        IsFor, StringIn, ValidName, Padded, SlotFits, StoreFailed;
      ghost var slots := State().entries;
      i, ofs := k, start;
      UsedUnfold(slots, k);
      full, e := ReadEntry(ofs, i);
      while full && !e.inUse
        invariant Valid() && State() == old(State())
        invariant k <= i <= |slots| && ofs == ENTRY_BYTES * i && full == (i < |slots|) && (full ==> e == slots[i])
        invariant UsedSlot(slots, i) == UsedSlot(slots, k)
        decreases |slots| - i
      {
        UsedUnfold(slots, i);
        i := i + 1;
        ofs := ofs + ENTRY_BYTES;
        full, e := ReadEntry(ofs, i);
      }
      UsedUnfold(slots, i);
    }

    /** dir_readdir, with the reading position at slot `k`. */
    method ReadDir(ghost k: nat) returns (more: bool, name: Name, ghost i: nat)
      requires Valid() && k <= |State().entries| && pos == ENTRY_BYTES * k
      modifies `pos, fs.vol.cache`clock, fs.vol.cache.device, fs.vol.cache.slots
      ensures Valid() && State() == old(State())
      ensures k <= i <= |State().entries| && pos == ENTRY_BYTES * i && (more ==> k < i)
      ensures Listing(State().entries, k) == if more then [name] + Listing(State().entries, i) else []
    {
      hide Valid, State, Entries, Data, Bindings, WellFormed, FileSystem.Inv, UsedSlot, FreeSlot, Find, Listing, Put,
        IsFor, StringIn, ValidName, Padded, SlotFits, StoreFailed;
      ghost var slots := State().entries;
      ListingStep(slots, k);
      var e, full, ofs;
      e, full, ofs, i := NextUsed(pos, k);
      if full {
        name, i, ofs := StringIn(e.name), i + 1, ofs + ENTRY_BYTES;
      } else {
        name := [];
      }
      assert this as object !in fs.vol.Repr();
      more, pos := full, ofs;
    }
  }

  /** Reading at a slot's offset. */
  lemma SlotRead(data: seq<byte>, i: nat, buffer: seq<byte>, n: nat)
    requires |buffer| == ENTRY_BYTES && Delivers(data, ENTRY_BYTES * i, ENTRY_BYTES, buffer, n)
    ensures n == ENTRY_BYTES <==> i < |Slots(data)|
    ensures n == ENTRY_BYTES ==> DecodeEntry(buffer) == Slots(data)[i]
  {
    hide DecodeEntry;
    assert n == ENTRY_BYTES ==> buffer[..n] == buffer;
  }

  lemma FindUnfold(slots: seq<Entry>, name: Name, i: nat)
    requires i <= |slots|
    ensures i < |slots| && IsFor(slots[i], name) ==> Find(slots, name, i) == i
    ensures i < |slots| && !IsFor(slots[i], name) ==> Find(slots, name, i) == Find(slots, name, i + 1)
    ensures i == |slots| ==> Find(slots, name, i) == i
  {
  }

  lemma FreeUnfold(slots: seq<Entry>, i: nat)
    requires i <= |slots|
    ensures i < |slots| && !slots[i].inUse ==> FreeSlot(slots, i) == i
    ensures i < |slots| && slots[i].inUse ==> FreeSlot(slots, i) == FreeSlot(slots, i + 1)
    ensures i == |slots| ==> FreeSlot(slots, i) == i
  {
  }

  lemma UsedUnfold(slots: seq<Entry>, i: nat)
    requires i <= |slots|
    ensures i < |slots| && slots[i].inUse ==> UsedSlot(slots, i) == i
    ensures i < |slots| && !slots[i].inUse ==> UsedSlot(slots, i) == UsedSlot(slots, i + 1)
    ensures i == |slots| ==> UsedSlot(slots, i) == i
  {
  }

  lemma NameRules(name: Name)
    ensures ValidName(name) <==> IsString(name) && name != [] && |name| <= NAME_MAX
  {
  }

  lemma StoresAdds(s: DirState, t: DirState, inode: nat, name: Name, sector: nat)
    requires WellFormed(s.entries) && ValidName(name) && name !in Bindings(s.entries)
    requires Stores(s, t, inode, FreeSlot(s.entries, 0), Entry(sector, Padded(name), true))
    ensures Adds(s, t, inode, name, sector)
  {
    AddBinds(s.entries, name, sector);
  }

  /** A write of one entry takes place in full exactly when its slot exists or can be afforded. */
  lemma SlotRoom(data: seq<byte>, i: nat, owned: nat, free: nat)
    requires |data| % ENTRY_BYTES == 0 && i <= |Slots(data)| && Sectors(|data|) <= CAPACITY
    ensures CaseOf(false, |data|, ENTRY_BYTES * i, ENTRY_BYTES, owned, free) ==
            if i < |Slots(data)| || Reservable(ENTRY_BYTES * i + ENTRY_BYTES, owned, free) then Splices else NoRoom
    ensures ENTRY_BYTES * i + ENTRY_BYTES <= OFFSET_LIMIT
    ensures owned == Total(Sectors(|data|)) && i == |Slots(data)| ==> Nearly(ENTRY_BYTES * i + ENTRY_BYTES, owned)
  {
  }

  /** A write within the file leaves its tree and the free sectors as they are. */
  lemma SameTree(data: seq<byte>, i: nat, buf: seq<byte>, own: seq<nat>, grown: seq<nat>, free: seq<nat>,
      left: seq<nat>)
    requires |data| % ENTRY_BYTES == 0 && i <= |Slots(data)| && |buf| == ENTRY_BYTES
    requires |own| == Total(Sectors(|data|)) && |grown| == Total(Sectors(|Splice(data, ENTRY_BYTES * i, buf)|))
    requires grown + left == own + free
    ensures i < |Slots(data)| ==> grown == own && left == free
  {
    if i < |Slots(data)| {
      assert (own + free)[..|own|] == own && (grown + left)[..|own|] == grown;
      assert (own + free)[|own|..] == free && (grown + left)[|own|..] == left;
    }
  }
}
