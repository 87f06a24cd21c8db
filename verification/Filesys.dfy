/** Named files in the root directory (filesys.c), as a finite map from names to contents. */
module Filesys {
  import opened Sector
  import opened Geometry
  import opened FreeList
  import opened Reserve
  import opened Files
  import opened FileTable
  import opened MapFile
  import opened FileSystem
  import opened Directory
  import opened Dirs

  const ROOT_DIR_SECTOR := 1
  const SLASH: byte := 47
  const DOT: Name := [46]
  const DOT_DOT: Name := [46, 46]

  /** The names that are not looked for as they are: the two that dir_lookup treats apart, and those
      that split_path_filename would split. */
  predicate Special(name: Name) {
    name == DOT || name == DOT_DOT || SLASH in name
  }

  /** The file name that split_path_filename finds in a path: its last component, if any. */
  function FileName(path: seq<byte>): Name {
    if path == [] then []
    else if path[|path| - 1] == SLASH then FileName(path[..|path| - 1])
    else Component(path)
  }

  /** What follows the last slash. */
  function Component(path: seq<byte>): Name {
    if path == [] || path[|path| - 1] == SLASH then [] else Component(path[..|path| - 1]) + [path[|path| - 1]]
  }

  lemma {:induction false} ComponentIsPlain(path: seq<byte>)
    ensures SLASH !in Component(path) && (IsString(path) ==> IsString(Component(path)))
  {
    if path == [] || path[|path| - 1] == SLASH {
    } else {
      ComponentIsPlain(path[..|path| - 1]);
    }
  }

  lemma {:induction false} FileNameIsPlain(path: seq<byte>)
    ensures SLASH !in FileName(path) && (IsString(path) ==> IsString(FileName(path)))
  {
    if path == [] {
    } else if path[|path| - 1] == SLASH {
      FileNameIsPlain(path[..|path| - 1]);
    } else {
      ComponentIsPlain(path);
    }
  }

  lemma {:induction false} ComponentOf(directory: seq<byte>, name: Name)
    requires SLASH !in name && (directory == [] || directory[|directory| - 1] == SLASH)
    ensures Component(directory + name) == name
  {
    if name == [] {
      assert directory + name == directory;
    } else {
      var init := name[..|name| - 1];
      ComponentOf(directory, init);
      assert (directory + name)[..|directory + name| - 1] == directory + init;
    }
  }

  /** A directory part and trailing slashes leave the file name as it is. */
  lemma {:induction false} FileNameOf(directory: seq<byte>, name: Name, slashes: nat)
    requires name != [] && SLASH !in name && (directory == [] || directory[|directory| - 1] == SLASH)
    ensures FileName(directory + name + seq(slashes, _ => SLASH)) == name
  {
    var path := directory + name + seq(slashes, _ => SLASH);
    if slashes == 0 {
      assert path == directory + name;
      ComponentOf(directory, name);
    } else {
      FileNameOf(directory, name, slashes - 1);
      assert path[..|path| - 1] == directory + name + seq(slashes - 1, _ => SLASH);
    }
  }

  /** The sector bound to a name. */
  ghost function SectorOf(s: DirState, name: Name): nat
    requires |s.entries| > 0 && name in Bindings(s.entries)
  {
    Bindings(s.entries)[name]
  }

  /** Every name is bound to a plain file of its own, and every file but the root has a name. */
  ghost predicate Bound(b: map<Name, nat>, files: Table) {
    && (forall n :: n in b ==> b[n] in files && b[n] != ROOT_DIR_SECTOR && !files[b[n]].d.isDir)
    && (forall m, n :: m in b && n in b && b[m] == b[n] ==> m == n)
    && (forall f :: f in files && f != ROOT_DIR_SECTOR ==> exists n :: n in b && b[n] == f)
  }

  ghost predicate Linked(s: DirState) {
    && |s.entries| > 0 && WellFormed(s.entries) && ROOT_DIR_SECTOR in s.files && s.files.Keys == s.data.Keys
    && Bound(Bindings(s.entries), s.files)
  }

  function ContentsBy(b: map<Name, nat>, data: map<nat, seq<byte>>): map<Name, seq<byte>> {
    map n | n in b && b[n] in data :: data[b[n]]
  }

  /** The file system as a map from names to contents. */
  ghost function Named(s: DirState): map<Name, seq<byte>>
    requires |s.entries| > 0
  {
    ContentsBy(Bindings(s.entries), s.data)
  }

  lemma NamesAreBound(s: DirState)
    requires Linked(s)
    ensures Named(s).Keys == Bindings(s.entries).Keys
  {
  }

  /** A file has been created at `sector`, without a name so far. */
  ghost predicate Made(s: DirState, t: DirState, sector: nat, length: nat) {
    && t.entries == s.entries && sector !in s.files && sector in t.files
    && t.files == s.files[sector := t.files[sector]] && !t.files[sector].d.isDir
    && t.data == s.data[sector := Zeros(length)]
    && CreationCost(length) <= |s.free|
    && [sector] + t.files[sector].own == s.free[..CreationCost(length)] && t.free == s.free[CreationCost(length)..]
    && Keeps(s, t)
  }

  /** The conditions under which filesys_create succeeds. */
  ghost predicate Creatable(s: DirState, name: Name, length: nat) {
    && ROOT_DIR_SECTOR in s.files && |s.entries| > 0
    && Sectors(length) <= CAPACITY && CreationCost(length) <= |s.free|
    && ValidName(name) && name !in Bindings(s.entries)
    && (FreeSlot(s.entries, 0) < |s.entries| ||
        Reservable(ENTRY_BYTES * |s.entries| + ENTRY_BYTES, |s.files[ROOT_DIR_SECTOR].own|,
                   |s.free| - CreationCost(length)))
  }

  /** The files other than the one called `name` are where they were. */
  ghost predicate OthersStay(s: DirState, t: DirState, name: Name) {
    && |s.entries| > 0 && |t.entries| > 0
    && (forall n :: n in Bindings(s.entries) && n != name ==>
          n in Bindings(t.entries) && SectorOf(t, n) == SectorOf(s, n) && SectorOf(s, n) in s.files
          && SectorOf(s, n) in t.files && t.files[SectorOf(s, n)] == s.files[SectorOf(s, n)])
  }

  /** What filesys_create does when it succeeds. The file's sectors are the first free ones, inode
      first; the directory takes more only if it had no empty slot. */
  ghost predicate Creates(s: DirState, t: DirState, name: Name, length: nat) {
    && Linked(s) && Linked(t) && Named(t) == Named(s)[name := Zeros(length)]
    && OthersStay(s, t, name) && t.entries[0] == s.entries[0] && Keeps(s, t)
    && name in Bindings(t.entries) && SectorOf(t, name) in t.files
    && CreationCost(length) <= |s.free| && |t.entries| == Max(|s.entries|, FreeSlot(s.entries, 0) + 1)
    && |name| <= NAME_MAX
    && t.entries == Put(s.entries, FreeSlot(s.entries, 0), Entry(SectorOf(t, name), Padded(name), true))
    && [SectorOf(t, name)] + t.files[SectorOf(t, name)].own == s.free[..CreationCost(length)]
    && t.files[ROOT_DIR_SECTOR].own + t.free == s.files[ROOT_DIR_SECTOR].own + s.free[CreationCost(length)..]
    && (FreeSlot(s.entries, 0) < |s.entries| ==>
          && t.free == s.free[CreationCost(length)..]
          && Holes(t.entries) == Holes(s.entries) - 1
          && t.files[ROOT_DIR_SECTOR].own == s.files[ROOT_DIR_SECTOR].own)
  }

  /** What filesys_remove does when it succeeds. */
  ghost predicate Removes(s: DirState, t: DirState, name: Name) {
    && Linked(s) && Linked(t) && name in Named(s) && Named(t) == Named(s) - {name}
    && OthersStay(s, t, name) && t.entries[0] == s.entries[0] && Keeps(s, t)
    && |t.free| == |s.free| + CreationCost(|Named(s)[name]|) && |t.entries| == |s.entries|
    && (forall i :: 0 <= i < |s.entries| ==>
          t.entries[i] == if i == Find(s.entries, name, 1) then s.entries[i].(inUse := false) else s.entries[i])
    && Holes(t.entries) == Holes(s.entries) + 1
    && t.files[ROOT_DIR_SECTOR].own == s.files[ROOT_DIR_SECTOR].own
  }

  /** The number of slots not in use. */
  ghost function Holes(slots: seq<Entry>): nat {
    if slots == [] then 0 else (if slots[0].inUse then 0 else 1) + Holes(slots[1..])
  }

  lemma {:induction false} HolesAfter(slots: seq<Entry>, i: nat, e: Entry)
    requires i < |slots|
    ensures Holes(slots[i := e]) == Holes(slots) - (if slots[i].inUse then 0 else 1) + (if e.inUse then 0 else 1)
  {
    if i == 0 {
    } else {
      HolesAfter(slots[1..], i - 1, e);
      assert slots[i := e][1..] == slots[1..][i - 1 := e];
    }
  }

  lemma {:induction false} HoleFound(slots: seq<Entry>, i: nat)
    requires i <= |slots|
    ensures Holes(slots[i..]) > 0 <==> FreeSlot(slots, i) < |slots|
    decreases |slots| - i
  {
    if i == |slots| {
    } else {
      HoleFound(slots, i + 1);
      assert slots[i..][1..] == slots[i + 1..];
    }
  }

  /** A directory with an empty slot is one whose free-slot search stops before the end. */
  lemma HoleIsFreeSlot(slots: seq<Entry>)
    ensures Holes(slots) > 0 <==> FreeSlot(slots, 0) < |slots|
  {
    HoleFound(slots, 0);
    assert slots[0..] == slots;
  }

  /** Every slot but the first is empty or holds one name. */
  lemma NamesAndHoles(slots: seq<Entry>)
    requires WellFormed(slots)
    ensures |Bindings(slots)| + Holes(slots) + 1 == |slots|
  {
    var names := NamesFrom(slots, 1);
    NamesAndHolesFrom(slots, 1);
    forall n ensures n in names <==> n in Bindings(slots) {
      if n in names {
        var i :| 1 <= i < |slots| && slots[i].inUse && StringIn(slots[i].name) == n;
        OnlySlot(slots, n, i);
      } else {
        LookupIsBinding(slots, n);
      }
    }
    assert Bindings(slots).Keys == names;
  }

  ghost function NamesFrom(slots: seq<Entry>, k: nat): set<Name> {
    set i | k <= i < |slots| && slots[i].inUse :: StringIn(slots[i].name)
  }

  lemma {:induction false} NamesAndHolesFrom(slots: seq<Entry>, k: nat)
    requires WellFormed(slots) && 1 <= k <= |slots|
    ensures |NamesFrom(slots, k)| + Holes(slots[k..]) == |slots| - k
    decreases |slots| - k
  {
    if k == |slots| {
    } else {
      hide WellFormed, StringIn;
      NamesAndHolesFrom(slots, k + 1);
      assert slots[k..][1..] == slots[k + 1..];
      NamesFromNext(slots, k);
    }
  }

  lemma NamesFromNext(slots: seq<Entry>, k: nat)
    requires WellFormed(slots) && 1 <= k < |slots|
    ensures |NamesFrom(slots, k)| == |NamesFrom(slots, k + 1)| + if slots[k].inUse then 1 else 0
  {
    hide StringIn, WellFormed, NamesFrom;
    NamesFromStep(slots, k);
    if slots[k].inUse {
      NewName(slots, k);
    }
  }

  lemma NewName(slots: seq<Entry>, k: nat)
    requires WellFormed(slots) && 1 <= k < |slots| && slots[k].inUse
    ensures StringIn(slots[k].name) !in NamesFrom(slots, k + 1)
  {
    hide StringIn, ValidName;
  }

  lemma NamesFromStep(slots: seq<Entry>, k: nat)
    requires k < |slots|
    ensures NamesFrom(slots, k) ==
            NamesFrom(slots, k + 1) + if slots[k].inUse then {StringIn(slots[k].name)} else {}
  {
    hide StringIn;
  }

  lemma BoundAdd(b: map<Name, nat>, files: Table, files': Table, name: Name, sector: nat)
    requires Bound(b, files) && name !in b && sector !in files && ROOT_DIR_SECTOR in files
    requires sector in files' && !files'[sector].d.isDir && files'.Keys == files.Keys + {sector}
    requires forall f :: f in files && f != ROOT_DIR_SECTOR ==> files'[f] == files[f]
    ensures Bound(b[name := sector], files')
  {
    var c := b[name := sector];
    forall f | f in files' && f != ROOT_DIR_SECTOR ensures exists n :: n in c && c[n] == f {
      if f == sector {
        assert c[name] == f;
      } else {
        var n :| n in b && b[n] == f;
        assert n in c && c[n] == f;
      }
    }
  }

  lemma BoundRemove(b: map<Name, nat>, files: Table, files': Table, name: Name)
    requires Bound(b, files) && name in b && files'.Keys == files.Keys - {b[name]}
    requires forall f :: f in files' && f != ROOT_DIR_SECTOR ==> files'[f] == files[f]
    ensures Bound(b - {name}, files') && b[name] != ROOT_DIR_SECTOR
  {
    var c := b - {name};
    forall f | f in files' && f != ROOT_DIR_SECTOR ensures exists n :: n in c && c[n] == f {
      var n :| n in b && b[n] == f;
      assert n in c && c[n] == f;
    }
  }

  /** Creating a file and then naming it adds exactly one named file. */
  lemma MadeThenNamed(s: DirState, t: DirState, u: DirState, name: Name, sector: nat, length: nat)
    requires Linked(s) && Made(s, t, sector, length) && Adds(t, u, ROOT_DIR_SECTOR, name, sector)
    requires WellFormed(u.entries) && u.data.Keys == u.files.Keys && name !in Bindings(s.entries)
    ensures Creates(s, u, name, length)
  {
    hide WellFormed, Bindings, Padded, Put, CreationCost, Zeros, Bound, ContentsBy, OthersStay, Holes, FreeSlot;
    var b := Bindings(s.entries);
    BoundAdd(b, s.files, u.files, name, sector);
    NamedAfterAdd(b, s.files, s.data, u.data, name, sector, Zeros(length));
    OthersStayPut(s, u, name);
    SlotFilled(t, u, sector, name);
  }

  lemma NamedAfterAdd(b: map<Name, nat>, files: Table, data: map<nat, seq<byte>>, data': map<nat, seq<byte>>,
      name: Name, sector: nat, bytes: seq<byte>)
    requires Bound(b, files) && files.Keys == data.Keys && sector !in files && name !in b
    requires sector in data' && data'[sector] == bytes
    requires forall f :: f in files && f != ROOT_DIR_SECTOR ==> f in data' && data'[f] == data[f]
    ensures ContentsBy(b[name := sector], data') == ContentsBy(b, data)[name := bytes]
  {
  }

  lemma OthersStayPut(s: DirState, t: DirState, name: Name)
    requires |s.entries| > 0 && |t.entries| > 0 && Bound(Bindings(s.entries), s.files)
    requires Bindings(t.entries) - {name} == Bindings(s.entries) - {name}
    requires forall f :: (f in s.files && f != ROOT_DIR_SECTOR
                          && !(name in Bindings(s.entries) && f == SectorOf(s, name))) ==>
               f in t.files && t.files[f] == s.files[f]
    ensures OthersStay(s, t, name)
  {
    hide Bindings;
    forall n | n in Bindings(s.entries) && n != name
      ensures n in Bindings(t.entries) && SectorOf(t, n) == SectorOf(s, n)
    {
      assert n in Bindings(s.entries) - {name};
      assert (Bindings(s.entries) - {name})[n] == (Bindings(t.entries) - {name})[n];
    }
  }

  lemma SlotFilled(t: DirState, u: DirState, sector: nat, name: Name)
    requires Adds(t, u, ROOT_DIR_SECTOR, name, sector)
    ensures |u.entries| == Max(|t.entries|, FreeSlot(t.entries, 0) + 1)
    ensures FreeSlot(t.entries, 0) < |t.entries| ==> Holes(u.entries) == Holes(t.entries) - 1
  {
    var i := FreeSlot(t.entries, 0);
    if i < |t.entries| {
      HolesAfter(t.entries, i, Entry(sector, Padded(name), true));
    }
  }

  /** Unbinding a name and then releasing its file removes exactly one named file. */
  lemma UnboundThenReleased(s: DirState, t: DirState, u: DirState, name: Name, sector: nat)
    requires Linked(s) && name in Bindings(s.entries) && sector == SectorOf(s, name)
    requires var i := Find(s.entries, name, 1);
             i < |s.entries| && Stores(s, t, ROOT_DIR_SECTOR, i, s.entries[i].(inUse := false))
    requires u.entries == t.entries && u.files == t.files - {sector} && u.data == t.data - {sector}
    requires |u.free| == |t.free| + CreationCost(|s.data[sector]|) && Keeps(t, u)
    ensures Removes(s, u, name)
  {
    hide WellFormed, Bindings, CreationCost, Bound, ContentsBy, OthersStay, Holes, Find, Put;
    SlotEmptied(s, t, name);
    BoundRemove(Bindings(s.entries), s.files, u.files, name);
    NamedAfterRemove(Bindings(s.entries), s.files, s.data, u.data, name);
    OthersStayPut(s, u, name);
  }

  lemma SlotEmptied(s: DirState, t: DirState, name: Name)
    requires |s.entries| > 0 && WellFormed(s.entries) && name in Bindings(s.entries)
    requires var i := Find(s.entries, name, 1);
             i < |s.entries| && Stores(s, t, ROOT_DIR_SECTOR, i, s.entries[i].(inUse := false))
    ensures |t.entries| == |s.entries| && Holes(t.entries) == Holes(s.entries) + 1 && t.entries[0] == s.entries[0]
    ensures WellFormed(t.entries) && Bindings(t.entries) == Bindings(s.entries) - {name}
    ensures t.free == s.free && t.files[ROOT_DIR_SECTOR].own == s.files[ROOT_DIR_SECTOR].own
    ensures forall i :: 0 <= i < |s.entries| ==>
              t.entries[i] == if i == Find(s.entries, name, 1) then s.entries[i].(inUse := false) else s.entries[i]
  {
    hide WellFormed, Bindings, Holes;
    var i := Find(s.entries, name, 1);
    assert IsFor(s.entries[i], name);
    RemoveUnbinds(s.entries, name);
    HolesAfter(s.entries, i, s.entries[i].(inUse := false));
  }

  lemma NamedAfterRemove(b: map<Name, nat>, files: Table, data: map<nat, seq<byte>>, data': map<nat, seq<byte>>,
      name: Name)
    requires Bound(b, files) && files.Keys == data.Keys && name in b
    requires forall f :: f in files && f != ROOT_DIR_SECTOR && f != b[name] ==> f in data' && data'[f] == data[f]
    ensures ContentsBy(b - {name}, data') == ContentsBy(b, data) - {name}
    ensures name in ContentsBy(b, data) && ContentsBy(b, data)[name] == data[b[name]]
  {
  }

  /** The part of filesys_create before the name is added. */
  method MakeFile(dir: Dir, length: nat) returns (ok: bool, sector: nat)
    requires dir.Valid() && length <= OFFSET_LIMIT
    modifies dir.fs, dir.fs.vol.Repr()
    ensures dir.Valid() && ok == (Sectors(length) <= CAPACITY && CreationCost(length) <= |old(dir.State()).free|)
    ensures ok ==> Made(old(dir.State()), dir.State(), sector, length) && sector < WORD_LIMIT
    ensures !ok ==> SameFiles(old(dir.State()), dir.State())
    ensures !ok ==> |dir.State().free| == LeftByFailedCreation(length, |old(dir.State()).free|)
    ensures !ok ==> MapInodeAfter(dir.fs.vol, old(dir.State()).mapped, CreationWipes(length, |old(dir.State()).free|))
  {
    hide FileSystem.Inv, FileSystem.Data, FileSystem.FreeSectors, FileSystem.NoLeaks, MapInodeOnDisk, WellFormed,
      Slots, CreationCost, Zeros, CreationWipes, LeftByFailedCreation;
    FileFacts(dir.fs, dir.inode);
    ok, sector := dir.fs.Create(length, false);
    if ok {
      FileFacts(dir.fs, sector);
    }
  }

  /** filesys_create's clean-up. */
  method Unmake(dir: Dir, sector: nat)
    requires dir.fs.Inv() && sector in dir.fs.files && sector != dir.inode
    modifies dir.fs, dir.fs.vol.Repr()
    ensures dir.fs.Inv() && dir.fs.files == old(dir.fs.files) - {sector}
    ensures dir.fs.Data() == old(dir.fs.Data()) - {sector}
    ensures old(dir.Valid()) ==> dir.Valid() && Unmade(old(dir.State()), dir.State(), sector)
    ensures |dir.fs.vol.cache.view| > 0 && |old(dir.fs.vol.cache.view)| > 0
    ensures dir.fs.vol.cache.view[0] == old(dir.fs.vol.cache.view[0])
  {
    hide FileSystem.Inv, FileSystem.Data, FileSystem.FreeSectors, FileSystem.NoLeaks, MapInodeOnDisk, WellFormed, Slots;
    dir.fs.Abandon(sector);
  }

  ghost predicate Unmade(s: DirState, t: DirState, sector: nat) {
    && t.entries == s.entries && t.files == s.files - {sector} && t.data == s.data - {sector}
    && |t.free| == |s.free| + 1 && t.mapOwn == s.mapOwn && (s.mapped ==> t.mapped)
  }

  lemma RoomForName(s: DirState, t: DirState, sector: nat, length: nat, name: Name)
    requires Made(s, t, sector, length) && ROOT_DIR_SECTOR in s.files && |s.entries| > 0
    ensures Creatable(s, name, length) <==>
              (SlotFits(t, ROOT_DIR_SECTOR, FreeSlot(t.entries, 0)) && ValidName(name) && name !in Bindings(s.entries)
               && Sectors(length) <= CAPACITY)
    ensures sector != ROOT_DIR_SECTOR && sector in t.files && ROOT_DIR_SECTOR in t.files && s.entries == t.entries
    ensures t.files[ROOT_DIR_SECTOR] == s.files[ROOT_DIR_SECTOR] && (s.mapped ==> t.mapped)
    ensures |t.free| == |s.free| - CreationCost(length)
  {
  }

  /** Making a file and then giving up on it loses the sectors of its tree. */
  lemma MadeThenUnmade(s: DirState, t: DirState, u: DirState, sector: nat, length: nat)
    requires Made(s, t, sector, length) && Unmade(t, u, sector) && s.files.Keys == s.data.Keys
    ensures SameFiles(s, u) && |u.free| == |s.free| - Total(Sectors(length)) && (s.mapped ==> u.mapped)
  {
  }

  /** filesys_create of a plain file, given a path. The directory part is not used. */
  method CreatePath(dir: Dir, path: seq<byte>, length: nat) returns (ok: bool)
    requires dir.Valid() && dir.inode == ROOT_DIR_SECTOR && Linked(dir.State())
    requires IsString(path) && length <= OFFSET_LIMIT
    modifies dir.fs, dir.fs.vol.Repr()
    ensures dir.Valid() && ok == Creatable(old(dir.State()), FileName(path), length)
    ensures ok ==> Creates(old(dir.State()), dir.State(), FileName(path), length)
    ensures !ok ==> SameFiles(old(dir.State()), dir.State())
  {
    hide Dir.Valid, Dir.State, Linked, Creatable, Creates, SameFiles, FileName;
    FileNameIsPlain(path);
    ok := Create(dir, FileName(path), length);
  }

  /** filesys_create after dir_add has failed, because the name is refused or because the
      directory cannot grow. */
  method GiveUp(dir: Dir, sector: nat, ghost s: DirState, ghost t: DirState, length: nat, ghost refused: bool)
    requires dir.Valid() && dir.inode == ROOT_DIR_SECTOR && sector != ROOT_DIR_SECTOR && s.files.Keys == s.data.Keys
    requires Makeable(s, length) && Made(s, t, sector, length) && SameFiles(t, dir.State())
    requires t.entries == s.entries && ROOT_DIR_SECTOR in s.files && ROOT_DIR_SECTOR in t.files && sector in t.files
    requires t.files[ROOT_DIR_SECTOR] == s.files[ROOT_DIR_SECTOR]
    requires if refused then dir.State() == t else dir.StoreFailed(t, |t.entries|)
    modifies dir.fs, dir.fs.vol.Repr()
    ensures dir.Valid() && SameFiles(s, dir.State())
    ensures refused ==> |dir.State().free| == |s.free| - Total(Sectors(length)) && (s.mapped ==> dir.State().mapped)
    ensures !refused ==> |dir.State().free| == LeftByFailedNaming(s, length)
    ensures !refused ==> MapInodeAfter(dir.fs.vol, s.mapped, NamingWipes(s, length))
  {
    hide Dir.Valid, FileSystem.Inv, FileSystem.Data, Total, CreationCost, SectorsLeft, Wipes, Holes, FreeSlot, Bindings,
      MapInodeOnDisk;
    ghost var u := dir.State();
    dir.EntriesFormed();
    Unmake(dir, sector);
    dir.EntriesFormed();
    if refused {
      MadeThenUnmade(s, t, dir.State(), sector, length);
    } else {
      NotNamed(s, t, u, dir.State(), sector, length);
    }
  }

  /** Room for a name is lacking only when there is no empty slot. */
  lemma SlotMissing(t: DirState)
    ensures !SlotFits(t, ROOT_DIR_SECTOR, FreeSlot(t.entries, 0)) ==> FreeSlot(t.entries, 0) == |t.entries|
  {
  }

  /** filesys_create of a plain file, given its file name. A file whose name is refused is not created, but its data
      and index sectors, already allocated, are not given back. */
  method Create(dir: Dir, name: Name, length: nat) returns (ok: bool)
    requires dir.Valid() && dir.inode == ROOT_DIR_SECTOR && Linked(dir.State())
    requires IsString(name) && SLASH !in name && length <= OFFSET_LIMIT
    modifies dir.fs, dir.fs.vol.Repr()
    ensures var s, t := old(dir.State()), dir.State();
            && dir.Valid() && ok == Creatable(s, name, length)
            && (ok ==> Creates(s, t, name, length))
            && (!ok ==> SameFiles(s, t))
            && (Refused(s, name) && Makeable(s, length) ==>
                  |t.free| == |s.free| - Total(Sectors(length)) && (s.mapped ==> t.mapped))
            && (!Makeable(s, length) ==>
                  && |t.free| == LeftByFailedCreation(length, |s.free|)
                  && MapInodeAfter(dir.fs.vol, s.mapped, CreationWipes(length, |s.free|)))
            && (!ok && !Refused(s, name) && Makeable(s, length) ==>
                  && |t.free| == LeftByFailedNaming(s, length)
                  && MapInodeAfter(dir.fs.vol, s.mapped, NamingWipes(s, length)))
  {
    hide Dir.Valid, Dir.State, FileSystem.Inv, FileSystem.Data, Bindings, Linked, ValidName, Creates, Adds, Total,
      Creatable, CreationWipes, LeftByFailedCreation, CreationCost, SectorsLeft, Wipes, Unmade, SlotFits,
      MapInodeOnDisk;
    ghost var s := dir.State();
    dir.EntriesFormed();
    ok := false;
    var made, sector := MakeFile(dir, length);
    dir.EntriesFormed();
    if made {
      ghost var t := dir.State();
      RoomForName(s, t, sector, length, name);
      ok := dir.Add(name, sector);
      dir.EntriesFormed();
      if ok {
        MadeThenNamed(s, t, dir.State(), name, sector, length);
      } else {
        SlotMissing(t);
        GiveUp(dir, sector, s, t, length, Refused(s, name));
      }
    } else {
      NotMakeable(s, name, length);
    }
  }

  /** The free sectors after a creation that fails because the directory cannot grow: the file's inode
      sector is given back, its tree is not, nor what the directory took. */
  ghost function LeftByFailedNaming(s: DirState, length: nat): nat
    requires ROOT_DIR_SECTOR in s.files && Makeable(s, length)
  {
    1 + SectorsLeft(ENTRY_BYTES * |s.entries| + ENTRY_BYTES, |s.files[ROOT_DIR_SECTOR].own|,
                    |s.free| - CreationCost(length))
  }

  ghost predicate NamingWipes(s: DirState, length: nat)
    requires ROOT_DIR_SECTOR in s.files && Makeable(s, length)
  {
    Wipes(ENTRY_BYTES * |s.entries| + ENTRY_BYTES, |s.files[ROOT_DIR_SECTOR].own|, |s.free| - CreationCost(length))
  }

  /** dir_add does not take the name, whatever the space. */
  ghost predicate Refused(s: DirState, name: Name) {
    !ValidName(name) || (|s.entries| > 0 && name in Bindings(s.entries))
  }

  /** The inode and its tree can be had. */
  ghost predicate Makeable(s: DirState, length: nat) {
    Sectors(length) <= CAPACITY && CreationCost(length) <= |s.free|
  }

  lemma NotNamed(s: DirState, t: DirState, u: DirState, v: DirState, sector: nat, length: nat)
    requires Made(s, t, sector, length) && SameFiles(t, u) && Unmade(u, v, sector) && s.files.Keys == s.data.Keys
    ensures SameFiles(s, v) && |v.free| == |u.free| + 1
  {
  }

  lemma NotMakeable(s: DirState, name: Name, length: nat)
    requires !Makeable(s, length)
    ensures !Creatable(s, name, length)
  {
  }

  /** inode_remove and inode_close of a file whose entry has been erased. */
  method ReleaseFile(dir: Dir, sector: nat)
    requires dir.Valid() && sector in dir.fs.files && sector != dir.inode
    modifies dir.fs, dir.fs.vol.Repr()
    ensures dir.Valid() && Released(old(dir.State()), dir.State(), sector)
  {
    hide FileSystem.Inv, FileSystem.Data, FileSystem.NoLeaks, MapInodeOnDisk, WellFormed, Slots, CreationCost, Clear,
      SetOf, Free;
    FileSectors(dir.fs, sector);
    ClearCount(dir.fs.vol.freeMap.contents, {sector} + SetOf(dir.fs.files[sector].own));
    dir.fs.Remove(sector);
  }

  ghost predicate Released(s: DirState, t: DirState, sector: nat) {
    && sector in s.data && t.entries == s.entries && t.files == s.files - {sector} && t.data == s.data - {sector}
    && |t.free| == |s.free| + CreationCost(|s.data[sector]|) && Keeps(s, t)
  }

  /** filesys_remove of a plain file (dir_remove). */
  method Remove(dir: Dir, name: Name) returns (ok: bool)
    requires dir.Valid() && dir.inode == ROOT_DIR_SECTOR && Linked(dir.State())
    modifies dir.fs, dir.fs.vol.Repr()
    ensures dir.Valid() && ok == (name in Bindings(old(dir.State()).entries))
    ensures ok ==> Removes(old(dir.State()), dir.State(), name)
    ensures !ok ==> dir.State() == old(dir.State())
  {
    hide Dir.Valid, Dir.State, FileSystem.Inv, FileSystem.Data, Bindings, Linked, Removes, WellFormed;
    ghost var s := dir.State();
    dir.EntriesFormed();
    LookupIsBinding(s.entries, name);
    var found, e, ofs, i := dir.Lookup(name);
    if !found {
      return false;
    }
    dir.EntriesFormed();
    PlainFile(dir, name);
    RemoveUnbinds(s.entries, name);
    ok := dir.WriteEntry(ofs, e.(inUse := false), i);
    ghost var t := dir.State();
    dir.EntriesFormed();
    ReleaseFile(dir, e.sector);
    dir.EntriesFormed();
    UnboundThenReleased(s, t, dir.State(), name, e.sector);
  }

  /** A name's file is a plain one, and not the root directory. */
  lemma PlainFile(dir: Dir, name: Name)
    requires dir.Valid() && dir.inode == ROOT_DIR_SECTOR && Linked(dir.State()) && name in Bindings(dir.State().entries)
    ensures var sector := SectorOf(dir.State(), name);
            && sector in dir.fs.files && sector != ROOT_DIR_SECTOR
            && !dir.fs.files[sector].d.isDir && sector < WORD_LIMIT
            && sector in dir.fs.Data() && name in Named(dir.State())
            && dir.fs.Data()[sector] == Named(dir.State())[name]
  {
    FileFacts(dir.fs, SectorOf(dir.State(), name));
  }

  /** dir_lookup, which filesys_open relies on: the sector of the inode to open. */
  method Open(dir: Dir, name: Name) returns (found: bool, sector: nat)
    requires dir.Valid()
    modifies dir.fs.vol.cache`clock, dir.fs.vol.cache.device, dir.fs.vol.cache.slots
    ensures dir.Valid() && dir.State() == old(dir.State())
    ensures name != DOT && name != DOT_DOT ==>
              found == (name in Bindings(dir.State().entries)) && (found ==> sector == SectorOf(dir.State(), name))
    ensures name == DOT ==> found && sector == dir.inode
    ensures name == DOT_DOT ==> found && sector == dir.State().entries[0].sector
  {
    hide Dir.Valid, Dir.State, FileSystem.Inv, FileSystem.Data, Bindings, WellFormed, Find, StringIn;
    dir.EntriesFormed();
    LookupIsBinding(dir.State().entries, name);
    if name == DOT {
      return true, dir.inode;
    }
    if name == DOT_DOT {
      var _, parent := dir.ReadEntry(0, 0);
      return true, parent.sector;
    }
    var known, e, _, _ := dir.Lookup(name);
    return known, e.sector;
  }

  /** filesys_open, given a path. The directory part is not used here either, and a path of slashes is the root. */
  method OpenPath(dir: Dir, path: seq<byte>) returns (found: bool, sector: nat)
    requires dir.Valid() && dir.inode == ROOT_DIR_SECTOR
    modifies dir.fs.vol.cache`clock, dir.fs.vol.cache.device, dir.fs.vol.cache.slots
    ensures dir.Valid() && dir.State() == old(dir.State()) && (path == [] ==> !found)
    ensures path != [] && FileName(path) == [] ==> found && sector == ROOT_DIR_SECTOR
    ensures path != [] && !Special(FileName(path)) && FileName(path) != [] ==>
              found == (FileName(path) in Bindings(dir.State().entries)) &&
              (found ==> sector == SectorOf(dir.State(), FileName(path)))
  {
    hide Dir.Valid, Dir.State, Bindings, FileName;
    dir.EntriesFormed();
    found, sector := path != [], ROOT_DIR_SECTOR;
    if found && FileName(path) != [] {
      found, sector := Open(dir, FileName(path));
    }
  }
}
