/** Whole runs by name: creating, writing and removing files in the root directory acts on the
    disk, directory included, as on a finite map from names to byte strings. */
module Sessions {
  import opened Sector
  import opened Geometry
  import opened FileBytes
  import opened Reserve
  import opened Files
  import opened MapFile
  import opened FileSystem
  import opened Directory
  import opened Dirs
  import opened Filesys
  import opened OpenFiles
  import opened Fsutil
  import opened Commands

  /** The contents of one named file have changed, and its tree may have grown. */
  ghost predicate Updates(s: DirState, t: DirState, name: Name, bytes: seq<byte>) {
    && Linked(s) && Linked(t) && name in Bindings(s.entries) && Named(t) == Named(s)[name := bytes]
    && WritesTo(s, t, SectorOf(s, name), bytes) && SectorOf(s, name) != ROOT_DIR_SECTOR
  }

  lemma UpdatedFile(s: DirState, t: DirState, name: Name, bytes: seq<byte>)
    requires Linked(s) && name in Bindings(s.entries) && WritesTo(s, t, SectorOf(s, name), bytes)
    ensures Updates(s, t, name, bytes)
  {
    hide Bindings, WellFormed, ContentsBy, Bound;
    BoundUpdate(Bindings(s.entries), s.files, t.files, SectorOf(s, name));
    NamedAfterWrite(Bindings(s.entries), s.files, s.data, t.data, name, bytes);
  }

  /** Whether a write to a named file takes place. */
  ghost predicate Writable(s: DirState, name: Name, ofs: nat, size: nat) {
    |s.entries| > 0 && name in Bindings(s.entries) && HasRoom(s, SectorOf(s, name), ofs, size)
  }

  /** A write to a named file has found no room: see WriteFails. */
  ghost predicate Misses(s: DirState, t: DirState, name: Name, length: nat) {
    && |s.entries| > 0 && name in Bindings(s.entries) && SectorOf(s, name) in s.files
    && WriteFails(s, t, SectorOf(s, name), length)
  }

  /** What is left of the names after a write without room: every other file as it was, and this one
      too if no more than one data sector was missing. */
  lemma OthersNamed(s: DirState, t: DirState, name: Name, length: nat)
    requires Linked(s) && Misses(s, t, name, length) && t.entries == s.entries
    ensures Named(t) - {name} == Named(s) - {name}
    ensures Nearly(length, |s.files[SectorOf(s, name)].own|) ==> Linked(t) && Named(t) == Named(s)
  {
    hide Bindings, WellFormed, Nearly;
  }

  /** fsutil_write when the open file's position is `pos`: filesys_open, file_seek, file_write. */
  method WriteNamed(dir: Dir, name: Name, pos: nat, buf: seq<byte>) returns (written: nat)
    requires dir.Valid() && dir.inode == ROOT_DIR_SECTOR && Linked(dir.State())
    requires name in Bindings(dir.State().entries) && !Special(name) && 0 < |buf| && pos + |buf| <= OFFSET_LIMIT
    modifies dir.fs, dir.fs.vol.Repr()
    ensures var s := old(dir.State());
            && dir.Valid() && name in Named(s) && written == (if Writable(s, name, pos, |buf|) then |buf| else 0)
            && (written > 0 ==> Updates(s, dir.State(), name, Splice(Named(s)[name], pos, Sealed(buf))))
            && (written == 0 ==> Misses(s, dir.State(), name, pos + |buf|))
  {
    hide Dir.Valid, Dir.State, FileSystem.Inv, FileSystem.Data, Bindings, Linked, Updates, WritesTo, HasRoom, Splice,
      Sealed, WellFormed, ContentsBy, WriteFails;
    ghost var s := dir.State();
    var found, sector := Open(dir, name);
    dir.EntriesFormed();
    PlainFile(dir, name);
    var f := OpenAt(dir, sector);
    dir.EntriesFormed();
    SeekTo(dir, f, pos);
    dir.EntriesFormed();
    written := WriteOpen(dir, f, buf);
    if written > 0 {
      dir.EntriesFormed();
      UpdatedFile(s, dir.State(), name, Splice(s.data[sector], pos, Sealed(buf)));
    }
  }

  /** file_write_at, which seals nothing, on a file opened by name. */
  method WriteNamedAt(dir: Dir, name: Name, ofs: nat, buf: seq<byte>) returns (written: nat)
    requires dir.Valid() && dir.inode == ROOT_DIR_SECTOR && Linked(dir.State())
    requires name in Bindings(dir.State().entries) && !Special(name) && 0 < |buf| && ofs + |buf| <= OFFSET_LIMIT
    modifies dir.fs, dir.fs.vol.Repr()
    ensures var s := old(dir.State());
            && dir.Valid() && name in Named(s) && written == (if Writable(s, name, ofs, |buf|) then |buf| else 0)
            && (written > 0 ==> Updates(s, dir.State(), name, Splice(Named(s)[name], ofs, buf)))
            && (written == 0 ==> Misses(s, dir.State(), name, ofs + |buf|))
  {
    hide Dir.Valid, Dir.State, FileSystem.Inv, FileSystem.Data, Bindings, Linked, Updates, WritesTo, HasRoom, Splice,
      WellFormed, ContentsBy, WriteFails;
    ghost var s := dir.State();
    var found, sector := Open(dir, name);
    dir.EntriesFormed();
    PlainFile(dir, name);
    written := WriteAtSector(dir, sector, ofs, buf);
    if written > 0 {
      dir.EntriesFormed();
      UpdatedFile(s, dir.State(), name, Splice(s.data[sector], ofs, buf));
    }
  }

  method WriteAtSector(dir: Dir, sector: nat, ofs: nat, buf: seq<byte>) returns (written: nat)
    requires dir.Valid() && sector in dir.fs.files && sector != dir.inode && 0 < |buf| && ofs + |buf| <= OFFSET_LIMIT
    modifies dir.fs, dir.fs.vol.Repr()
    ensures var s, done := old(dir.State()), HasRoom(old(dir.State()), sector, ofs, |buf|);
            && dir.Valid() && sector in s.data && sector in s.files && written == (if done then |buf| else 0)
            && (done ==> WritesTo(s, dir.State(), sector, Splice(s.data[sector], ofs, buf)))
            && (!done ==> WriteFails(s, dir.State(), sector, ofs + |buf|))
  {
    hide FileSystem.Inv, FileSystem.Data, FileSystem.NoLeaks, FileSystem.FreeSectors, MapInodeOnDisk, WellFormed,
      Slots, Splice;
    FileFacts(dir.fs, sector);
    written := dir.fs.Write(sector, buf, ofs);
  }

  /** The conditions under which a command takes place. */
  ghost predicate Possible(s: DirState, c: Command) {
    match c
    case Make(name, length) => Creatable(s, name, length)
    case Put(name, pos, buf) => |s.entries| > 0 && (name in Bindings(s.entries) ==> Writable(s, name, pos, |buf|))
    case PutAt(name, ofs, buf) => |s.entries| > 0 && (name in Bindings(s.entries) ==> Writable(s, name, ofs, |buf|))
    case Drop(_) => true
  }

  /** Every file owns the sectors its length needs, and the root directory is its slots. */
  ghost predicate Sized(s: DirState) {
    && |s.entries| > 0 && ROOT_DIR_SECTOR in s.files && s.files.Keys == s.data.Keys
    && (forall f :: f in s.files ==>
          Sectors(|s.data[f]|) <= CAPACITY && 1 + |s.files[f].own| == CreationCost(|s.data[f]|))
    && |s.data[ROOT_DIR_SECTOR]| == ENTRY_BYTES * |s.entries|
  }

  lemma StateSized(dir: Dir)
    requires dir.Valid() && dir.inode == ROOT_DIR_SECTOR
    ensures Sized(dir.State())
  {
    hide FileSystem.Inv, FileSystem.Data, WellFormed, Total, Sectors;
    dir.EntriesFormed();
    forall f | f in dir.fs.files
      ensures Sectors(|dir.fs.Data()[f]|) <= CAPACITY && 1 + |dir.fs.files[f].own| == CreationCost(|dir.fs.Data()[f]|)
    {
      FileFacts(dir.fs, f);
    }
  }

  ghost function AccountOf(s: DirState): Account
    requires |s.entries| > 0
  {
    Account(Lengths(Named(s)), |s.entries|, |s.free|)
  }

  /** Whether a command takes place depends on the account alone. */
  lemma PossibleIsAffordable(s: DirState, c: Command)
    requires Linked(s) && Sized(s) && Permitted(c)
    ensures Possible(s, c) <==> Affords(AccountOf(s), c)
  {
    hide WellFormed, Bindings, Bound, CaseOf, ValidName, Total, Sectors, Holes, FreeSlot;
    NamesAreBound(s);
    match c {
      case Make(name, length) =>
        NamesAndHoles(s.entries);
        HoleIsFreeSlot(s.entries);
        LengthsOf(s);
      case Put(name, pos, buf) =>
        if name in Bindings(s.entries) {
          WritableIsAffordable(s, name, pos, |buf|);
        }
      case PutAt(name, ofs, buf) =>
        if name in Bindings(s.entries) {
          WritableIsAffordable(s, name, ofs, |buf|);
        }
      case Drop(_) =>
    }
  }

  lemma LengthsOf(s: DirState)
    requires Linked(s)
    ensures Lengths(Named(s)).Keys == Bindings(s.entries).Keys && |Lengths(Named(s))| == |Bindings(s.entries)|
  {
    hide WellFormed, Bindings;
    NamesAreBound(s);
    assert Lengths(Named(s)).Keys == Bindings(s.entries).Keys;
    assert |Lengths(Named(s)).Keys| == |Bindings(s.entries).Keys|;
  }

  lemma WritableIsAffordable(s: DirState, name: Name, ofs: nat, size: nat)
    requires Linked(s) && Sized(s) && size > 0 && name in Bindings(s.entries)
    ensures name in Named(s) && (Writable(s, name, ofs, size) <==> RoomFor(|Named(s)[name]|, ofs + size, |s.free|))
  {
    hide WellFormed, Bindings, CaseOf, RoomFor, Total, Sectors;
    NamesAreBound(s);
    RoomToWrite(|Named(s)[name]|, ofs, size, |s.free|);
  }

  /** What a run keeps; the directory's own sectors, as long as it does not grow. */
  ghost predicate Persists(s: DirState, t: DirState) {
    && Keeps(s, t) && |s.entries| <= |t.entries| && ROOT_DIR_SECTOR in s.files && ROOT_DIR_SECTOR in t.files
    && (|t.entries| == |s.entries| ==> t.files[ROOT_DIR_SECTOR].own == s.files[ROOT_DIR_SECTOR].own)
  }

  lemma PersistsOn(s: DirState, t: DirState, u: DirState)
    requires Persists(s, t) && Persists(t, u)
    ensures Persists(s, u)
  {
  }

  /** The state after a command that took place. */
  ghost predicate Performed(s: DirState, t: DirState, c: Command) {
    && |s.entries| > 0 && |t.entries| > 0 && Linked(t) && Named(t) == Apply(Named(s), c) && Persists(s, t)
    && Affords(AccountOf(s), c) && AccountOf(t) == Spend(AccountOf(s), c)
  }

  method Perform(dir: Dir, c: Command) returns (done: bool)
    requires dir.Valid() && dir.inode == ROOT_DIR_SECTOR && Linked(dir.State()) && Permitted(c)
    modifies dir.fs, dir.fs.vol.Repr()
    ensures dir.Valid() && |old(dir.State()).entries| > 0
    ensures done == Possible(old(dir.State()), c) == Affords(AccountOf(old(dir.State())), c)
    ensures done ==> Performed(old(dir.State()), dir.State(), c)
    ensures !done ==> Stalls(old(dir.State()), dir.State(), c)
  {
    hide Dir.Valid, Dir.State, Linked, Sized, Enacts, Possible, Affords, Performed, Permitted, Stalls, Named;
    ghost var s := dir.State();
    dir.EntriesFormed();
    StateSized(dir);
    PossibleIsAffordable(s, c);
    done := Enact(dir, c);
    if done {
      StateSized(dir);
      AfterCommand(s, dir.State(), c);
    }
  }

  /** What the operation behind a command does when it succeeds. */
  ghost predicate Enacts(s: DirState, t: DirState, c: Command)
    requires |s.entries| > 0
  {
    match c
    case Make(name, length) => Creates(s, t, name, length)
    case Put(name, pos, buf) =>
      if name in Named(s) then Updates(s, t, name, Splice(Named(s)[name], pos, Sealed(buf))) else t == s
    case PutAt(name, ofs, buf) =>
      if name in Named(s) then Updates(s, t, name, Splice(Named(s)[name], ofs, buf)) else t == s
    case Drop(name) => if name in Named(s) then Removes(s, t, name) else t == s
  }

  method Enact(dir: Dir, c: Command) returns (done: bool)
    requires dir.Valid() && dir.inode == ROOT_DIR_SECTOR && Linked(dir.State()) && Permitted(c)
    modifies dir.fs, dir.fs.vol.Repr()
    ensures dir.Valid() && |old(dir.State()).entries| > 0 && done == Possible(old(dir.State()), c)
    ensures done ==> Enacts(old(dir.State()), dir.State(), c)
    ensures !done ==> Stalls(old(dir.State()), dir.State(), c)
  {
    hide Dir.Valid, Dir.State, FileSystem.Inv, Linked, Named, Bindings, WellFormed, Creates, Removes, Updates,
      Creatable, Writable, Splice, Zeros, Sealed, Misses, SameFiles;
    ghost var s := dir.State();
    NamesAreBound(s);
    dir.EntriesFormed();
    done := true;
    match c {
      case Make(name, length) =>
        done := Create(dir, name, length);
      case Put(name, pos, buf) =>
        var found, _ := Open(dir, name);
        if found {
          var written := WriteNamed(dir, name, pos, buf);
          done := written == |buf|;
        }
      case PutAt(name, ofs, buf) =>
        var found, _ := Open(dir, name);
        if found {
          var written := WriteNamedAt(dir, name, ofs, buf);
          done := written == |buf|;
        }
      case Drop(name) =>
        var _ := Remove(dir, name);
    }
    dir.EntriesFormed();
  }

  /** The state after a command that did not take place. */
  ghost predicate Stalls(s: DirState, t: DirState, c: Command) {
    match c
    case Make(_, _) => SameFiles(s, t)
    case Put(name, pos, buf) => Misses(s, t, name, pos + |buf|)
    case PutAt(name, ofs, buf) => Misses(s, t, name, ofs + |buf|)
    case Drop(_) => false
  }

  /** A command that does not take place leaves all names and all other files as they were; a creation,
      and a write that lacked a single data sector, leave the named file too. */
  lemma StalledNames(s: DirState, t: DirState, c: Command)
    requires Linked(s) && Stalls(s, t, c)
    ensures |t.entries| > 0 && Named(t) - {c.name} == Named(s) - {c.name}
    ensures c.Make? ==> Linked(t) && Named(t) == Named(s)
  {
    hide Bindings, WellFormed, Bound, Nearly;
    if !c.Make? {
      OthersNamed(s, t, c.name, if c.Put? then c.pos + |c.buf| else c.ofs + |c.buf|);
    }
  }

  lemma AfterCommand(s: DirState, t: DirState, c: Command)
    requires |s.entries| > 0 && Linked(s) && Sized(s) && Sized(t) && Permitted(c)
    requires Enacts(s, t, c) && Affords(AccountOf(s), c)
    ensures Performed(s, t, c)
  {
    hide Linked, Sized, Creates, Updates, Removes, Named, Splice, Sealed, AccountOf, Performed, Bindings;
    NamesAreBound(s);
    if c.Make? {
      AfterCreate(s, t, c);
    } else if c.name !in Named(s) {
      AfterNothing(s, c);
    } else if c.Drop? {
      AfterRemove(s, t, c);
    } else {
      AfterUpdate(s, t, c);
    }
  }

  lemma AfterCreate(s: DirState, t: DirState, c: Command)
    requires c.Make? && Creates(s, t, c.name, c.length) && Sized(s) && Sized(t) && Affords(AccountOf(s), c)
    ensures Performed(s, t, c)
  {
    hide WellFormed, Bindings, ContentsBy, Bound, OthersStay, Holes, CreationCost, Zeros;
    NamesAndHoles(s.entries);
    HoleIsFreeSlot(s.entries);
    LengthsOf(s);
    SpendFollows(AccountOf(s), Named(s), c);
    var own, own', cost := s.files[ROOT_DIR_SECTOR].own, t.files[ROOT_DIR_SECTOR].own, CreationCost(c.length);
    assert |own'| + |t.free| == |own' + t.free| == |own + s.free[cost..]| == |own| + |s.free| - cost;
  }

  lemma AfterUpdate(s: DirState, t: DirState, c: Command)
    requires (c.Put? || c.PutAt?) && Linked(s) && c.name in Named(s) && Enacts(s, t, c) && Permitted(c)
    requires Sized(s) && Sized(t) && Affords(AccountOf(s), c)
    ensures Performed(s, t, c)
  {
    hide WellFormed, Bindings, ContentsBy, Bound, Sealed, CreationCost, Sectors, Creates, Removes, Sized, RoomFor;
    var was := Named(s)[c.name];
    var bytes := if c.Put? then Splice(was, c.pos, Sealed(c.buf)) else Splice(was, c.ofs, c.buf);
    UpdatedFree(s, t, c.name, bytes, if c.Put? then c.pos + |c.buf| else c.ofs + |c.buf|);
    SpendFollows(AccountOf(s), Named(s), c);
  }

  lemma UpdatedFree(s: DirState, t: DirState, name: Name, bytes: seq<byte>, end: nat)
    requires Updates(s, t, name, bytes) && Sized(s) && Sized(t) && name in Named(s)
    requires |bytes| == Max(|Named(s)[name]|, end) && RoomFor(|Named(s)[name]|, end, |s.free|)
    ensures |t.free| == LeftByWrite(|Named(s)[name]|, end, |s.free|)
  {
    hide WellFormed, Bindings, Bound, CreationCost, Sectors;
    var f := SectorOf(s, name);
    var own, own' := s.files[f].own, t.files[f].own;
    assert |own'| + |t.free| == |own' + t.free| == |own + s.free| == |own| + |s.free|;
  }

  lemma AfterRemove(s: DirState, t: DirState, c: Command)
    requires c.Drop? && Removes(s, t, c.name) && Sized(s) && Sized(t)
    ensures Performed(s, t, c)
  {
    hide WellFormed, Bindings, ContentsBy, Bound, OthersStay, Holes, CreationCost;
    SpendFollows(AccountOf(s), Named(s), c);
  }

  lemma AfterNothing(s: DirState, c: Command)
    requires Linked(s) && Sized(s) && !c.Make? && c.name !in Named(s)
    ensures Performed(s, s, c)
  {
    hide WellFormed, Bindings, Bound;
    assert c.Drop? ==> Named(s) - {c.name} == Named(s);
  }

  /** Performs `cs` in order and stops at the first command that is not possible, which the account
      tells beforehand; `at` is the state in which it stopped, or the last. */
  method Session(dir: Dir, cs: seq<Command>) returns (count: nat, ghost at: DirState)
    requires dir.Valid() && dir.inode == ROOT_DIR_SECTOR && Linked(dir.State())
    requires forall i :: 0 <= i < |cs| ==> Permitted(cs[i])
    modifies dir.fs, dir.fs.vol.Repr()
    ensures dir.Valid() && count <= |cs| && |old(dir.State()).entries| > 0 && |at.entries| > 0
    ensures (count, AccountOf(at)) == Reach(AccountOf(old(dir.State())), cs, 0)
    ensures Linked(at) && Named(at) == Effect(Named(old(dir.State())), cs[..count]) && Persists(old(dir.State()), at)
    ensures count < |cs| ==> !Possible(at, cs[count]) && Stalls(at, dir.State(), cs[count])
    ensures count == |cs| ==> dir.State() == at && Named(at) == Effect(Named(old(dir.State())), cs)
  {
    hide Dir.Valid, Dir.State, FileSystem.Inv, Linked, Named, Bindings, WellFormed, Apply, Possible, Permitted,
      Persists, AccountOf, Affords, Spend;
    ghost var s := dir.State();
    dir.EntriesFormed();
    StartOfRun(s);
    at := s;
    count := 0;
    while count < |cs|
      invariant 0 <= count <= |cs| && dir.Valid() && dir.State() == at && |s.entries| > 0
      invariant |at.entries| > 0 && Linked(at) && Named(at) == Effect(Named(s), cs[..count]) && Persists(s, at)
      invariant Reach(AccountOf(s), cs, 0) == Reach(AccountOf(at), cs, count)
    {
      EffectNext(Named(s), cs, count);
      var performed := Perform(dir, cs[count]);
      if !performed {
        return;
      }
      PersistsOn(s, at, dir.State());
      at := dir.State();
      count := count + 1;
    }
    assert cs[..count] == cs;
  }

  lemma StartOfRun(s: DirState)
    requires Linked(s)
    ensures |s.entries| > 0 && Persists(s, s)
  {
  }
}
