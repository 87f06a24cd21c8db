/** From formatting a disk, through a run of commands, to mounting it again or defragmenting it. */
module Lifecycle {
  import opened Sector
  import opened Geometry
  import opened Bitmap
  import opened MapFile
  import opened FileSystem
  import opened Directory
  import opened Dirs
  import opened Filesys
  import opened OpenFiles
  import opened Fsutil
  import opened Fragmentation
  import opened Defrag
  import opened Format
  import opened Commands
  import opened Sessions

  /** dir_open_root. */
  method OpenRoot(dir: Dir) returns (root: Dir)
    requires dir.Valid() && dir.inode == ROOT_DIR_SECTOR
    ensures fresh(root) && root.fs == dir.fs && root.inode == ROOT_DIR_SECTOR && root.pos == ENTRY_BYTES
    ensures dir.Valid() && root.Valid() && root.State() == dir.State() == old(dir.State())
  {
    hide Dir.Valid;
    root := new Dir(dir.fs, dir.inode);
    assert root as object !in dir.fs.vol.Repr();
    SameDirectory(dir, root);
  }

  lemma SameDirectory(dir: Dir, root: Dir)
    requires dir.Valid() && root.fs == dir.fs && root.inode == dir.inode
    ensures root.Valid() && root.State() == dir.State()
  {
  }

  /** filesys_done, then filesys_init and dir_open_root: everything is found again. */
  method Reopen(dir: Dir) returns (again: Dir)
    requires dir.Valid() && dir.inode == ROOT_DIR_SECTOR && dir.State().mapped
    modifies dir.fs.vol.cache.device, dir.fs.vol.cache.slots
    ensures fresh(again) && fresh(again.fs) && fresh(again.fs.vol.Repr() - {dir.fs.vol.cache.device})
    ensures again.fs.vol.cache.device == dir.fs.vol.cache.device
    ensures again.Valid() && again.inode == ROOT_DIR_SECTOR && again.pos == ENTRY_BYTES
    ensures again.State() == old(dir.State())
  {
    hide FileSystem.Inv, FileSystem.Data, FileSystem.NoLeaks, FileSystem.FreeSectors, WellFormed, Slots;
    var ok, mounted := Remount(dir.fs);
    again := new Dir(mounted, ROOT_DIR_SECTOR);
    assert again as object !in mounted.vol.Repr();
  }

  /** What a run has to spend on a freshly formatted disk of so many sectors. */
  function Fresh(blocks: nat): Account
    requires Formattable(blocks)
  {
    Account(map[], MAX_FILES_IN_DIRECTORY,
            blocks - 3 - Total(Sectors(MapBytes(blocks - 1))) - Total(Sectors(ENTRY_BYTES * MAX_FILES_IN_DIRECTORY)))
  }

  /** The disk can be formatted and the run goes through. */
  predicate Completes(blocks: nat, cs: seq<Command>) {
    Formattable(blocks) && GoesThrough(Fresh(blocks), cs)
  }

  lemma FreshAccount(s: DirState, blocks: nat)
    requires Formattable(blocks) && |s.entries| == MAX_FILES_IN_DIRECTORY && Named(s) == map[]
    requires ROOT_DIR_SECTOR in s.files && s.mapOwn + (s.files[ROOT_DIR_SECTOR].own + s.free) == Upward(2, blocks - 3)
    requires |s.mapOwn| == Total(Sectors(MapBytes(blocks - 1)))
    requires |s.files[ROOT_DIR_SECTOR].own| == Total(Sectors(ENTRY_BYTES * MAX_FILES_IN_DIRECTORY))
    ensures AccountOf(s) == Fresh(blocks)
  {
    hide Total, MapBytes, Bindings;
    assert |s.mapOwn + (s.files[ROOT_DIR_SECTOR].own + s.free)| == blocks - 3;
  }

  /** A run on a freshly formatted disk. Whether it goes through, and if not where it stops, can be told
      from the number of sectors; `at` is the state in which it stopped. */
  method Run(device: array<Block>, cs: seq<Command>) returns (done: bool, dir: Dir?, count: nat, ghost at: DirState)
    requires 3 <= device.Length <= BITMAP_ERROR && forall i :: 0 <= i < |cs| ==> Permitted(cs[i])
    modifies device
    ensures done == Completes(device.Length, cs) && count <= |cs|
    ensures Formattable(device.Length) ==>
              dir != null && fresh(dir) && fresh(dir.fs) && fresh(dir.fs.vol.Repr() - {device}) &&
              dir.Valid() && dir.inode == ROOT_DIR_SECTOR && dir.pos == ENTRY_BYTES && dir.fs.vol.cache.device == device
    ensures Formattable(device.Length) ==>
              |at.entries| > 0 && (count, AccountOf(at)) == Reach(Fresh(device.Length), cs, 0) &&
              Linked(at) && Named(at) == Effect(map[], cs[..count]) && at.tidy && at.mapped &&
              (|at.entries| == MAX_FILES_IN_DIRECTORY ==> BasePacked(at))
    ensures Formattable(device.Length) && !done ==>
              count < |cs| && !Possible(at, cs[count]) && Stalls(at, dir.State(), cs[count])
    ensures done ==> at == dir.State() && Named(at) == Effect(map[], cs)
  {
    hide Dir.Valid, Dir.State, Linked, Named, Bindings, Effect, BasePacked, Permitted, Formattable, AccountOf, Fresh,
      Reach, Possible, Stalls;
    done, dir := Format.Format(device);
    count := 0;
    if !done {
      dir, at := null, *;
      return;
    }
    ghost var s := dir.State();
    FreshAccount(s, device.Length);
    count, at := Session(dir, cs);
    done := count == |cs|;
    if |at.entries| == MAX_FILES_IN_DIRECTORY {
      StillPacked(s, at);
    }
    assert cs[..|cs|] == cs;
  }

  /** Format, any run that goes through, unmount and mount: the same names hold the same bytes. */
  method RunAndReopen(device: array<Block>, cs: seq<Command>) returns (done: bool, dir: Dir?)
    requires 3 <= device.Length <= BITMAP_ERROR && forall i :: 0 <= i < |cs| ==> Permitted(cs[i])
    modifies device
    ensures done == Completes(device.Length, cs)
    ensures done ==> dir != null && fresh(dir) && fresh(dir.fs) && fresh(dir.fs.vol.Repr() - {device})
    ensures done ==> dir.Valid() && Linked(dir.State()) && Named(dir.State()) == Effect(map[], cs)
    ensures done ==> dir.State().tidy && dir.State().mapped
  {
    hide Dir.Valid, Dir.State, Linked, Named, Bindings, Effect, BasePacked, Permitted, Formattable, AccountOf, Fresh,
      Reach, Possible, Stalls;
    var count;
    ghost var at;
    done, dir, count, at := Run(device, cs);
    if done {
      dir := Reopen(dir);
    }
  }

  /** Format, a run whose writes are all of fsutil_write, defragment: every file holds what it held,
      and, unless the directory had to grow, fragmentation_degree finds no fragmented file. */
  method RunAndDefragment(device: array<Block>, cs: seq<Command>) returns (done: bool, dir: Dir?, fragmentable: nat,
      fragmented: nat)
    requires 3 <= device.Length <= BITMAP_ERROR && forall i :: 0 <= i < |cs| ==> Permitted(cs[i]) && !cs[i].PutAt?
    requires forall n :: n in Effect(map[], cs) ==> !Special(n) && Effect(map[], cs)[n] != []
    modifies device
    ensures done == Completes(device.Length, cs)
    ensures done ==> dir != null && dir.Valid() && Linked(dir.State()) && Named(dir.State()) == Effect(map[], cs)
    ensures done && |dir.State().entries| == MAX_FILES_IN_DIRECTORY ==> fragmented == 0
  {
    hide Dir.Valid, Dir.State, Linked, Named, Bindings, Effect, BasePacked, Permitted, Special, Tame, Terminated,
      Ordinary, Unfragmented, Formattable, AccountOf, Fresh, Reach, Possible, Stalls;
    fragmentable, fragmented := 0, 0;
    var count;
    ghost var s;
    done, dir, count, s := Run(device, cs);
    if done {
      RunIsOrdinary(s, cs);
      Defragment(dir);
      ghost var t := dir.State();
      dir := OpenRoot(dir);
      StillOrdinary(s, t, Effect(map[], cs));
      fragmentable, fragmented := FragmentationDegree(dir);
      if |t.entries| == MAX_FILES_IN_DIRECTORY {
        NoneCounted(t);
      }
    }
  }

  /** What a run leaves when it writes with fsutil_write alone. */
  lemma RunIsOrdinary(s: DirState, cs: seq<Command>)
    requires Linked(s) && Named(s) == Effect(map[], cs)
    requires forall i :: 0 <= i < |cs| ==> Permitted(cs[i]) && !cs[i].PutAt?
    requires forall n :: n in Effect(map[], cs) ==> !Special(n) && Effect(map[], cs)[n] != []
    ensures |s.entries| > 0 && Ordinary(s) && forall n :: n in Named(s) ==> Named(s)[n] != [] && Terminated(Named(s)[n])
  {
    hide Bindings, Bound, WellFormed, Effect, Permitted;
    NamesAreBound(s);
    EffectIsTame(map[], cs);
  }

  /** Up to 4097 sectors, whose map takes one sector of its file, a disk can be formatted from 75 sectors on. */
  lemma SmallDisks(blocks: nat)
    requires blocks <= 4097
    ensures Formattable(blocks) <==> blocks >= 75
    ensures Formattable(blocks) ==> Fresh(blocks).free == blocks - 75
  {
  }

  /** A disk that formatting leaves no fewer free sectors takes every run that the other takes. */
  lemma RoomierDisk(blocks: nat, other: nat, cs: seq<Command>)
    requires Formattable(blocks) && Formattable(other) && Fresh(blocks).free <= Fresh(other).free
    ensures Completes(blocks, cs) ==> Completes(other, cs)
  {
    hide Formattable, MapBytes, Total, Sectors;
    var a, b := Fresh(blocks), Fresh(other);
    MoreRoom(a, b.free - a.free, cs, 0);
  }

  /** A larger disk may be left fewer: one sector more can cost the free-map file a data sector and an
      index block. */
  lemma LargerDiskMayHoldLess()
    ensures Formattable(503809) && Formattable(503810) && Fresh(503810).free == Fresh(503809).free - 1
  {
  }

  /** The run that leaves a letter at the end of a file goes through as soon as formatting leaves an inode's
      and a data sector. */
  lemma LetterFits(blocks: nat)
    requires Formattable(blocks)
    ensures Completes(blocks, LetterWritten()) <==> Fresh(blocks).free >= 2
  {
    hide Formattable, Total, Sectors, MapBytes, LetterWritten;
    LetterGoesThrough(Fresh(blocks));
  }

  lemma LetterRead()
    ensures Effect(map[], LetterWritten()) == map[[97] := [98]]
    ensures Resealed(map[[97] := [98]]) == map[[97] := [0]]
  {
    EffectMayBeUntame();
    var files: map<Name, seq<byte>> := map[[97] := [98]];
    assert files[[97]] == [98] && Resealed(files)[[97]] == [0];
  }

  /** On every disk where it goes through, the run leaves the letter in the file, and defragmenting loses it. */
  method LoseLastByte(device: array<Block>) returns (dir: Dir, ghost before: map<Name, seq<byte>>)
    requires 3 <= device.Length <= BITMAP_ERROR && Formattable(device.Length) && Fresh(device.Length).free >= 2
    modifies device
    ensures before == map[[97] := [98]]
    ensures dir.Valid() && Linked(dir.State()) && Named(dir.State()) == map[[97] := [0]]
  {
    hide Dir.Valid, Dir.State, Linked, Named, Bindings, Effect, BasePacked, Permitted, Special, Formattable, Fresh,
      AccountOf, Reach, Possible, Stalls, Ordinary, LetterWritten, Resealed, Completes;
    LetterFits(device.Length);
    LetterRead();
    var done, root, count;
    ghost var s;
    done, root, count, s := Run(device, LetterWritten());
    before := Named(s);
    OneLetterIsOrdinary(s);
    Defragment(root);
    dir := root;
  }

  lemma OneLetterIsOrdinary(s: DirState)
    requires |s.entries| > 0 && Linked(s) && Named(s) == map[[97] := [98]]
    ensures Ordinary(s) && forall n :: n in Named(s) ==> Named(s)[n] != []
  {
    hide Bindings, Bound, WellFormed;
    NamesAreBound(s);
  }

  lemma StillOrdinary(s: DirState, t: DirState, files: map<Name, seq<byte>>)
    requires Linked(s) && Linked(t) && Ordinary(s) && Named(s) == files && Named(t) == Resealed(files)
    ensures Ordinary(t)
  {
    hide Bindings, Bound, WellFormed, ContentsBy, Special;
    NamesAreBound(s);
    NamesAreBound(t);
    forall n | n in Bindings(t.entries) ensures !Special(n) {
      assert n in Named(t);
      assert n in Bindings(s.entries);
    }
  }
}
