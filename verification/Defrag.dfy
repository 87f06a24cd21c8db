/** defragment (fsutil2.c): every file of the root directory is read into memory, all are
    removed, and each is created and written again. */
module Defrag {
  import opened Sector
  import opened Geometry
  import opened FreeList
  import opened Files
  import opened FileTable
  import opened FileSystem
  import opened Directory
  import opened Dirs
  import opened Filesys
  import opened OpenFiles
  import opened Fsutil
  import opened Space
  import opened Fragmentation

  /** struct file_elem. */
  datatype Saved = Saved(name: Name, contents: seq<byte>)

  function TotalCost(list: seq<Saved>): nat {
    if list == [] then 0 else TotalCost(list[..|list| - 1]) + CreationCost(|list[|list| - 1].contents|)
  }

  function NamesIn(list: seq<Saved>): (names: seq<Name>)
    ensures |names| == |list|
  {
    seq(|list|, k requires 0 <= k < |list| => list[k].name)
  }

  /** The file system that holds exactly the files of `list`, as file_write leaves them. */
  ghost function Rebuilt(list: seq<Saved>): map<Name, seq<byte>> {
    if list == [] then map[]
    else Rebuilt(list[..|list| - 1])[list[|list| - 1].name := Sealed(list[|list| - 1].contents)]
  }

  /** `list` has every named file once, with its contents. */
  ghost predicate Lists(s: DirState, list: seq<Saved>) {
    && |s.entries| > 0
    && (forall k :: 0 <= k < |list| ==> list[k].name in Named(s) && list[k].contents == Named(s)[list[k].name])
    && (forall j, k :: 0 <= j < k < |list| ==> list[j].name != list[k].name)
    && (forall n :: n in Named(s) ==> exists k :: 0 <= k < |list| && list[k].name == n)
  }

  /** `list` has the files called `names`, in order. */
  ghost predicate Holding(s: DirState, names: seq<Name>, list: seq<Saved>) {
    && |s.entries| > 0 && |names| == |list|
    && forall k :: 0 <= k < |list| ==>
           list[k].name == names[k] && names[k] in Named(s) && list[k].contents == Named(s)[names[k]]
  }

  lemma HoldOneMore(s: DirState, names: seq<Name>, list: seq<Saved>, name: Name, contents: seq<byte>)
    requires Holding(s, names, list) && name in Named(s) && contents == Named(s)[name]
    ensures Holding(s, names + [name], list + [Saved(name, contents)])
  {
  }

  lemma NoneHeld(s: DirState)
    requires Linked(s)
    ensures |s.entries| > 0 && Holding(s, [], [])
  {
  }

  lemma NamesListed(s: DirState, names: seq<Name>, list: seq<Saved>)
    requires Linked(s) && names == Listing(s.entries, 1) && Holding(s, names, list)
    ensures Lists(s, list)
  {
    hide Bindings, WellFormed, ContentsBy;
    ListingExact(s.entries);
    NamesAreBound(s);
    forall n | n in Named(s) ensures exists k :: 0 <= k < |list| && list[k].name == n {
      assert n in names;
      var k :| 0 <= k < |names| && names[k] == n;
      assert list[k].name == n;
    }
  }

  /** The first loop of defragment. */
  method Collect(dir: Dir) returns (list: seq<Saved>)
    requires dir.Valid() && dir.inode == ROOT_DIR_SECTOR && Linked(dir.State()) && dir.pos == ENTRY_BYTES
    requires Ordinary(dir.State())
    modifies dir`pos, dir.fs.vol.cache`clock, dir.fs.vol.cache.device, dir.fs.vol.cache.slots
    ensures dir.Valid() && dir.State() == old(dir.State()) && Lists(dir.State(), list)
    ensures Holding(dir.State(), Listing(dir.State().entries, 1), list)
  {
    hide Dir.Valid, Dir.State, Listing, Linked, Bindings, Named, Special, Lists, WellFormed, Holding, Ahead, Ordinary;
    ghost var s, names := dir.State(), [];
    list := [];
    NoneHeld(s);
    ghost var k := 1;
    var more, name;
    more, name, k := dir.ReadDir(k);
    assert names + Listing(s.entries, 1) == Listing(s.entries, 1);
    ReadOn(s, names, 1, more, name, k);
    while more
      invariant dir.Valid() && dir.State() == s && k <= |s.entries| && dir.pos == ENTRY_BYTES * k
      invariant Ahead(s, names, more, name, k) && Holding(s, names, list)
      decreases |s.entries| - k, more
    {
      Listed(s, names, name, k);
      OrdinaryName(s, name);
      var contents := ReadWhole(dir, name);
      HoldOneMore(s, names, list, name, contents);
      list := list + [Saved(name, contents)];
      names := names + [name];
      ghost var was := k;
      more, name, k := dir.ReadDir(k);
      ReadOn(s, names, was, more, name, k);
    }
    AllRead(s, names, name, k);
    NamesListed(s, names, list);
  }

  /** The directory is where it was. */
  ghost predicate SameRoot(s: DirState, t: DirState) {
    && |t.entries| == |s.entries| && ROOT_DIR_SECTOR in s.files && ROOT_DIR_SECTOR in t.files
    && t.files[ROOT_DIR_SECTOR].own == s.files[ROOT_DIR_SECTOR].own
  }

  function NamesOf(list: seq<Saved>): set<Name> {
    set k | 0 <= k < |list| :: list[k].name
  }

  /** The first `i` files of `list` have been removed. */
  ghost predicate Cleared(s: DirState, t: DirState, list: seq<Saved>, i: nat)
    requires i <= |list| && |s.entries| > 0
  {
    && Linked(t) && Named(t) == Named(s) - NamesOf(list[..i])
    && |t.free| == |s.free| + TotalCost(list[..i]) && Holes(t.entries) == Holes(s.entries) + i
    && Keeps(s, t) && SameRoot(s, t)
  }

  lemma ClearStep(s: DirState, t: DirState, u: DirState, list: seq<Saved>, i: nat)
    requires Lists(s, list) && i < |list| && Cleared(s, t, list, i) && Removes(t, u, list[i].name)
    ensures Cleared(s, u, list, i + 1)
  {
    hide Bound, WellFormed, Named, Bindings, Holes, OthersStay, CreationCost;
    var next := list[..i + 1];
    assert next[..i] == list[..i] && next[i] == list[i];
    NamesOfNext(list, i);
    assert Named(t)[list[i].name] == Named(s)[list[i].name];
  }

  lemma NamesOfNext(list: seq<Saved>, i: nat)
    requires i < |list|
    ensures NamesOf(list[..i + 1]) == NamesOf(list[..i]) + {list[i].name}
  {
    var next := list[..i + 1];
    assert next[i] == list[i];
    forall n | n in NamesOf(list[..i]) ensures n in NamesOf(next) {
      var k :| 0 <= k < i && list[..i][k].name == n;
      assert next[k].name == n;
    }
  }

  /** A file not yet removed is still bound. */
  lemma StillThere(s: DirState, t: DirState, list: seq<Saved>, i: nat)
    requires Lists(s, list) && i < |list| && Cleared(s, t, list, i)
    ensures list[i].name in Bindings(t.entries)
  {
    hide Bindings, Bound, WellFormed;
    NamesAreBound(t);
    assert list[i].name !in NamesOf(list[..i]);
    assert list[i].name in Named(t);
  }

  lemma ClearingBegins(s: DirState, list: seq<Saved>)
    requires Linked(s)
    ensures Cleared(s, s, list, 0)
  {
    hide Bound, WellFormed, Bindings, ContentsBy;
    assert NamesOf(list[..0]) == {};
  }

  lemma AllCleared(s: DirState, t: DirState, list: seq<Saved>)
    requires Lists(s, list) && Cleared(s, t, list, |list|)
    ensures Named(t) == map[]
  {
    hide Linked, ContentsBy;
    assert list[..|list|] == list;
    forall n | n in Named(s) ensures n in NamesOf(list) {
      var k :| 0 <= k < |list| && list[k].name == n;
      assert list[k].name in NamesOf(list);
    }
  }

  /** The second loop of defragment. */
  method RemoveAll(dir: Dir, list: seq<Saved>)
    requires dir.Valid() && dir.inode == ROOT_DIR_SECTOR && Linked(dir.State()) && Lists(dir.State(), list)
    modifies dir.fs, dir.fs.vol.Repr()
    ensures dir.Valid() && Cleared(old(dir.State()), dir.State(), list, |list|)
    ensures Named(dir.State()) == map[]
  {
    hide Dir.Valid, Dir.State, Linked, Bindings, Named, Lists, WellFormed, Cleared, Removes, FileSystem.Inv,
      FileSystem.Data, Special, TotalCost, Holes;
    ghost var s := dir.State();
    dir.EntriesFormed();
    ClearingBegins(s, list);
    var i := 0;
    while i < |list|
      invariant 0 <= i <= |list| && dir.Valid() && |s.entries| > 0 && Cleared(s, dir.State(), list, i)
    {
      ghost var t := dir.State();
      dir.EntriesFormed();
      ClearedIsLinked(s, t, list, i);
      StillThere(s, t, list, i);
      var removed := Remove(dir, list[i].name);
      ClearStep(s, t, dir.State(), list, i);
      i := i + 1;
    }
    dir.EntriesFormed();
    AllCleared(s, dir.State(), list);
  }

  lemma ClearedIsLinked(s: DirState, t: DirState, list: seq<Saved>, i: nat)
    requires |s.entries| > 0 && i <= |list| && Cleared(s, t, list, i)
    ensures Linked(t)
  {
  }

  /** The free sectors are consecutive. */
  ghost predicate CountsUp(free: seq<nat>) {
    forall j, k :: 0 <= j <= k < |free| ==> free[k] == free[j] + (k - j)
  }

  /** A file's sectors follow its inode's, one after another. */
  ghost predicate InOneRun(info: FileInfo, sector: nat) {
    forall r :: 0 <= r < |info.own| ==> info.own[r] == sector + 1 + r
  }

  /** A file takes the first free sectors; if those are consecutive, so are the file's, and
      what is left. */
  lemma TakeInOneRun(free: seq<nat>, left: seq<nat>, sector: nat, info: FileInfo, cost: nat)
    requires CountsUp(free) && cost <= |free| && [sector] + info.own == free[..cost] && left == free[cost..]
    ensures CountsUp(left) && InOneRun(info, sector)
  {
    forall r | 0 <= r < |info.own| ensures info.own[r] == sector + 1 + r {
      assert info.own[r] == ([sector] + info.own)[r + 1] == free[r + 1];
      assert sector == ([sector] + info.own)[0] == free[0];
    }
  }

  /** What the third loop needs of the saved files. */
  ghost predicate Storable(list: seq<Saved>) {
    && (forall k :: 0 <= k < |list| ==>
          ValidName(list[k].name) && !Special(list[k].name) &&
          list[k].contents != [] && Sectors(|list[k].contents|) <= CAPACITY)
    && (forall j, k :: 0 <= j < k < |list| ==> list[j].name != list[k].name)
  }

  ghost predicate AllInOneRun(s: DirState) {
    |s.entries| > 0 && forall n :: n in Bindings(s.entries) ==>
      SectorOf(s, n) in s.files && InOneRun(s.files[SectorOf(s, n)], SectorOf(s, n))
  }

  /** The first `i` files of `list` have taken the sectors of `free` in order, inode first. */
  ghost predicate InTurn(free: seq<nat>, t: DirState, list: seq<Saved>, i: nat)
    requires i <= |list|
  {
    |t.entries| > 0 && forall k :: 0 <= k < i ==> TakesItsTurn(free, t, list, k)
  }

  ghost predicate TakesItsTurn(free: seq<nat>, t: DirState, list: seq<Saved>, k: nat)
    requires k < |list| && |t.entries| > 0
  {
    var name, start, end := list[k].name, TotalCost(list[..k]), TotalCost(list[..k + 1]);
    && name in Bindings(t.entries) && SectorOf(t, name) in t.files && start <= end <= |free|
    && [SectorOf(t, name)] + t.files[SectorOf(t, name)].own == free[start..end]
  }

  /** The first `i` files of `list` are back; `s` was the state before the first of them. */
  ghost predicate Refilled(s: DirState, t: DirState, list: seq<Saved>, i: nat)
    requires i <= |list|
  {
    && Linked(t) && Named(t) == Rebuilt(list[..i])
    && TotalCost(list[..i]) <= |s.free| && t.free == s.free[TotalCost(list[..i])..]
    && Holes(t.entries) + i == Holes(s.entries) && Compact(t.entries, NamesIn(list[..i]))
    && Keeps(s, t) && SameRoot(s, t) && InTurn(s.free, t, list, i)
    && (CountsUp(s.free) ==> CountsUp(t.free) && AllInOneRun(t))
  }

  lemma RefillingBegins(s: DirState, list: seq<Saved>)
    requires Linked(s) && Named(s) == map[]
    ensures Refilled(s, s, list, 0)
  {
    hide Bindings, WellFormed, ContentsBy, Compact;
    NamesAreBound(s);
    assert Bindings(s.entries) == map[];
    NothingIsCompact(s.entries);
    assert NamesIn(list[..0]) == [];
  }

  lemma {:induction false} RebuiltNames(list: seq<Saved>)
    ensures Rebuilt(list).Keys == NamesOf(list)
  {
    if list == [] {
    } else {
      RebuiltNames(list[..|list| - 1]);
      NamesOfNext(list, |list| - 1);
      assert list[..|list|] == list;
    }
  }

  lemma {:induction false} CostGrows(list: seq<Saved>, i: nat)
    requires i < |list|
    ensures TotalCost(list[..i + 1]) == TotalCost(list[..i]) + CreationCost(|list[i].contents|)
    ensures TotalCost(list[..i + 1]) <= TotalCost(list)
    decreases |list|
  {
    hide CreationCost;
    assert list[..i + 1][..i] == list[..i];
    if i + 1 < |list| {
      var init := list[..|list| - 1];
      CostGrows(init, i);
      assert init[..i + 1] == list[..i + 1];
    } else {
      assert list[..i + 1] == list;
    }
  }

  /** There is room for each file to be created again. */
  lemma CanCreate(s: DirState, t: DirState, list: seq<Saved>, i: nat)
    requires i < |list| && Refilled(s, t, list, i) && Storable(list)
    requires TotalCost(list) <= |s.free| && |list| <= Holes(s.entries)
    ensures Linked(t) && Creatable(t, list[i].name, |list[i].contents|) && FreeSlot(t.entries, 0) < |t.entries|
  {
    hide Bindings, WellFormed, ContentsBy, CreationCost, Bound;
    CostGrows(list, i);
    HoleIsFreeSlot(t.entries);
    NamesAreBound(t);
    RebuiltNames(list[..i]);
  }

  lemma RefillStep(s: DirState, t: DirState, u: DirState, v: DirState, list: seq<Saved>, i: nat)
    requires i < |list| && Refilled(s, t, list, i) && FreeSlot(t.entries, 0) < |t.entries| && Storable(list)
    requires Creates(t, u, list[i].name, |list[i].contents|)
    requires Rewrites(u, v, list[i].name, Sealed(list[i].contents))
    ensures Refilled(s, v, list, i + 1)
  {
    hide Bindings, WellFormed, ContentsBy, CreationCost, Bound, OthersStay, CountsUp, AllInOneRun, Sealed, InTurn,
      Compact, ValidName, Padded;
    CostGrows(list, i);
    var next := list[..i + 1];
    assert next[..i] == list[..i] && next[i] == list[i];
    assert NamesIn(next) == NamesIn(list[..i]) + [list[i].name];
    CompactNext(t.entries, NamesIn(list[..i]), list[i].name, SectorOf(u, list[i].name));
    TurnStep(s.free, t, u, v, list, i);
    if CountsUp(s.free) {
      StillInOneRun(t, u, v, list[i].name, |list[i].contents|, Sealed(list[i].contents));
    }
  }

  lemma TurnStep(free: seq<nat>, t: DirState, u: DirState, v: DirState, list: seq<Saved>, i: nat)
    requires i < |list| && InTurn(free, t, list, i)
    requires TotalCost(list[..i]) <= |free| && t.free == free[TotalCost(list[..i])..]
    requires Creates(t, u, list[i].name, |list[i].contents|)
    requires forall k :: 0 <= k < i ==> list[k].name != list[i].name
    requires Rewrites(u, v, list[i].name, Sealed(list[i].contents))
    ensures InTurn(free, v, list, i + 1)
  {
    hide Bindings, WellFormed, ContentsBy, CreationCost, Bound, Sealed, Padded, TotalCost, Holes, FreeSlot, Linked;
    CostGrows(list, i);
    forall k | 0 <= k < i ensures TakesItsTurn(free, v, list, k) {
      assert TakesItsTurn(free, t, list, k);
    }
  }

  lemma StillInOneRun(t: DirState, u: DirState, v: DirState, name: Name, length: nat, bytes: seq<byte>)
    requires CountsUp(t.free) && AllInOneRun(t) && FreeSlot(t.entries, 0) < |t.entries|
    requires Creates(t, u, name, length) && Rewrites(u, v, name, bytes)
    ensures CountsUp(v.free) && AllInOneRun(v)
  {
    hide Bindings, WellFormed, CreationCost, Bound, CountsUp, InOneRun, Holes;
    var sector := SectorOf(u, name);
    TakeInOneRun(t.free, u.free, sector, u.files[sector], CreationCost(length));
    forall n | n in Bindings(v.entries)
      ensures SectorOf(v, n) in v.files && InOneRun(v.files[SectorOf(v, n)], SectorOf(v, n))
    {
      NamesAreBound(t);
      NamesAreBound(u);
      SameRun(u.files[SectorOf(u, n)], v.files[SectorOf(u, n)], SectorOf(u, n));
    }
  }

  lemma SameRun(info: FileInfo, info': FileInfo, sector: nat)
    requires info'.own == info.own && InOneRun(info, sector)
    ensures InOneRun(info', sector)
  {
  }

  /** The third loop of defragment. */
  method RebuildAll(dir: Dir, list: seq<Saved>)
    requires dir.Valid() && dir.inode == ROOT_DIR_SECTOR && Linked(dir.State()) && Named(dir.State()) == map[]
    requires Storable(list) && TotalCost(list) <= |dir.State().free| && |list| <= Holes(dir.State().entries)
    modifies dir.fs, dir.fs.vol.Repr()
    ensures dir.Valid() && Refilled(old(dir.State()), dir.State(), list, |list|)
  {
    hide Dir.Valid, Dir.State, Linked, Bindings, Named, WellFormed, Refilled, Creates, Creatable, Rewrites, Storable,
      Special, ValidName, TotalCost, Holes, CreationCost, IsString, Sealed, FileSystem.Inv;
    ghost var s := dir.State();
    RefillingBegins(s, list);
    var i := 0;
    while i < |list|
      invariant 0 <= i <= |list| && dir.Valid() && Refilled(s, dir.State(), list, i)
    {
      ghost var t := dir.State();
      CanCreate(s, t, list, i);
      StorableAt(list, i);
      var created := Create(dir, list[i].name, |list[i].contents|);
      ghost var u := dir.State();
      CreatedEmpty(t, u, list[i].name, |list[i].contents|);
      Rewrite(dir, list[i].name, list[i].contents);
      RefillStep(s, t, u, dir.State(), list, i);
      i := i + 1;
    }
  }

  lemma StorableAt(list: seq<Saved>, i: nat)
    requires Storable(list) && i < |list|
    ensures IsString(list[i].name) && !Special(list[i].name) && SLASH !in list[i].name && list[i].contents != []
    ensures |list[i].contents| <= OFFSET_LIMIT
  {
  }

  lemma CreatedEmpty(t: DirState, u: DirState, name: Name, length: nat)
    requires Creates(t, u, name, length)
    ensures |u.entries| > 0 && Linked(u) && name in Named(u) && Named(u)[name] == Zeros(length)
  {
  }

  /** The sectors that no file of the directory can have: the free-map file's and the directory's. */
  ghost predicate IsBase(s: DirState, x: nat) {
    x == 0 || x in s.mapOwn || x == ROOT_DIR_SECTOR || (ROOT_DIR_SECTOR in s.files && x in s.files[ROOT_DIR_SECTOR].own)
  }

  /** Those sectors come before all others. */
  ghost predicate BasePacked(s: DirState) {
    forall x, y :: 0 <= y < x && IsBase(s, x) ==> IsBase(s, y)
  }

  /** The first sector past the free-map file's and the directory's. */
  ghost predicate FirstPastBase(s: DirState, x: int) {
    x >= 0 && !IsBase(s, x) && forall y :: 0 <= y < x ==> IsBase(s, y)
  }

  lemma FirstFreeIsFirst(s: DirState, bits: seq<bool>, free: seq<nat>)
    requires free == Free(bits) != [] && forall x :: 0 <= x < |bits| ==> bits[x] == IsBase(s, x)
    ensures FirstPastBase(s, free[0])
  {
    hide Free, IsBase;
    FreeExact(bits);
    assert free[0] in free;
    forall y | 0 <= y < free[0] ensures y !in free {
      assert forall k :: 0 < k < |free| ==> free[0] < free[k];
    }
  }

  /** With no file but the directory and no sector lost, the free sectors are consecutive, from the
      first past the base on. */
  lemma OnlyBaseLeft(dir: Dir)
    requires dir.Valid() && dir.inode == ROOT_DIR_SECTOR && Linked(dir.State()) && Named(dir.State()) == map[]
    requires dir.State().tidy && BasePacked(dir.State())
    ensures CountsUp(dir.State().free)
    ensures dir.State().free != [] ==> FirstPastBase(dir.State(), dir.State().free[0])
  {
    hide WellFormed, FileOK, FirstPastBase;
    var fs := dir.fs;
    var bits := fs.vol.freeMap.contents;
    NamesAreBound(dir.State());
    MapInUse(fs.vol);
    forall x | 0 <= x < |bits| ensures bits[x] == IsBase(dir.State(), x) {
      BaseInUse(dir, x);
    }
    PackedFree(bits);
    if dir.State().free != [] {
      FirstFreeIsFirst(dir.State(), bits, dir.State().free);
    }
  }

  lemma BaseInUse(dir: Dir, x: nat)
    requires dir.fs.Inv() && dir.fs.NoLeaks() && dir.fs.files.Keys == {ROOT_DIR_SECTOR}
    requires x < |dir.fs.vol.freeMap.contents|
    ensures dir.fs.vol.freeMap.contents[x] == IsBase(dir.State(), x)
  {
    var fs := dir.fs;
    var bits, own := fs.vol.freeMap.contents, fs.files[ROOT_DIR_SECTOR].own;
    MapInUse(fs.vol);
    if x == ROOT_DIR_SECTOR || x in own {
      assert Claims(fs.files, ROOT_DIR_SECTOR, x);
      ClaimedInUse(fs.vol.cache.view, bits, fs.files, fs.vol.mapOwn, ROOT_DIR_SECTOR, x);
    }
  }

  ghost function Resealed(files: map<Name, seq<byte>>): map<Name, seq<byte>> {
    map n | n in files :: Sealed(files[n])
  }

  lemma {:induction false} RebuiltAt(list: seq<Saved>, k: nat)
    requires k < |list| && forall i, j :: 0 <= i < j < |list| ==> list[i].name != list[j].name
    ensures list[k].name in Rebuilt(list) && Rebuilt(list)[list[k].name] == Sealed(list[k].contents)
  {
    if k == |list| - 1 {
    } else {
      RebuiltAt(list[..|list| - 1], k);
    }
  }

  /** Writing back every listed file gives every file back, terminated. */
  lemma RebuiltIsResealed(s: DirState, list: seq<Saved>)
    requires Lists(s, list)
    ensures Rebuilt(list) == Resealed(Named(s))
  {
    hide Bindings, Sealed, ContentsBy;
    RebuiltNames(list);
    forall n | n in Named(s) ensures n in Rebuilt(list) && Rebuilt(list)[n] == Sealed(Named(s)[n]) {
      var k :| 0 <= k < |list| && list[k].name == n;
      RebuiltAt(list, k);
    }
    forall n | n in Rebuilt(list) ensures n in Named(s) {
      assert n in NamesOf(list);
    }
  }

  /** Rewriting nonempty files changes nothing exactly when all of them end in NUL. */
  lemma TerminatedIsKept(files: map<Name, seq<byte>>)
    requires forall n :: n in files ==> files[n] != []
    ensures Resealed(files) == files <==> forall n :: n in files ==> Terminated(files[n])
  {
    forall n | n in files ensures Sealed(files[n]) == files[n] <==> Terminated(files[n]) {
      SealedWhenTerminated(files[n]);
    }
    if Resealed(files) == files {
      forall n | n in files ensures Terminated(files[n]) {
        assert Resealed(files)[n] == files[n];
      }
    }
  }

  lemma SavedAreStorable(dir: Dir, list: seq<Saved>)
    requires dir.Valid() && Linked(dir.State()) && Lists(dir.State(), list) && Ordinary(dir.State())
    requires forall n :: n in Named(dir.State()) ==> Named(dir.State())[n] != []
    ensures Storable(list)
  {
    hide Bindings, WellFormed, FileSystem.Inv;
    var s := dir.State();
    NamesAreBound(s);
    forall k | 0 <= k < |list|
      ensures ValidName(list[k].name) && !Special(list[k].name) && list[k].contents != []
      ensures Sectors(|list[k].contents|) <= CAPACITY
    {
      LookupIsBinding(s.entries, list[k].name);
      FileFacts(dir.fs, SectorOf(s, list[k].name));
    }
  }

  lemma RunIsUnfragmented(dir: Dir, name: Name)
    requires dir.Valid() && Linked(dir.State()) && AllInOneRun(dir.State()) && name in Bindings(dir.State().entries)
    ensures Unfragmented(dir.State(), name)
  {
    hide Bindings, WellFormed, FileSystem.Inv, Fragmented, InOrder, DataOf;
    var s := dir.State();
    var sector := SectorOf(s, name);
    FileFacts(dir.fs, sector);
    var own := s.files[sector].own;
    assert own != [] ==> own[|own| - 1] == sector + |own|;
    ConsecutiveIsUnfragmented(own, Sectors(|s.data[sector]|), sector + 1);
  }

  /** What creating the files called `names` took. */
  ghost function CostOf(files: map<Name, seq<byte>>, names: seq<Name>): nat
    requires forall n :: n in names ==> n in files
  {
    if names == [] then 0
    else CostOf(files, names[..|names| - 1]) + CreationCost(|files[names[|names| - 1]]|)
  }

  lemma {:induction false} SameCost(s: DirState, names: seq<Name>, list: seq<Saved>)
    requires Holding(s, names, list)
    ensures forall n :: n in names ==> n in Named(s)
    ensures CostOf(Named(s), names) == TotalCost(list)
  {
    hide Bindings, ContentsBy, CreationCost;
    if names == [] {
    } else {
      SameCost(s, names[..|names| - 1], list[..|list| - 1]);
    }
  }

  /** The files listed come back in the same slots of the listing, each right after the one before. */
  ghost predicate InListedOrder(s: DirState, t: DirState) {
    && |s.entries| > 0 && |t.entries| > 0
    && var names := Listing(s.entries, 1);
       && Listing(t.entries, 1) == names && Compact(t.entries, names)
       && (forall n :: n in names ==> n in Named(s) && n in Bindings(t.entries))
       && (s.tidy && BasePacked(s) ==>
             forall k :: 0 <= k < |names| ==> FirstPastBase(s, SectorOf(t, names[k]) - CostOf(Named(s), names[..k])))
  }

  /** Where the `k`-th file starts if the free sectors are consecutive. */
  lemma TurnStart(free: seq<nat>, t: DirState, list: seq<Saved>, k: nat)
    requires CountsUp(free) && k < |list| && InTurn(free, t, list, |list|)
    ensures |t.entries| > 0 && list[k].name in Bindings(t.entries) && free != []
    ensures SectorOf(t, list[k].name) == free[0] + TotalCost(list[..k])
  {
    hide Bindings, TotalCost;
    assert TakesItsTurn(free, t, list, k);
    var sector, start, end := SectorOf(t, list[k].name), TotalCost(list[..k]), TotalCost(list[..k + 1]);
    assert free[start..end][0] == sector;
  }

  /** The `k`-th listed file comes right after the base and the files listed before it. */
  lemma PlaceOf(s: DirState, free: seq<nat>, u: DirState, names: seq<Name>, list: seq<Saved>, k: nat)
    requires Holding(s, names, list) && InTurn(free, u, list, |list|) && k < |names|
    requires CountsUp(free) && (free != [] ==> FirstPastBase(s, free[0]))
    ensures |u.entries| > 0 && names[k] in Bindings(u.entries) && forall n :: n in names[..k] ==> n in Named(s)
    ensures FirstPastBase(s, SectorOf(u, names[k]) - CostOf(Named(s), names[..k]))
  {
    hide Bindings, ContentsBy, FirstPastBase, CountsUp, InTurn, TotalCost, CostOf;
    TurnStart(free, u, list, k);
    SameCost(s, names[..k], list[..k]);
  }

  lemma OrderKept(s: DirState, t: DirState, u: DirState, list: seq<Saved>)
    requires |s.entries| > 0 && Holding(s, Listing(s.entries, 1), list) && Refilled(t, u, list, |list|)
    requires Keeps(s, t) && SameRoot(s, t)
    requires s.tidy && BasePacked(s) ==> CountsUp(t.free) && (t.free != [] ==> FirstPastBase(t, t.free[0]))
    ensures InListedOrder(s, u)
  {
    hide Bindings, WellFormed, TotalCost, AllInOneRun, Listing, Linked, InTurn, CountsUp, Named, Compact, Rebuilt,
      BasePacked, FirstPastBase, CostOf, Keeps, SameRoot, Holes;
    var names := Listing(s.entries, 1);
    ListedNames(s, names, list);
    assert list[..|list|] == list;
    CompactIsListed(u.entries, names);
    forall n | n in names ensures n in Named(s) && n in Bindings(u.entries) {
      var k :| 0 <= k < |names| && names[k] == n;
      BackInPlace(t.free, u, list, k);
    }
    if s.tidy && BasePacked(s) {
      SameBase(s, t);
      forall k | 0 <= k < |names| ensures FirstPastBase(s, SectorOf(u, names[k]) - CostOf(Named(s), names[..k])) {
        PlaceOf(s, t.free, u, names, list, k);
      }
    }
  }

  lemma ListedNames(s: DirState, names: seq<Name>, list: seq<Saved>)
    requires Holding(s, names, list)
    ensures NamesIn(list) == names
  {
  }

  lemma CompactIsListed(slots: seq<Entry>, names: seq<Name>)
    requires Compact(slots, names)
    ensures |slots| > 0 && Listing(slots, 1) == names
  {
    CompactListing(slots, names, 1);
  }

  lemma BackInPlace(free: seq<nat>, t: DirState, list: seq<Saved>, k: nat)
    requires k < |list| && InTurn(free, t, list, |list|)
    ensures |t.entries| > 0 && list[k].name in Bindings(t.entries)
  {
    hide Bindings, TotalCost;
    assert TakesItsTurn(free, t, list, k);
  }

  lemma SameBase(s: DirState, t: DirState)
    requires Keeps(s, t) && SameRoot(s, t)
    ensures forall x: int :: FirstPastBase(s, x) <==> FirstPastBase(t, x)
  {
    assert forall x: nat :: IsBase(s, x) == IsBase(t, x);
  }

  /** defragment, on a freshly opened root directory. */
  method Defragment(dir: Dir)
    requires dir.Valid() && dir.inode == ROOT_DIR_SECTOR && dir.pos == ENTRY_BYTES
    requires Linked(dir.State()) && Ordinary(dir.State())
    requires forall n :: n in Named(dir.State()) ==> Named(dir.State())[n] != []
    modifies dir`pos, dir.fs, dir.fs.vol.Repr()
    ensures dir.Valid() && Linked(dir.State())
    ensures Named(dir.State()) == Resealed(Named(old(dir.State())))
    ensures Named(dir.State()) == Named(old(dir.State())) <==>
              forall n :: n in Named(old(dir.State())) ==> Terminated(Named(old(dir.State()))[n])
    ensures |dir.State().free| == |old(dir.State()).free|
    ensures Keeps(old(dir.State()), dir.State()) && SameRoot(old(dir.State()), dir.State())
    ensures old(dir.State()).tidy && BasePacked(old(dir.State())) ==>
              CountsUp(dir.State().free) &&
              forall n :: n in Bindings(dir.State().entries) ==> Unfragmented(dir.State(), n)
    ensures InListedOrder(old(dir.State()), dir.State())
  {
    hide Dir.Valid, Dir.State, Linked, Bindings, Named, WellFormed, Refilled, Cleared, Storable, Lists, Ordinary,
      Holding, Listing, FirstPastBase, InListedOrder, BasePacked, Unfragmented, CountsUp, AllInOneRun, Resealed,
      Terminated, TotalCost, Holes, FileSystem.Inv, FileSystem.Data;
    ghost var s := dir.State();
    dir.EntriesFormed();
    var list := Collect(dir);
    SavedAreStorable(dir, list);
    RemoveAll(dir, list);
    ghost var t := dir.State();
    dir.EntriesFormed();
    AfterClearing(s, t, list);
    if s.tidy && BasePacked(s) {
      StillPacked(s, t);
      OnlyBaseLeft(dir);
    }
    RebuildAll(dir, list);
    AfterRefilling(s, t, dir.State(), list);
    OrderKept(s, t, dir.State(), list);
    TerminatedIsKept(Named(s));
    if s.tidy && BasePacked(s) {
      forall n | n in Bindings(dir.State().entries) ensures Unfragmented(dir.State(), n) {
        RunIsUnfragmented(dir, n);
      }
    }
  }

  lemma StillPacked(s: DirState, t: DirState)
    requires BasePacked(s) && Keeps(s, t) && SameRoot(s, t)
    ensures BasePacked(t)
  {
    forall x: nat ensures IsBase(s, x) == IsBase(t, x) {
    }
  }

  lemma AfterClearing(s: DirState, t: DirState, list: seq<Saved>)
    requires |s.entries| > 0 && Cleared(s, t, list, |list|)
    ensures Linked(t) && |t.free| == |s.free| + TotalCost(list) && |list| <= Holes(t.entries)
    ensures Keeps(s, t) && SameRoot(s, t)
  {
    assert list[..|list|] == list;
  }

  lemma AfterRefilling(s: DirState, t: DirState, u: DirState, list: seq<Saved>)
    requires |s.entries| > 0 && Lists(s, list) && |t.free| == |s.free| + TotalCost(list) && Refilled(t, u, list, |list|)
    ensures |u.entries| > 0 && Linked(u) && Named(u) == Resealed(Named(s)) && |u.free| == |s.free|
    ensures Keeps(t, u) && SameRoot(t, u)
    ensures CountsUp(t.free) ==> CountsUp(u.free) && AllInOneRun(u)
  {
    hide Bindings, ContentsBy, Bound, WellFormed, TotalCost, CountsUp, AllInOneRun, Lists, Holes, Rebuilt, Resealed,
      Named;
    assert list[..|list|] == list;
    RebuiltIsResealed(s, list);
  }
}
