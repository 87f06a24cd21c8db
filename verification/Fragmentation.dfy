/** fragmentation_degree (fsutil2.c) over the root directory. */
module Fragmentation {
  import opened Geometry
  import opened InodeIO
  import opened FileSystem
  import opened Directory
  import opened Dirs
  import opened Filesys
  import opened Fsutil
  import opened Space

  /** The file called `name` is not one that fragmentation_degree counts. */
  ghost predicate Unfragmented(s: DirState, name: Name)
    requires |s.entries| > 0
  {
    name in Bindings(s.entries) && SectorOf(s, name) in s.files && SectorOf(s, name) in s.data &&
    var own, n := s.files[SectorOf(s, name)].own, Sectors(|s.data[SectorOf(s, name)]|);
    |own| == Total(n) && InOrder(DataOf(own, n))
  }

  /** The file called `name` has at least two data sectors. */
  ghost predicate Fragmentable(s: DirState, name: Name)
    requires |s.entries| > 0
  {
    name in Named(s) && Sectors(|Named(s)[name]|) > 1
  }

  ghost function CountFragmentable(s: DirState, names: seq<Name>): nat
    requires |s.entries| > 0
  {
    if names == [] then 0
    else CountFragmentable(s, names[..|names| - 1]) + if Fragmentable(s, names[|names| - 1]) then 1 else 0
  }

  ghost function CountFragmented(s: DirState, names: seq<Name>): nat
    requires |s.entries| > 0
  {
    if names == [] then 0
    else CountFragmented(s, names[..|names| - 1]) + if Unfragmented(s, names[|names| - 1]) then 0 else 1
  }

  lemma CountNext(s: DirState, names: seq<Name>, name: Name)
    requires |s.entries| > 0
    ensures CountFragmentable(s, names + [name])
            == CountFragmentable(s, names) + (if Fragmentable(s, name) then 1 else 0)
    ensures CountFragmented(s, names + [name]) == CountFragmented(s, names) + (if Unfragmented(s, name) then 0 else 1)
  {
    hide Fragmentable, Unfragmented;
    assert (names + [name])[..|names|] == names;
  }

  /** The count is zero exactly when no listed file is fragmented. */
  lemma {:induction false} NoneFragmented(s: DirState, names: seq<Name>)
    requires |s.entries| > 0
    ensures CountFragmented(s, names) == 0 <==> forall n :: n in names ==> Unfragmented(s, n)
  {
    hide Unfragmented;
    if names == [] {
    } else {
      NoneFragmented(s, names[..|names| - 1]);
      assert names == names[..|names| - 1] + [names[|names| - 1]];
    }
  }

  ghost function FragmentableAmong(s: DirState, names: seq<Name>): set<Name>
    requires |s.entries| > 0
  {
    set n | n in names && Fragmentable(s, n)
  }

  ghost function FragmentedAmong(s: DirState, names: seq<Name>): set<Name>
    requires |s.entries| > 0
  {
    set n | n in names && !Unfragmented(s, n)
  }

  lemma AmongNext(s: DirState, names: seq<Name>)
    requires |s.entries| > 0 && names != []
    ensures var init, last := names[..|names| - 1], names[|names| - 1];
            && FragmentableAmong(s, names)
               == FragmentableAmong(s, init) + (if Fragmentable(s, last) then {last} else {})
            && FragmentedAmong(s, names) == FragmentedAmong(s, init) + (if Unfragmented(s, last) then {} else {last})
  {
    hide Fragmentable, Unfragmented;
    var init, last := names[..|names| - 1], names[|names| - 1];
    assert names == init + [last];
    assert forall n :: n in names <==> n in init || n == last;
  }

  /** Over names that are all different, the counts are the sizes of these sets. */
  lemma {:induction false} CountsAreSizes(s: DirState, names: seq<Name>)
    requires |s.entries| > 0 && forall j, k :: 0 <= j < k < |names| ==> names[j] != names[k]
    ensures CountFragmentable(s, names) == |FragmentableAmong(s, names)|
    ensures CountFragmented(s, names) == |FragmentedAmong(s, names)|
  {
    hide Fragmentable, Unfragmented;
    if names == [] {
      assert FragmentableAmong(s, names) == {} && FragmentedAmong(s, names) == {};
    } else {
      var init, last := names[..|names| - 1], names[|names| - 1];
      CountsAreSizes(s, init);
      AmongNext(s, names);
      assert last !in FragmentableAmong(s, init) && last !in FragmentedAmong(s, init);
    }
  }

  /** What is counted over the whole directory: the files of more than one data sector, and those
      whose data sectors are not in order. */
  lemma CountsOfAll(s: DirState)
    requires Linked(s)
    ensures CountFragmentable(s, Listing(s.entries, 1)) == |set n | n in Named(s) && |Named(s)[n]| > 512|
    ensures CountFragmented(s, Listing(s.entries, 1)) == |set n | n in Bindings(s.entries) && !Unfragmented(s, n)|
  {
    hide Bindings, Unfragmented, WellFormed, Bound, ContentsBy, Listing;
    var names := Listing(s.entries, 1);
    ListingExact(s.entries);
    NamesAreBound(s);
    CountsAreSizes(s, names);
    assert FragmentableAmong(s, names) == (set n | n in Named(s) && |Named(s)[n]| > 512);
    assert FragmentedAmong(s, names) == (set n | n in Bindings(s.entries) && !Unfragmented(s, n));
  }

  /** The test of one file. */
  method Inspect(dir: Dir, name: Name) returns (fragmentable: bool, fragmented: bool)
    requires dir.Valid() && dir.inode == ROOT_DIR_SECTOR && Linked(dir.State())
    requires name in Bindings(dir.State().entries) && !Special(name)
    modifies dir.fs.vol.cache`clock, dir.fs.vol.cache.device, dir.fs.vol.cache.slots
    ensures dir.Valid() && dir.State() == old(dir.State())
    ensures fragmentable == Fragmentable(dir.State(), name) && fragmented == !Unfragmented(dir.State(), name)
  {
    hide Dir.Valid, Dir.State, FileSystem.Inv, FileSystem.Data, Bindings, Linked, ContentsBy, InOrder, DataOf;
    ghost var s := dir.State();
    NamesAreBound(s);
    var found, sector := Open(dir, name);
    dir.EntriesFormed();
    PlainFile(dir, name);
    fragmentable, fragmented := InspectAt(dir, sector);
  }

  method InspectAt(dir: Dir, sector: nat) returns (fragmentable: bool, fragmented: bool)
    requires dir.Valid() && sector in dir.fs.files && sector in dir.State().data
    modifies dir.fs.vol.cache`clock, dir.fs.vol.cache.device, dir.fs.vol.cache.slots
    ensures dir.Valid() && dir.State() == old(dir.State())
    ensures var s := old(dir.State());
            var own, n := s.files[sector].own, Sectors(|s.data[sector]|);
            |own| == Total(n) && fragmentable == (n > 1) && fragmented == !InOrder(DataOf(own, n))
  {
    hide FileSystem.Inv, FileSystem.Data, WellFormed, Slots, InOrder, DataOf, Collected;
    FileFacts(dir.fs, sector);
    var all := dir.fs.DataSectors(sector);
    CollectedIsDataOf(all[..], dir.fs.files[sector].own);
    fragmentable := all.Length > 1;
    fragmented := Test(dir, all);
  }

  method Test(dir: Dir, sectors: array<nat>) returns (fragmented: bool)
    requires dir.Valid() && forall i :: 0 <= i < sectors.Length ==> 0 < sectors[i] < 0xFFFF_FFFE
    ensures dir.Valid() && dir.State() == old(dir.State()) && fragmented == !InOrder(sectors[..])
  {
    hide Dir.Valid, Fragmented, InOrder;
    InSteps(sectors[..]);
    ghost var repr := dir.fs.vol.Repr();
    fragmented := IsFragmented(sectors);
    assert forall o :: o in repr ==> old(allocated(o));
  }

  lemma CollectedIsDataOf(sectors: seq<nat>, own: seq<nat>)
    requires Collected(sectors, |sectors|, own) && |own| == Total(|sectors|)
    ensures sectors == DataOf(own, |sectors|)
    ensures (forall r :: 0 <= r < |own| ==> 0 < own[r] < 0xFFFF_FFFE) ==>
              forall i :: 0 <= i < |sectors| ==> 0 < sectors[i] < 0xFFFF_FFFE
  {
    forall i | 0 <= i < |sectors|
      ensures sectors[i] == DataOf(own, |sectors|)[i] && DataPos(i) < |own| && sectors[i] == own[DataPos(i)]
    {
      DataPosBelowTotal(i, |sectors|);
    }
  }

  /** fragmentation_degree, on a freshly opened root directory. */
  method FragmentationDegree(dir: Dir) returns (fragmentable: nat, fragmented: nat)
    requires dir.Valid() && dir.inode == ROOT_DIR_SECTOR && Linked(dir.State()) && dir.pos == ENTRY_BYTES
    requires Ordinary(dir.State())
    modifies dir`pos, dir.fs.vol.cache`clock, dir.fs.vol.cache.device, dir.fs.vol.cache.slots
    ensures dir.Valid() && dir.State() == old(dir.State()) && |dir.State().entries| > 0
    ensures fragmentable == |set n | n in Named(dir.State()) && |Named(dir.State())[n]| > 512|
    ensures fragmented == |set n | n in Bindings(dir.State().entries) && !Unfragmented(dir.State(), n)|
  {
    hide Dir.Valid, Dir.State, Listing, Linked, Bindings, Named, Special, WellFormed, Ahead, Ordinary, Fragmentable,
      Unfragmented, CountFragmentable, CountFragmented;
    ghost var s, names := dir.State(), [];
    SomeEntries(s);
    fragmentable, fragmented := 0, 0;
    ghost var k := 1;
    var more, name;
    more, name, k := dir.ReadDir(k);
    assert names + Listing(s.entries, 1) == Listing(s.entries, 1);
    ReadOn(s, names, 1, more, name, k);
    while more
      invariant dir.Valid() && dir.State() == s && k <= |s.entries| && dir.pos == ENTRY_BYTES * k
      invariant Ahead(s, names, more, name, k)
      invariant fragmentable == CountFragmentable(s, names) && fragmented == CountFragmented(s, names)
      decreases |s.entries| - k, more
    {
      Listed(s, names, name, k);
      OrdinaryName(s, name);
      var two, apart := Inspect(dir, name);
      CountNext(s, names, name);
      fragmentable := fragmentable + if two then 1 else 0;
      fragmented := fragmented + if apart then 1 else 0;
      names := names + [name];
      ghost var was := k;
      more, name, k := dir.ReadDir(k);
      ReadOn(s, names, was, more, name, k);
    }
    AllRead(s, names, name, k);
    CountsOfAll(s);
  }

  /** The second count is zero exactly when no file is fragmented. */
  lemma NoneCounted(s: DirState)
    requires |s.entries| > 0
    ensures |set n | n in Bindings(s.entries) && !Unfragmented(s, n)| == 0 <==>
            forall n :: n in Bindings(s.entries) ==> Unfragmented(s, n)
  {
    hide Bindings, Unfragmented;
    var fragmented := set n | n in Bindings(s.entries) && !Unfragmented(s, n);
    forall n | n in Bindings(s.entries) && !Unfragmented(s, n) ensures fragmented != {} {
      assert n in fragmented;
    }
  }

  lemma SomeEntries(s: DirState)
    requires Linked(s)
    ensures |s.entries| > 0 && CountFragmentable(s, []) == 0 && CountFragmented(s, []) == 0
  {
  }
}
