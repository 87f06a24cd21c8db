/** A run that scatters a file, and what defragment makes of it. */
module Scatter {
  import opened Sector
  import opened Geometry
  import opened FileBytes
  import opened Bitmap
  import opened Files
  import opened MapFile
  import opened FileSystem
  import opened Directory
  import opened Dirs
  import opened Filesys
  import opened OpenFiles
  import opened Fsutil
  import opened Space
  import opened Fragmentation
  import opened Defrag
  import opened Format
  import opened Sessions
  import opened Lifecycle

  const A: Name := [97]
  const B: Name := [98]

  /** On a fresh disk one file has been created with a byte, then another with two sectors. */
  ghost predicate TwoMade(s: DirState, t: DirState, u: DirState) {
    && |s.entries| > 0 && Holes(s.entries) >= 2 && 6 <= |s.free| && CountsUp(s.free) && Named(s) == map[]
    && Creates(s, t, A, 1) && Creates(t, u, B, 513)
  }

  /** A file without index blocks. */
  lemma FewSectors(length: nat, n: nat)
    requires 0 < n <= DIRECT_BLOCKS_COUNT && SECTOR_SIZE * (n - 1) < length <= SECTOR_SIZE * n
    ensures Sectors(length) == n && Total(n) == n && CreationCost(length) == n + 1
  {
  }

  lemma Costs()
    ensures Sectors(1) == 1 && Sectors(513) == 2 && CreationCost(1) == 2 && CreationCost(513) == 3 && Total(2) == 2
  {
    hide Sectors, Total, CreationCost;
    FewSectors(1, 1);
    FewSectors(513, 2);
  }

  /** A file created where the directory has an empty slot takes the first free sectors. */
  lemma Place(s: DirState, t: DirState, name: Name, length: nat, cost: nat)
    requires Creates(s, t, name, length) && Holes(s.entries) > 0 && CreationCost(length) == cost
    ensures |t.entries| > 0 && Holes(t.entries) == Holes(s.entries) - 1 && name in Bindings(t.entries)
    ensures SectorOf(t, name) in t.files && cost <= |s.free|
    ensures [SectorOf(t, name)] + t.files[SectorOf(t, name)].own == s.free[..cost] && t.free == s.free[cost..]
    ensures |s.entries| > 0 && Named(t) == Named(s)[name := Zeros(length)] && Keeps(s, t) && SameRoot(s, t)
    ensures OthersStay(s, t, name)
  {
    hide Bindings, Bound, ContentsBy, CreationCost, Padded, Put, Holes, Zeros, OthersStay;
    HoleIsFreeSlot(s.entries);
  }

  /** Where the two files are: the second right after the first. */
  lemma Places(s: DirState, t: DirState, u: DirState)
    requires TwoMade(s, t, u)
    ensures |u.entries| > 0 && A in Bindings(u.entries) && B in Bindings(u.entries)
    ensures SectorOf(u, A) in u.files && SectorOf(u, B) in u.files && SectorOf(u, A) != SectorOf(u, B)
    ensures [SectorOf(u, A)] + u.files[SectorOf(u, A)].own == s.free[..2]
    ensures [SectorOf(u, B)] + u.files[SectorOf(u, B)].own == s.free[2..5] && u.free == s.free[5..]
    ensures Named(u) == map[A := Zeros(1), B := Zeros(513)] && Keeps(s, u) && SameRoot(s, u)
  {
    hide Creates, Bindings, ContentsBy, CreationCost, Zeros, CountsUp, Holes, Named, OthersStay, SectorOf;
    Costs();
    Place(s, t, A, 1, 2);
    Place(t, u, B, 513, 3);
    Stays(t, u, A, B);
    Apart(s.free);
    First(SectorOf(u, A), u.files[SectorOf(u, A)].own, s.free[..2]);
    First(SectorOf(u, B), u.files[SectorOf(u, B)].own, s.free[2..5]);
    assert map[A := Zeros(1)][B := Zeros(513)] == map[A := Zeros(1), B := Zeros(513)];
  }

  lemma Stays(t: DirState, u: DirState, name: Name, other: Name)
    requires OthersStay(t, u, other) && name != other && name in Bindings(t.entries)
    ensures name in Bindings(u.entries) && SectorOf(u, name) == SectorOf(t, name)
    ensures SectorOf(t, name) in t.files && SectorOf(t, name) in u.files
    ensures u.files[SectorOf(t, name)] == t.files[SectorOf(t, name)]
  {
    hide Bindings;
  }

  lemma First(x: nat, rest: seq<nat>, s: seq<nat>)
    requires [x] + rest == s
    ensures s != [] && s[0] == x
  {
  }

  lemma Apart(free: seq<nat>)
    requires CountsUp(free) && 6 <= |free|
    ensures free[..2][0] != free[2..5][0] && free[2..][..3] == free[2..5] && free[2..][3..] == free[5..]
  {
    assert free[2] == free[0] + 2;
  }

  lemma FirstPlaces(own: seq<nat>)
    requires |own| == 2
    ensures Total(2) == 2 && DataOf(own, 2) == own
    ensures InOrder(own) <==> own[0] <= own[1] <= own[0] + 3
  {
  }

  /** Writing to the second sector of the first file puts that sector past the second file. */
  lemma Scattered(s: DirState, t: DirState, u: DirState, v: DirState)
    requires TwoMade(s, t, u) && Updates(u, v, A, Zeros(513)) && Sized(v)
    ensures Linked(v) && |v.entries| > 0 && Named(v) == map[A := Zeros(513), B := Zeros(513)]
    ensures Keeps(s, v) && SameRoot(s, v)
    ensures !Unfragmented(v, A) && Unfragmented(v, B)
  {
    hide Bindings, WellFormed, Bound, ContentsBy, CreationCost, Sectors, Total, InOrder, DataOf, Creates, CountsUp,
      Holes, Zeros;
    Costs();
    Places(s, t, u);
    NamesAreBound(v);
    var a, b := SectorOf(u, A), SectorOf(u, B);
    Contents(v, A);
    Contents(v, B);
    var own, free := v.files[a].own, s.free;
    assert |own| == 2 && own + v.free == u.files[a].own + u.free;
    assert own[0] == (own + v.free)[0] == u.files[a].own[0] == ([a] + u.files[a].own)[1] == free[..2][1] == free[1];
    assert own[1] == (own + v.free)[1] == u.free[0] == free[5];
    assert v.files[b].own[0] == ([b] + u.files[b].own)[1] == free[2..5][1] == free[3];
    assert v.files[b].own[1] == ([b] + u.files[b].own)[2] == free[2..5][2] == free[4];
    FirstPlaces(own);
    FirstPlaces(v.files[b].own);
    Consecutive(free);
  }

  lemma Consecutive(free: seq<nat>)
    requires CountsUp(free) && 6 <= |free|
    ensures free[5] == free[1] + 4 && free[4] == free[3] + 1
  {
  }

  lemma Contents(v: DirState, name: Name)
    requires Linked(v) && Sized(v) && name in Named(v) && |Named(v)[name]| == 513
    ensures name in Bindings(v.entries) && SectorOf(v, name) in v.files && SectorOf(v, name) in v.data
    ensures |v.data[SectorOf(v, name)]| == 513 && |v.files[SectorOf(v, name)].own| == 2
  {
    hide Bindings, WellFormed, Sectors, Total, CreationCost;
    Costs();
    NamesAreBound(v);
  }

  lemma FreshIsConsecutive(s: DirState, n: nat)
    requires ROOT_DIR_SECTOR in s.files && s.mapOwn + (s.files[ROOT_DIR_SECTOR].own + s.free) == Upward(2, n)
    ensures CountsUp(s.free)
  {
    var own := s.files[ROOT_DIR_SECTOR].own;
    UpwardSplit(2, n, s.mapOwn, own + s.free);
    UpwardSplit(2 + |s.mapOwn|, n - |s.mapOwn|, own, s.free);
  }

  lemma FirstFits(s: DirState)
    requires Linked(s) && Holes(s.entries) >= 2 && 6 <= |s.free| && Named(s) == map[]
    ensures Creatable(s, A, 1)
  {
    hide WellFormed, Bindings, Bound, ContentsBy, CreationCost, Total;
    Costs();
    HoleIsFreeSlot(s.entries);
    NamesAreBound(s);
    assert A !in Named(s);
  }

  lemma SecondFits(s: DirState, t: DirState)
    requires |s.entries| > 0 && Named(s) == map[]
    requires Holes(s.entries) >= 2 && 6 <= |s.free| && Creates(s, t, A, 1)
    ensures Linked(t) && Creatable(t, B, 513)
  {
    hide WellFormed, Bindings, Bound, ContentsBy, CreationCost, Total, Padded;
    Costs();
    HoleIsFreeSlot(s.entries);
    HoleIsFreeSlot(t.entries);
    NamesAreBound(t);
    assert B !in Named(t);
  }

  lemma ThirdFits(s: DirState, t: DirState, u: DirState)
    requires TwoMade(s, t, u) && Sized(u)
    ensures Linked(u) && |u.entries| > 0 && A in Bindings(u.entries) && Writable(u, A, 512, 1)
    ensures A in Named(u) && Splice(Named(u)[A], 512, [0]) == Zeros(513)
  {
    hide WellFormed, Bindings, Bound, ContentsBy, CreationCost, Total, Sectors, Writable, CountsUp, Holes, Padded,
      FreeSlot;
    Costs();
    Places(s, t, u);
    WritableIsAffordable(u, A, 512, 1);
  }

  /** Before: on every disk with room for it, a run of two creations and a write after which
      fragmentation_degree counts one file of two. */
  method ScatterFile(device: array<Block>) returns (dir: Dir)
    requires 3 <= device.Length <= BITMAP_ERROR && Formattable(device.Length) && Fresh(device.Length).free >= 6
    modifies device
    ensures fresh(dir) && fresh(dir.fs) && fresh(dir.fs.vol.Repr() - {device})
    ensures dir.Valid() && dir.inode == ROOT_DIR_SECTOR && dir.pos == ENTRY_BYTES && Linked(dir.State())
    ensures |dir.State().entries| > 0 && Named(dir.State()) == map[A := Zeros(513), B := Zeros(513)]
    ensures !Unfragmented(dir.State(), A) && Unfragmented(dir.State(), B)
    ensures dir.State().tidy && BasePacked(dir.State())
  {
    hide Dir.Valid, Dir.State, Linked, Named, Bindings, BasePacked, Formattable, Creatable, Creates, Updates, Writable,
      CountsUp, Holes, Unfragmented, Zeros, Sized, FileSystem.Inv, Upward, Total, MapBytes;
    var ok, root := Format.Format(device);
    ghost var s := root.State();
    FreshIsConsecutive(s, device.Length - 3);
    FreshAccount(s, device.Length);
    FirstFits(s);
    var made := Create(root, A, 1);
    ghost var t := root.State();
    SecondFits(s, t);
    made := Create(root, B, 513);
    ghost var u := root.State();
    StateSized(root);
    ThirdFits(s, t, u);
    var written := WriteNamedAt(root, A, 512, [0]);
    StateSized(root);
    Scattered(s, t, u, root.State());
    StillPacked(s, root.State());
    dir := root;
  }

  /** What fragmentation_degree counts there, and what every file of the two then has. */
  lemma Counted(s: DirState)
    requires Linked(s) && |s.entries| > 0 && Named(s) == map[A := Zeros(513), B := Zeros(513)]
    ensures Ordinary(s) && (forall n :: n in Named(s) ==> Named(s)[n] != [] && Terminated(Named(s)[n]))
    ensures |set n | n in Named(s) && |Named(s)[n]| > 512| == 2
    ensures !Unfragmented(s, A) && Unfragmented(s, B) ==>
              |set n | n in Bindings(s.entries) && !Unfragmented(s, n)| == 1
  {
    hide WellFormed, Bindings, Bound, ContentsBy, Unfragmented;
    NamesAreBound(s);
    assert forall n :: n in Bindings(s.entries) <==> n == A || n == B;
    assert Zeros(513)[512] == 0;
    assert (set n | n in Named(s) && |Named(s)[n]| > 512) == {A, B};
    if !Unfragmented(s, A) && Unfragmented(s, B) {
      assert (set n | n in Bindings(s.entries) && !Unfragmented(s, n)) == {A};
    }
  }

  /** On every disk with room for it, that run leaves two files of more than a sector, one of them
      fragmented; defragmenting leaves none fragmented and loses nothing. */
  method ScatterAndDefragment(device: array<Block>)
    returns (dir: Dir, fragmentable: nat, before: nat, after: nat)
    requires 3 <= device.Length <= BITMAP_ERROR && Formattable(device.Length) && Fresh(device.Length).free >= 6
    modifies device
    ensures fragmentable == 2 && before == 1 && after == 0
    ensures dir.Valid() && Linked(dir.State()) && |dir.State().entries| > 0
    ensures Named(dir.State()) == map[A := Zeros(513), B := Zeros(513)]
  {
    hide Dir.Valid, Dir.State, Linked, Named, Bindings, BasePacked, Formattable, Fresh, Unfragmented, Zeros, Ordinary,
      Terminated, Resealed, InListedOrder, CountsUp;
    dir := ScatterFile(device);
    ghost var s := dir.State();
    Counted(s);
    fragmentable, before := FragmentationDegree(dir);
    dir := OpenRoot(dir);
    Defragment(dir);
    Counted(dir.State());
    dir := OpenRoot(dir);
    NoneCounted(dir.State());
    fragmentable, after := FragmentationDegree(dir);
  }
}
