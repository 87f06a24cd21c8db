/** copy_in (fsutil2.c): as much of a host file as the disk has room for becomes a file. */
module CopyIn {
  import opened Sector
  import opened Geometry
  import opened FileBytes
  import opened Files
  import opened FileSystem
  import opened Directory
  import opened Dirs
  import opened Filesys
  import opened OpenFiles
  import opened Fsutil
  import opened Sessions
  import opened Space

  /** What is stored of `input`: `count` bytes, zeros where the input has none left, and a NUL. */
  function Image(input: seq<byte>, count: nat): (image: seq<byte>)
    ensures |image| == count + 1 && image[count] == 0
  {
    seq(count + 1, i requires 0 <= i < count + 1 => if i < count && i < |input| then input[i] else 0)
  }

  /** That is all of `input` and a NUL, two when the NUL starts a sector, if there is room for
      `most` data sectors and these hold input and NUL; else as many bytes as fit, and a NUL. */
  ghost function Copied(input: seq<byte>, most: nat): (bytes: seq<byte>)
    requires most > 0
    ensures bytes != []
  {
    if Sectors(|input| + 1) <= most then input + (if |input| % 512 == 0 then [0, 0] else [0])
    else input[..512 * most - 1] + [0]
  }

  lemma ImageIsCopied(input: seq<byte>, free: nat, most: nat)
    requires free >= 2 && MostSectors(most, free)
    ensures CopyInSize(|input|, free) > 0 && most > 0
    ensures Image(input, CopyInSize(|input|, free)) == Copied(input, most)
  {
    hide MostSectors, CopyableSize;
    var asked := if |input| % SECTOR_SIZE == 0 then |input| + 1 else |input|;
    CopyableIsOptimal(asked, free, most);
    assert |input| % SECTOR_SIZE != 0 ==> Sectors(|input| + 1) == Sectors(|input|);
    var image, copied := Image(input, CopyInSize(|input|, free)), Copied(input, most);
    assert |image| == |copied|;
    assert forall i :: 0 <= i < |image| ==> image[i] == copied[i];
  }

  /** num_free_sectors. */
  method FreeCount(dir: Dir) returns (n: nat)
    requires dir.Valid()
    ensures n == |dir.State().free|
  {
    hide FileSystem.Data, FileSystem.NoLeaks, Slots;
    n := dir.fs.vol.NumFreeSectors();
  }

  datatype CopyResult =
    | NoSpace      // returns 2: nothing can be stored
    | Stored       // the file has been created and written
    | Overwritten  // a file of that name existed; the bytes were written to it, or found no room
    | NoFile       // the file was not created, so there is no open file for the final seek

  /** What copy_in leaves when it stores `bytes`; `mid` is the state after the attempt to create the file. */
  ghost predicate Leaves(s: DirState, mid: DirState, t: DirState, r: CopyResult, name: Name, pos: nat, bytes: seq<byte>)
    requires bytes != [] && |s.entries| > 0
  {
    && (r == Stored <==> Creatable(s, name, |bytes| - 1)) && (r == Overwritten <==> name in Bindings(s.entries))
    && (r == Stored ==> CopiesIn(s, t, name, bytes))
    && (r == Overwritten ==>
          && SameFiles(s, mid) && |mid.free| == |s.free| - Total(Sectors(|bytes| - 1)) && name in Named(s)
          && if Writable(mid, name, pos, |bytes|) then Updates(mid, t, name, Splice(Named(s)[name], pos, bytes))
             else Misses(mid, t, name, pos + |bytes|))
    && (r == NoFile ==> SameFiles(s, t))
  }

  /** copy_in, given the host file's bytes and, should a file of that name be open, its position.
      The results of creating and writing are ignored, as the source ignores them. */
  method CopyIn(dir: Dir, name: Name, input: seq<byte>, pos: nat)
    returns (r: CopyResult, ghost mid: DirState, ghost most: nat)
    requires dir.Valid() && dir.inode == ROOT_DIR_SECTOR && Linked(dir.State())
    requires IsString(name) && !Special(name) && |input| + 1 + pos < OFFSET_LIMIT
    modifies dir.fs, dir.fs.vol.Repr()
    ensures dir.Valid() && |old(dir.State()).entries| > 0 && (r == NoSpace <==> |old(dir.State()).free| <= 1)
    ensures r == NoSpace ==> dir.State() == old(dir.State())
    ensures r != NoSpace ==> most > 0 && MostSectors(most, |old(dir.State()).free|)
    ensures r != NoSpace ==> Leaves(old(dir.State()), mid, dir.State(), r, name, pos, Copied(input, most))
  {
    hide Dir.Valid, Dir.State, Linked, CopyInSize, CreationCost, Image, Copied, MostSectors, Leaves, Special, Sectors,
      IsString, Bindings, WellFormed, FileSystem.Inv, FileSystem.Data;
    ghost var s := dir.State();
    mid, most := s, 0;
    dir.EntriesFormed();
    var free := FreeCount(dir);
    var size := CopyInSize(|input|, free);
    if size <= 0 {
      SomethingFits(|input|, free);
      return NoSpace, mid, most;
    }
    most := MostThatFits(input, free);
    CopyInFits(|input|, free);
    r, mid := Store(dir, name, Image(input, size), pos);
  }

  /** copy_in once the size is known: `image` is what goes into the file, which is created one byte shorter. */
  method Store(dir: Dir, name: Name, image: seq<byte>, pos: nat) returns (r: CopyResult, ghost mid: DirState)
    requires dir.Valid() && dir.inode == ROOT_DIR_SECTOR && Linked(dir.State())
    requires IsString(name) && !Special(name) && |image| + pos <= OFFSET_LIMIT
    requires |image| > 1 && image[|image| - 1] == 0 && Sectors(|image|) == Sectors(|image| - 1) <= CAPACITY
    requires CreationCost(|image| - 1) <= |dir.State().free|
    modifies dir.fs, dir.fs.vol.Repr()
    ensures dir.Valid() && |old(dir.State()).entries| > 0 && r != NoSpace
    ensures Leaves(old(dir.State()), mid, dir.State(), r, name, pos, image)
  {
    hide Dir.Valid, Dir.State, Linked, Bindings, Named, WellFormed, Creates, Creatable, Rewrites, ValidName, Total,
      FileSystem.Inv, CreationCost, Sealed, CopiesIn, SameFiles, Updates, Writable, Splice, Sectors, Misses;
    ghost var s := dir.State();
    dir.EntriesFormed();
    LookupIsBinding(s.entries, name);
    SizeInRange(s, name, |image| - 1);
    SealedWhenTerminated(image);
    var created := Create(dir, name, |image| - 1);
    mid := dir.State();
    if created {
      ImageCovers(image);
      NewFileIsZeros(s, mid, name, |image| - 1);
      Rewrite(dir, name, image);
      RewrittenNew(s, mid, dir.State(), name, image);
      r := Stored;
    } else {
      SameBindings(s, mid);
      var known, _ := Open(dir, name);
      if known {
        var written := WriteNamed(dir, name, pos, image);
        r := Overwritten;
      } else {
        r := NoFile;
      }
    }
  }

  /** Something can be stored exactly with two free sectors or more. */
  lemma SomethingFits(size: nat, free: nat)
    ensures CopyInSize(size, free) > 0 <==> 2 <= free
  {
    hide CopyableSize, MostSectors;
    var asked := if size % SECTOR_SIZE == 0 then size + 1 else size;
    if free <= 1 {
      NothingCopyable(asked, free);
    } else {
      var most := BranchIsMost(free);
      CopyableIsOptimal(asked, free, most);
    }
  }

  lemma MostThatFits(input: seq<byte>, free: nat) returns (most: nat)
    requires CopyInSize(|input|, free) > 0
    ensures 2 <= free && most > 0 && MostSectors(most, free)
    ensures Image(input, CopyInSize(|input|, free)) == Copied(input, most)
  {
    hide CopyInSize, MostSectors, Image, Copied;
    SomethingFits(|input|, free);
    most := BranchIsMost(free);
    ImageIsCopied(input, free, most);
  }

  /** The file holds `bytes`, and the write that followed its creation took no further sector. */
  ghost predicate CopiesIn(s: DirState, t: DirState, name: Name, bytes: seq<byte>)
    requires bytes != []
  {
    var cost := CreationCost(|bytes| - 1);
    && Linked(s) && Linked(t) && Named(t) == Named(s)[name := bytes] && Keeps(s, t) && cost <= |s.free|
    && t.files[ROOT_DIR_SECTOR].own + t.free == s.files[ROOT_DIR_SECTOR].own + s.free[cost..]
    && (FreeSlot(s.entries, 0) < |s.entries| ==> t.free == s.free[cost..])
  }

  lemma SizeInRange(s: DirState, name: Name, length: nat)
    requires |s.entries| > 0 && Sectors(length) <= CAPACITY && CreationCost(length) <= |s.free|
    ensures length <= OFFSET_LIMIT && Makeable(s, length)
    ensures Refused(s, name) <==> !ValidName(name) || name in Bindings(s.entries)
    ensures Creatable(s, name, length) ==> ValidName(name) && name !in Bindings(s.entries)
  {
  }

  lemma SameBindings(s: DirState, t: DirState)
    requires Linked(s) && SameFiles(s, t)
    ensures Linked(t) && |s.entries| > 0 && Named(s) == Named(t) && Bindings(s.entries) == Bindings(t.entries)
  {
  }

  lemma ImageCovers(image: seq<byte>)
    requires |image| > 1 && Sectors(|image|) == Sectors(|image| - 1)
    ensures Covers(image, Zeros(|image| - 1))
  {
  }

  lemma NewFileIsZeros(s: DirState, t: DirState, name: Name, length: nat)
    requires Creates(s, t, name, length)
    ensures Linked(t) && |t.entries| > 0 && name in Named(t) && Named(t)[name] == Zeros(length)
  {
  }

  lemma RewrittenNew(s: DirState, t: DirState, u: DirState, name: Name, bytes: seq<byte>)
    requires bytes != [] && Creates(s, t, name, |bytes| - 1) && Rewrites(t, u, name, bytes)
    ensures CopiesIn(s, u, name, bytes)
  {
    hide Bindings, WellFormed, Bound, ContentsBy, Holes, OthersStay, CreationCost;
  }

  /** A directory without an empty slot whose last sector is full, and two free sectors: one byte
      is found to fit, yet the file cannot be created, for want of a sector for the directory. */
  lemma DirectoryMayNotGrow(s: DirState, name: Name)
    requires ROOT_DIR_SECTOR in s.files && |s.entries| == 1009 && FreeSlot(s.entries, 0) == 1009
    requires |s.files[ROOT_DIR_SECTOR].own| == Total(Sectors(ENTRY_BYTES * 1009)) && |s.free| == 2
    ensures CopyInSize(1, |s.free|) == 1 && Makeable(s, 1) && !Creatable(s, name, 1)
  {
    assert Sectors(ENTRY_BYTES * 1009) == 71 && Sectors(ENTRY_BYTES * 1009 + ENTRY_BYTES) == 72;
    assert Total(71) == 71 && Total(72) == 72;
  }
}
