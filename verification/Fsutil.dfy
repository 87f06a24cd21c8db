/** Reading and rewriting whole files by name (fsutil.c). */
module Fsutil {
  import opened Sector
  import opened Geometry
  import opened FileBytes
  import opened Reserve
  import opened Files
  import opened FileTable
  import opened MapFile
  import opened FileSystem
  import opened Directory
  import opened Sorting
  import opened Dirs
  import opened Filesys
  import opened OpenFiles

  /** fsutil_size, fsutil_seek and fsutil_read of a whole file. */
  method ReadWhole(dir: Dir, name: Name) returns (contents: seq<byte>)
    requires dir.Valid() && dir.inode == ROOT_DIR_SECTOR && Linked(dir.State())
    requires name in Bindings(dir.State().entries) && !Special(name)
    modifies dir.fs.vol.cache`clock, dir.fs.vol.cache.device, dir.fs.vol.cache.slots
    ensures dir.Valid() && dir.State() == old(dir.State())
    ensures name in Named(dir.State()) && contents == Named(dir.State())[name]
  {
    hide FileSystem.Inv, FileSystem.Data, FileSystem.NoLeaks, WellFormed, Slots, Bindings, Linked, ContentsBy;
    var found, sector := Open(dir, name);
    PlainFile(dir, name);
    var size := dir.fs.Length(sector);
    var buffer := dir.NewBuffer(size + 1);
    var f := OpenAt(dir, sector);
    var bytesRead := f.Read(buffer, size);
    contents := buffer[..size];
  }

  /** file_open of a file found in the directory. */
  method OpenAt(dir: Dir, sector: nat) returns (f: File)
    requires dir.Valid()
    ensures dir.Valid() && dir.State() == old(dir.State())
    ensures fresh(f) && f.fs == dir.fs && f.inode == sector && f.pos == 0
  {
    hide Dir.Valid;
    f := new File(dir.fs, sector);
    assert f as object !in dir.fs.vol.Repr();
  }

  /** fsutil_seek. */
  method SeekTo(dir: Dir, f: File, pos: nat)
    requires dir.Valid()
    modifies f
    ensures dir.Valid() && dir.State() == old(dir.State()) && f.pos == pos
  {
    hide Dir.Valid;
    assert f as object !in dir.fs.vol.Repr();
    f.Seek(pos);
  }

  /** The contents of one named file have been replaced in place. */
  ghost predicate Rewrites(s: DirState, t: DirState, name: Name, bytes: seq<byte>) {
    && Linked(s) && Linked(t) && name in Bindings(s.entries) && Named(t) == Named(s)[name := bytes]
    && t.entries == s.entries && t.free == s.free && Keeps(s, t) && t.files.Keys == s.files.Keys
    && (forall f :: f in s.files ==> t.files[f].own == s.files[f].own)
  }

  lemma WrittenInPlace(s: DirState, t: DirState, name: Name, bytes: seq<byte>)
    requires Linked(s) && name in Bindings(s.entries) && Overwrites(s, t, SectorOf(s, name), bytes)
    ensures Rewrites(s, t, name, bytes)
  {
    hide Bindings, WellFormed, ContentsBy, Bound;
    BoundUpdate(Bindings(s.entries), s.files, t.files, SectorOf(s, name));
    NamedAfterWrite(Bindings(s.entries), s.files, s.data, t.data, name, bytes);
  }

  lemma BoundUpdate(b: map<Name, nat>, files: Table, files': Table, sector: nat)
    requires Bound(b, files) && sector in files && sector in files' && files' == files[sector := files'[sector]]
    requires files'[sector].d.isDir == files[sector].d.isDir
    ensures Bound(b, files')
  {
  }

  lemma NamedAfterWrite(b: map<Name, nat>, files: Table, data: map<nat, seq<byte>>, data': map<nat, seq<byte>>,
      name: Name, bytes: seq<byte>)
    requires Bound(b, files) && name in b && files.Keys == data.Keys && data' == data[b[name] := bytes]
    ensures ContentsBy(b, data') == ContentsBy(b, data)[name := bytes] && b[name] != ROOT_DIR_SECTOR
  {
  }

  /** Writing `buf` over `data` from its start replaces every byte and needs no further sector. */
  predicate Covers(buf: seq<byte>, data: seq<byte>) {
    |data| <= |buf| && 0 < |buf| && Sectors(|buf|) == Sectors(|data|)
  }

  /** A write that replaces all of a file's bytes leaves its tree and the free sectors as they are. */
  lemma WriteAll(data: seq<byte>, buf: seq<byte>, own: seq<nat>, grown: seq<nat>, free: seq<nat>, left: seq<nat>)
    requires |data| <= |buf| && 0 < |buf| && Sectors(|buf|) == Sectors(|data|) <= CAPACITY
    requires |own| == Total(Sectors(|data|))
    ensures CaseOf(false, |data|, 0, |buf|, |own|, |free|) == Splices && Splice(data, 0, buf) == buf
    ensures |grown| == |own| && grown + left == own + free ==> grown == own && left == free
  {
    if |grown| == |own| && grown + left == own + free {
      assert (own + free)[..|own|] == own && (grown + left)[..|own|] == grown;
      assert (own + free)[|own|..] == free && (grown + left)[|own|..] == left;
    }
  }

  /** fsutil_write and fsutil_seek of a file created with the size of `contents`. */
  method Rewrite(dir: Dir, name: Name, contents: seq<byte>)
    requires dir.Valid() && dir.inode == ROOT_DIR_SECTOR && Linked(dir.State())
    requires name in Named(dir.State()) && !Special(name) && Covers(contents, Named(dir.State())[name])
    modifies dir.fs, dir.fs.vol.Repr()
    ensures dir.Valid() && Rewrites(old(dir.State()), dir.State(), name, Sealed(contents))
  {
    hide Dir.Valid, Dir.State, FileSystem.Inv, FileSystem.Data, Bindings, Linked, Rewrites, Sealed, WellFormed;
    ghost var s := dir.State();
    dir.EntriesFormed();
    NamesAreBound(s);
    var found, sector := Open(dir, name);
    PlainFile(dir, name);
    dir.EntriesFormed();
    var f := OpenAt(dir, sector);
    dir.EntriesFormed();
    WriteFrom(dir, f, contents);
    dir.EntriesFormed();
    WrittenInPlace(s, dir.State(), name, Sealed(contents));
    f.Seek(0);
  }

  /** The file at `sector` holds `bytes`; it may have taken sectors off the front of the free list. */
  ghost predicate WritesTo(s: DirState, t: DirState, sector: nat, bytes: seq<byte>) {
    && t.entries == s.entries && Keeps(s, t)
    && sector in s.files && sector in t.files && t.files == s.files[sector := t.files[sector]]
    && t.data == s.data[sector := bytes] && t.files[sector].d.isDir == s.files[sector].d.isDir
    && t.files[sector].own + t.free == s.files[sector].own + s.free
  }

  /** The contents of the file at `sector` have been replaced in place. */
  ghost predicate Overwrites(s: DirState, t: DirState, sector: nat, bytes: seq<byte>) {
    WritesTo(s, t, sector, bytes) && t.free == s.free && t.files[sector].own == s.files[sector].own
  }

  /** Whether a write of `size` bytes at `ofs` takes place in full. */
  ghost predicate HasRoom(s: DirState, sector: nat, ofs: nat, size: nat) {
    && sector in s.files && sector in s.data
    && CaseOf(false, |s.data[sector]|, ofs, size, |s.files[sector].own|, |s.free|) == Splices
  }

  /** A write that found no room: no file has changed, but the one written to is left half grown when
      more than one data sector was missing. */
  ghost predicate WriteFails(s: DirState, t: DirState, sector: nat, length: nat)
    requires sector in s.files
  {
    var lost := if Nearly(length, |s.files[sector].own|) then {} else {sector};
    t.entries == s.entries && t.mapOwn == s.mapOwn && t.files == s.files - lost && t.data == s.data - lost
  }

  /** file_write on an open file. */
  method WriteOpen(dir: Dir, f: File, buf: seq<byte>) returns (written: nat)
    requires dir.Valid() && f.fs == dir.fs && f.inode in dir.fs.files && f.inode != dir.inode
    requires 0 <= f.pos && 0 < |buf| && f.pos + |buf| <= OFFSET_LIMIT
    modifies f, dir.fs, dir.fs.vol.Repr()
    ensures var s, done := old(dir.State()), HasRoom(old(dir.State()), f.inode, old(f.pos), |buf|);
            && dir.Valid() && written == (if done then |buf| else 0) && f.pos == old(f.pos) + written - 2
            && f.inode in s.data && f.inode in s.files
            && (done ==> WritesTo(s, dir.State(), f.inode, Splice(s.data[f.inode], old(f.pos), Sealed(buf))))
            && (!done ==> WriteFails(s, dir.State(), f.inode, old(f.pos) + |buf|))
  {
    hide FileSystem.Inv, FileSystem.Data, FileSystem.NoLeaks, FileSystem.FreeSectors, MapInodeOnDisk, WellFormed,
      Slots, Splice, Sealed, CaseOf, Nearly, SectorsLeft, Wipes;
    FileFacts(dir.fs, f.inode);
    var buffer := BufferOf(dir, buf);
    assert buffer[..|buf|] == buf;
    written := f.Write(buffer, |buf|);
  }

  /** file_write of all of a file's bytes, from its start. */
  method WriteFrom(dir: Dir, f: File, contents: seq<byte>)
    requires dir.Valid() && f.fs == dir.fs && f.inode in dir.fs.files && f.inode != dir.inode && f.pos == 0
    requires f.inode in dir.fs.Data() && Covers(contents, dir.fs.Data()[f.inode])
    modifies f, dir.fs, dir.fs.vol.Repr()
    ensures dir.Valid() && Overwrites(old(dir.State()), dir.State(), f.inode, Sealed(contents))
  {
    hide Dir.Valid, Dir.State, FileSystem.Inv, FileSystem.Data, Splice, Sealed, Sectors, Total;
    ghost var s := dir.State();
    dir.EntriesFormed();
    FileFacts(dir.fs, f.inode);
    WriteAll(s.data[f.inode], Sealed(contents), s.files[f.inode].own, s.files[f.inode].own, s.free, s.free);
    LengthInRange(contents);
    var written := WriteOpen(dir, f, contents);
    ghost var t := dir.State();
    dir.EntriesFormed();
    FileFacts(dir.fs, f.inode);
    WriteAll(s.data[f.inode], Sealed(contents), s.files[f.inode].own, t.files[f.inode].own, s.free, t.free);
  }

  lemma LengthInRange(data: seq<byte>)
    requires Sectors(|data|) <= CAPACITY
    ensures |data| <= OFFSET_LIMIT
  {
  }

  method BufferOf(dir: Dir, contents: seq<byte>) returns (buffer: array<byte>)
    requires dir.Valid()
    ensures dir.Valid() && dir.State() == old(dir.State())
    ensures fresh(buffer) && buffer[..] == contents && buffer as object !in dir.fs.vol.Repr()
  {
    hide Dir.Valid;
    buffer := new byte[|contents|](i requires 0 <= i < |contents| => contents[i]);
    assert buffer as object !in dir.fs.vol.Repr();
  }

  /** No file is called "." or "..", and no name has a slash. */
  ghost predicate Ordinary(s: DirState) {
    |s.entries| > 0 && forall n :: n in Bindings(s.entries) ==> !Special(n)
  }

  lemma OrdinaryName(s: DirState, name: Name)
    requires Ordinary(s) && name in Bindings(s.entries)
    ensures !Special(name)
  {
  }

  /** What dir_readdir has returned, and the name it returned last, if any, lead up to slot `k`. */
  ghost predicate Ahead(s: DirState, names: seq<Name>, more: bool, name: Name, k: nat) {
    && 1 <= k <= |s.entries|
    && names + (if more then [name] + Listing(s.entries, k) else []) == Listing(s.entries, 1)
  }

  lemma Listed(s: DirState, names: seq<Name>, name: Name, k: nat)
    requires Linked(s) && Ahead(s, names, true, name, k)
    ensures name in Bindings(s.entries) && names + [name] + Listing(s.entries, k) == Listing(s.entries, 1)
  {
    hide Bindings;
    ListingExact(s.entries);
    assert Listing(s.entries, 1)[|names|] == name;
    Associates(names, [name], Listing(s.entries, k));
  }

  lemma ReadOn(s: DirState, names: seq<Name>, k: nat, more: bool, name: Name, next: nat)
    requires k <= next <= |s.entries| && 1 <= next && names + Listing(s.entries, k) == Listing(s.entries, 1)
    requires Listing(s.entries, k) == if more then [name] + Listing(s.entries, next) else []
    ensures Ahead(s, names, more, name, next)
  {
  }

  lemma AllRead(s: DirState, names: seq<Name>, name: Name, k: nat)
    requires Ahead(s, names, false, name, k)
    ensures names == Listing(s.entries, 1)
  {
  }
}
