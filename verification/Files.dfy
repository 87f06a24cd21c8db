/** Creating, extending, writing and removing one inode (inode_create, inode_write_at,
    inode_open, inode_close in inode.c). */
module Files {
  import opened Sector
  import opened Geometry
  import opened FreeList
  import opened BlockTree
  import opened FileBytes
  import opened InodeIO
  import opened Bitmap
  import opened Volume
  import opened Reserve
  import opened Release

  /** The largest byte offset for which rounding up to sectors stays within offset_t. */
  const OFFSET_LIMIT := INT32_MAX - SECTOR_SIZE + 1

  /** An inode at rest: its tree holds exactly the sectors its length calls for, its on-disk
      copy is current, and the bytes past its end in its last sector are zero. */
  ghost predicate FileOK(s: Snapshot, sector: nat, d: DiskInode, mapOwn: seq<nat>) {
    && Sound(s, mapOwn) && Stored(s.view, d, s.own)
    && d.magic == INODE_MAGIC && d.length <= INT32_MAX
    && sector < |s.bits| && s.bits[sector] && sector !in s.own && sector !in mapOwn
    && s.view[sector] == EncodeInode(d)
    && ZeroTail(s.view, s.own, d.length, Sectors(d.length))
  }

  /** `b` is the struct inode_disk of an inode that owns `own`, byte for byte. */
  ghost predicate InodeAt(b: Block, own: seq<nat>, isDir: bool, length: nat) {
    && (forall i :: 0 <= i < 123 ==> WordAt(b, 4 * i) == if i < |own| then own[i] else 0)
    && WordAt(b, 492) == (if 123 < |own| then own[123] else 0)
    && WordAt(b, 496) == (if 252 < |own| then own[252] else 0)
    && b[500] == (if isDir then 1 else 0) && b[501] == 0 && b[502] == 0 && b[503] == 0
    && WordAt(b, 504) == length && WordAt(b, 508) == 0x494e4f44
  }

  lemma WrittenInForm(view: seq<Block>, d: DiskInode, own: seq<nat>)
    requires Tree(view, d, own) && Encodable(d) && d.magic == INODE_MAGIC && 0 <= d.length
    ensures InodeAt(EncodeInode(d), own, d.isDir, d.length)
  {
    hide EncodeInode, WordAt, Children;
    InodeBytes(d);
  }

  /** An inode at rest is on the disk in that form. */
  lemma RestsInForm(s: Snapshot, sector: nat, d: DiskInode, mapOwn: seq<nat>)
    requires FileOK(s, sector, d, mapOwn)
    ensures 0 <= d.length && sector < |s.view| && InodeAt(s.view[sector], s.own, d.isDir, d.length)
    ensures IndexBlocksAt(s.view, s.own)
  {
    hide EncodeInode, InodeAt, Tree, IndexBlocksAt;
    TreeWords(s.view, d, s.own);
    FileEncodable(s, d, mapOwn);
    WrittenInForm(s.view, d, s.own);
  }

  lemma FileEncodable(s: Snapshot, d: DiskInode, mapOwn: seq<nat>)
    requires Sound(s, mapOwn) && Tree(s.view, d, s.own) && d.magic < WORD_LIMIT
    requires -INT32_MAX - 1 <= d.length <= INT32_MAX
    ensures Encodable(d)
  {
  }

  /** Everyone else's sectors are as before: those in use that are neither the inode's own,
      nor its on-disk copy, nor the free-map file's. */
  ghost predicate OthersKept(s: Snapshot, t: Snapshot, sector: nat, mapOwn: seq<nat>) {
    && |t.view| == |s.view| && |t.bits| == |s.bits|
    && (forall x :: 0 <= x < |s.bits| && x < |s.view| && s.bits[x] && x !in mapOwn && x !in s.own && x != sector ==>
          t.view[x] == s.view[x])
    && (forall x :: 0 <= x < |s.bits| && s.bits[x] ==> t.bits[x])
  }

  /** A tree that grows from `n` to `m` sectors keeps its bytes and gains zeros. */
  lemma GrowBytes(s: Snapshot, t: Snapshot, n: nat, m: nat, mapOwn: seq<nat>)
    requires Sound(s, mapOwn) && Advance(s, t, 0, ALL_POSITIONS, mapOwn)
    requires |s.own| == Total(n) && |t.own| == Total(m) && n <= m <= CAPACITY
    ensures forall p: nat :: p < SECTOR_SIZE * n ==> ByteAt(t.view, t.own, p) == ByteAt(s.view, s.own, p)
    ensures forall p: nat :: SECTOR_SIZE * n <= p < SECTOR_SIZE * m ==> ByteAt(t.view, t.own, p) == 0
  {
    GrownPrefix(s.bits, s.own, t.bits, t.own);
    forall p: nat | p < SECTOR_SIZE * n ensures ByteAt(t.view, t.own, p) == ByteAt(s.view, s.own, p) {
      var r := DataPos(p / SECTOR_SIZE);
      DataPosBelowTotal(p / SECTOR_SIZE, n);
      DataPosInverse(p / SECTOR_SIZE);
      assert !IndexBlock(s.own, 0, ALL_POSITIONS, s.own[r]);
    }
    forall p: nat | SECTOR_SIZE * n <= p < SECTOR_SIZE * m ensures ByteAt(t.view, t.own, p) == 0 {
      var r := DataPos(p / SECTOR_SIZE);
      DataPosBelowTotal(p / SECTOR_SIZE, n);
      DataPosBelowTotal(p / SECTOR_SIZE, m);
      DataPosInverse(p / SECTOR_SIZE);
      assert IsZeroed(t.view[t.own[r]]);
    }
  }

  lemma AdvanceOthers(s: Snapshot, t: Snapshot, sector: nat, mapOwn: seq<nat>)
    requires Sound(s, mapOwn) && Advance(s, t, 0, ALL_POSITIONS, mapOwn)
    ensures OthersKept(s, t, sector, mapOwn)
    ensures forall x :: 0 <= x < |s.bits| && s.bits[x] && x !in s.own ==> x !in t.own
  {
    GrownPrefix(s.bits, s.own, t.bits, t.own);
    GrownBits(s.bits, s.own, t.bits, t.own);
  }

  /** Writing an inode's own sector. */
  lemma StoreInode(s: Snapshot, sector: nat, b: Block, mapOwn: seq<nat>)
    requires Sound(s, mapOwn) && sector < |s.bits| && s.bits[sector] && sector !in s.own
    ensures var t := s.(view := s.view[sector := b]);
            && Sound(t, mapOwn) && OthersKept(s, t, sector, mapOwn)
            && SameIndexBlocks(s.view, t.view, s.own, 0, |s.own|)
            && forall p: nat :: ByteAt(t.view, t.own, p) == ByteAt(s.view, s.own, p)
  {
  }

  lemma OthersTrans(s: Snapshot, t: Snapshot, u: Snapshot, sector: nat, mapOwn: seq<nat>)
    requires OthersKept(s, t, sector, mapOwn) && OthersKept(t, u, sector, mapOwn)
    requires forall x :: 0 <= x < |s.bits| && s.bits[x] && x !in s.own ==> x !in t.own
    ensures OthersKept(s, u, sector, mapOwn)
  {
  }

  function Zeros(n: nat): (b: seq<byte>)
    ensures |b| == n
  {
    seq(n, _ => 0)
  }

  /** Writing past the last byte of the file, as inode_write_at tests it. */
  predicate Extends(length: int, ofs: nat, size: nat) {
    !(0 <= ofs + size - 1 < length)
  }

  lemma ExtendedBytes(s: Snapshot, t: Snapshot, len: nat, length: nat, mapOwn: seq<nat>)
    requires Sound(s, mapOwn) && Advance(s, t, 0, ALL_POSITIONS, mapOwn)
    requires len <= length && Sectors(length) <= CAPACITY
    requires |s.own| == Total(Sectors(len)) && |t.own| == Total(Sectors(length))
    requires ZeroTail(s.view, s.own, len, Sectors(len))
    ensures ZeroTail(t.view, t.own, length, Sectors(length))
    ensures Bytes(t.view, t.own, length) == Bytes(s.view, s.own, len) + Zeros(length - len)
  {
    hide Sound, Advance, ByteAt, Total;
    GrowBytes(s, t, Sectors(len), Sectors(length), mapOwn);
    SectorsExact(len);
    SectorsExact(length);
  }

  /** The part of FileOK that growing the tree to a new length starts from. */
  ghost predicate Growable(s: Snapshot, sector: nat, len: nat, mapOwn: seq<nat>) {
    && Sound(s, mapOwn) && |s.own| == Total(Sectors(len))
    && sector < |s.bits| && s.bits[sector] && sector !in s.own && sector !in mapOwn
    && ZeroTail(s.view, s.own, len, Sectors(len))
  }

  lemma GrownToLength(s: Snapshot, t: Snapshot, sector: nat, len: nat, length: nat, mapOwn: seq<nat>)
    requires Growable(s, sector, len, mapOwn) && len <= length && Sectors(length) <= CAPACITY
    requires Advance(s, t, 0, ALL_POSITIONS, mapOwn) && |t.own| == Max(|s.own|, Total(Sectors(length)))
    ensures |t.own| == Total(Sectors(length)) && sector < |t.view| && sector !in t.own && t.bits[sector]
    ensures Sound(t, mapOwn) && OthersKept(s, t, sector, mapOwn)
    ensures forall x :: 0 <= x < |s.bits| && s.bits[x] && x !in s.own ==> x !in t.own
  {
    if Sectors(len) < Sectors(length) {
      TotalIncreasing(Sectors(len), Sectors(length));
    }
    AdvanceOthers(s, t, sector, mapOwn);
  }

  /** The grown inode, once its new length is on disk, is an inode at rest. */
  lemma Extended(s: Snapshot, t: Snapshot, u: Snapshot, sector: nat, len: nat, d: DiskInode, length: nat,
      mapOwn: seq<nat>)
    requires Growable(s, sector, len, mapOwn) && len <= length <= OFFSET_LIMIT && Sectors(length) <= CAPACITY
    requires Advance(s, t, 0, ALL_POSITIONS, mapOwn) && |t.own| == Max(|s.own|, Total(Sectors(length)))
    requires Tree(t.view, d, t.own) && d.magic == INODE_MAGIC && sector < |t.view|
    requires u == t.(view := t.view[sector := EncodeInode(d.(length := length))])
    ensures FileOK(u, sector, d.(length := length), mapOwn) && OthersKept(s, u, sector, mapOwn)
    ensures Grown(s.bits, s.own, u.bits, u.own)
    ensures Bytes(u.view, u.own, length) == Bytes(s.view, s.own, len) + Zeros(length - len)
  {
    hide Subtree, Total, ByteAt, Untouched, NewDataZero, EncodeInode;
    var e := d.(length := length);
    GrownToLength(s, t, sector, len, length, mapOwn);
    ExtendedBytes(s, t, len, length, mapOwn);
    StoreInode(t, sector, EncodeInode(e), mapOwn);
    OthersTrans(s, t, u, sector, mapOwn);
    TreeFrame(t.view, u.view, e, t.own);
  }

  /** Writing within the length of an inode at rest. */
  lemma Written(s: Snapshot, t: Snapshot, sector: nat, d: DiskInode, ofs: nat, buf: seq<byte>, mapOwn: seq<nat>)
    requires FileOK(s, sector, d, mapOwn) && ofs + |buf| <= d.length
    requires OnlyDataChanged(s.view, t.view, s.own) && Patched(s.view, t.view, s.own, ofs, buf)
    requires t.bits == s.bits && t.own == s.own
    ensures FileOK(t, sector, d, mapOwn) && OthersKept(s, t, sector, mapOwn)
    ensures Bytes(t.view, t.own, d.length) == Splice(Bytes(s.view, s.own, d.length), ofs, buf)
  {
    StillStored(s.view, t.view, d, s.own);
  }

  lemma GrownOthers(s: Snapshot, t: Snapshot, u: Snapshot, sector: nat, mapOwn: seq<nat>)
    requires Grown(s.bits, s.own, t.bits, t.own)
    requires OthersKept(s, t, sector, mapOwn) && OthersKept(t, u, sector, mapOwn)
    ensures OthersKept(s, u, sector, mapOwn)
  {
    GrownPrefix(s.bits, s.own, t.bits, t.own);
    GrownBits(s.bits, s.own, t.bits, t.own);
    OthersTrans(s, t, u, sector, mapOwn);
  }

  /** Splicing at or past the end is splicing into the zero-extended contents. */
  lemma SpliceExtended(contents: seq<byte>, ofs: nat, buf: seq<byte>)
    ensures |contents| <= ofs + |buf| ==>
              Splice(contents + Zeros(ofs + |buf| - |contents|), ofs, buf) == Splice(contents, ofs, buf)
    ensures |contents| <= ofs && buf == [] ==> contents + Zeros(ofs - |contents|) == Splice(contents, ofs, buf)
    ensures buf == [] && ofs <= |contents| ==> contents == Splice(contents, ofs, buf)
  {
  }

  /** What the file operations need to know of an inode at rest. */
  lemma AtRest(s: Snapshot, sector: nat, d: DiskInode, mapOwn: seq<nat>)
    requires FileOK(s, sector, d, mapOwn)
    ensures Stored(s.view, d, s.own) && 0 <= d.length
    ensures forall r :: 0 <= r < |s.own| ==> s.own[r] !in mapOwn && s.own[r] < NO_SECTOR
    ensures Grown(s.bits, s.own, s.bits, s.own) && OthersKept(s, s, sector, mapOwn)
    ensures forall i :: 0 <= i < Sectors(d.length) ==> DataPos(i) < |s.own|
  {
    forall i | 0 <= i < Sectors(d.length) ensures DataPos(i) < |s.own| {
      DataPosBelowTotal(i, Sectors(d.length));
    }
  }

  lemma VolumeSize(vol: Volume)
    requires vol.Ready()
    ensures |vol.cache.view| == vol.freeMap.bitCount + 1 == |vol.freeMap.contents| + 1
  {
  }

  lemma FileParts(s: Snapshot, sector: nat, d: DiskInode, mapOwn: seq<nat>)
    requires FileOK(s, sector, d, mapOwn)
    ensures Sound(s, mapOwn) && Tree(s.view, d, s.own) && sector < |s.bits| && sector !in mapOwn
    ensures |d.direct| == DIRECT_BLOCKS_COUNT
    ensures 0 <= d.length && Growable(s, sector, d.length, mapOwn) && d.magic == INODE_MAGIC
  {
  }

  lemma LengthFits(s: Snapshot, t: Snapshot, d: DiskInode, length: nat, mapOwn: seq<nat>)
    requires Sectors(length) <= CAPACITY
    ensures Min(Sectors(length), CAPACITY) == Sectors(length)
  {
  }

  /** A file cut to length 0 keeps its sectors, and has its new length on the disk. */
  lemma Truncated(s: Snapshot, t: Snapshot, sector: nat, d: DiskInode, len: nat, mapOwn: seq<nat>)
    requires Growable(s, sector, len, mapOwn) && Advance(s, t, 0, ALL_POSITIONS, mapOwn) && sector < |t.view|
    requires |t.own| == |s.own| && Tree(t.view, d, t.own) && d.magic == INODE_MAGIC
    ensures |d.direct| == 123
    ensures var b := EncodeInode(d.(length := 0));
            OthersKept(s, t.(view := t.view[sector := b]), sector, mapOwn) && InodeAt(b, s.own, d.isDir, 0)
    ensures t.own == s.own && Free(t.bits) == Free(s.bits)
  {
    hide EncodeInode, InodeAt, Subtree, Free;
    var e := d.(length := 0);
    AdvanceOthers(s, t, sector, mapOwn);
    StoreInode(t, sector, EncodeInode(e), mapOwn);
    OthersTrans(s, t, t.(view := t.view[sector := EncodeInode(e)]), sector, mapOwn);
    GrownPrefix(s.bits, s.own, t.bits, t.own);
    FileEncodable(t, e, mapOwn);
    assert t.own == s.own;
    WrittenInForm(t.view, e, t.own);
  }

  /** The inode in `sector` has been rewritten; it owns what it owned, and as many sectors are free. */
  ghost predicate StaysAllocated(s: Snapshot, t: Snapshot, sector: nat, d: DiskInode) {
    && t.own == s.own && Free(t.bits) == Free(s.bits) && 0 <= d.length
    && sector < |t.view| && InodeAt(t.view[sector], s.own, d.isDir, d.length)
  }

  lemma NoBytes()
    ensures Sectors(0) == 0 && Total(0) == 0
  {
  }

  /** What a reservation that fails leaves of the rest of the disk: sectors in use stay in
      use, and those that are neither this inode's, nor the free-map file's, nor sector 0,
      keep their contents. */
  ghost predicate BystandersKept(s: Snapshot, t: Snapshot, mapOwn: seq<nat>) {
    && |t.view| == |s.view| && |t.bits| == |s.bits|
    && (forall x :: 0 < x < |s.bits| && x < |s.view| && s.bits[x] && x !in mapOwn && x !in s.own ==>
          t.view[x] == s.view[x])
    && (forall x :: 0 <= x < |s.bits| && s.bits[x] ==> t.bits[x])
  }

  /** A reservation that fails overwrites sector 0 with zeros when it runs out of sectors while
      asking for an index block. */
  predicate Wipes(length: nat, owned: nat, free: nat) {
    !Affordable(length, owned, free) && IsIndexPos(owned + free)
  }

  /** The free sectors that are left after a reservation, whether or not it succeeds. */
  function SectorsLeft(length: nat, owned: nat, free: nat): nat {
    if Affordable(length, owned, free) then owned + free - Max(owned, Total(Min(Sectors(length), CAPACITY))) else 0
  }

  /** The fate of sector 0 in a reservation that fails. */
  ghost predicate SectorZeroAfter(s: Snapshot, t: Snapshot, wiped: bool) {
    |s.view| > 0 && |t.view| > 0 && if wiped then IsZeroed(t.view[0]) else t.view[0] == s.view[0]
  }

  /** What a reservation for `length` bytes that fails leaves: the file's own bytes and everyone
      else's sectors are as they were, and what became of sector 0 and of the free sectors. When
      no more than one data sector was missing, the file's index blocks are as they were too. */
  ghost predicate FailedGrowth(s: Snapshot, t: Snapshot, length: nat, mapOwn: seq<nat>) {
    && BystandersKept(s, t, mapOwn)
    && SectorZeroAfter(s, t, Wipes(length, |s.own|, |Free(s.bits)|))
    && |Free(t.bits)| == SectorsLeft(length, |s.own|, |Free(s.bits)|)
    && (forall p: nat :: ByteAt(t.view, s.own, p) == ByteAt(s.view, s.own, p))
    && (Nearly(length, |s.own|) ==> Untouched(s, t, 0, 0, mapOwn, true))
  }

  /** Running out while adding the 124th sector, the first under the index block: sector 0 is wiped. */
  lemma WipedByIndexBlock()
    ensures Sectors(123 * SECTOR_SIZE + 1) == 124
    ensures !Reservable(123 * SECTOR_SIZE + 1, 123, 0) && Wipes(123 * SECTOR_SIZE + 1, 123, 0)
    ensures !Reservable(123 * SECTOR_SIZE + 1, 122, 1) && Wipes(123 * SECTOR_SIZE + 1, 122, 1)
    ensures !Reservable(123 * SECTOR_SIZE + 1, 123, 1) && !Wipes(123 * SECTOR_SIZE + 1, 123, 1)
  {
  }

  lemma FailedReserve(s: Snapshot, t: Snapshot, length: nat, mapOwn: seq<nat>)
    requires Sound(s, mapOwn) && !Reservable(length, |s.own|, |Free(s.bits)|)
    requires if Affordable(length, |s.own|, |Free(s.bits)|)
             then Advance(s, t, 0, ALL_POSITIONS, mapOwn)
                  && |t.own| == Max(|s.own|, Total(Min(Sectors(length), CAPACITY)))
             else RanOut(s, t, 0, 0, ALL_POSITIONS, mapOwn)
    requires Nearly(length, |s.own|) ==>
               Advance(s, t, 0, 0, mapOwn) || RanOut(s, t, 0, 0, 0, mapOwn)
    ensures FailedGrowth(s, t, length, mapOwn)
  {
    hide ByteAt, Total, Nearly, Sectors, IsIndexPos, NewDataZero;
    if Affordable(length, |s.own|, |Free(s.bits)|) {
      GrownBits(s.bits, s.own, t.bits, t.own);
    } else {
      FreeExact(t.bits);
      assert forall x :: 0 <= x < |t.bits| ==> x !in Free(t.bits);
    }
    assert forall x :: x !in s.own ==> !IndexBlock(s.own, 0, ALL_POSITIONS, x);
    DataUntouched(s, t, mapOwn);
  }

  /** Growing a tree, even without success, touches index blocks only, not data. */
  lemma DataUntouched(s: Snapshot, t: Snapshot, mapOwn: seq<nat>)
    requires Sound(s, mapOwn)
    requires Untouched(s, t, 0, ALL_POSITIONS, mapOwn, false) || Untouched(s, t, 0, ALL_POSITIONS, mapOwn, true)
    ensures forall p: nat :: ByteAt(t.view, s.own, p) == ByteAt(s.view, s.own, p)
  {
    forall p: nat ensures ByteAt(t.view, s.own, p) == ByteAt(s.view, s.own, p) {
      var r := DataPos(p / SECTOR_SIZE);
      DataPosInverse(p / SECTOR_SIZE);
      assert r < |s.own| ==> !IndexBlock(s.own, 0, ALL_POSITIONS, s.own[r]);
    }
  }

  /** The part of inode_write_at that extends the file to `length` bytes. */
  method Extend(vol: Volume, f: Inode, length: nat, ghost own: seq<nat>) returns (ok: bool, ghost grown: seq<nat>)
    requires vol.Ready() && f != vol.mapFile && FileOK(Now(vol, own), f.sector, f.data, vol.mapOwn)
    requires length <= OFFSET_LIMIT && (f.data.length <= length || length == 0)
    modifies vol.Repr(), f`data
    ensures vol.Ready()
    ensures ok == Reservable(length, |own|, |Free(old(vol.freeMap.contents))|)
    ensures f.data.length == (if ok then length else old(f.data.length)) && f.data.isDir == old(f.data.isDir)
    ensures ok ==> OthersKept(old(Now(vol, own)), Now(vol, grown), f.sector, vol.mapOwn)
    ensures ok && old(f.data.length) <= length ==>
              && FileOK(Now(vol, grown), f.sector, f.data, vol.mapOwn)
              && Grown(old(vol.freeMap.contents), own, vol.freeMap.contents, grown)
              && Bytes(vol.cache.view, grown, length)
                 == old(Bytes(vol.cache.view, own, f.data.length)) + Zeros(length - old(f.data.length))
    ensures ok && length < old(f.data.length) ==> StaysAllocated(old(Now(vol, own)), Now(vol, grown), f.sector, f.data)
    ensures !ok ==> FailedGrowth(old(Now(vol, own)), Now(vol, grown), length, vol.mapOwn)
    ensures !ok && !Affordable(length, |own|, |Free(old(vol.freeMap.contents))|) ==>
              RanOut(old(Now(vol, own)), Now(vol, grown), 0, 0, ALL_POSITIONS, vol.mapOwn)
  {
    hide Volume.Valid, Volume.Core, Volume.Synced, OnlyDataChanged, RanOut, Advance, Bytes, FileOK, Sound, Tree,
      Grown, OthersKept, Total, Growable, FailedGrowth, InodeAt, EncodeInode, Free;
    NoBytes();
    ghost var s, d0 := Now(vol, own), f.data;
    VolumeSize(vol);
    FileParts(s, f.sector, f.data, vol.mapOwn);
    var d;
    ok, d, grown := InodeReserve(vol, f.data, length, own);
    f.data := d;
    if ok {
      ghost var t := Now(vol, grown);
      VolumeSize(vol);
      LengthFits(s, t, d0, length, vol.mapOwn);
      f.data := f.data.(length := length);
      vol.WriteSector(f.sector, EncodeInode(f.data));
      if d0.length <= length {
        Extended(s, t, Now(vol, grown), f.sector, d0.length, d, length, vol.mapOwn);
      } else {
        Truncated(s, t, f.sector, d, d0.length, vol.mapOwn);
      }
    } else {
      FailedReserve(s, Now(vol, grown), length, vol.mapOwn);
    }
  }

  /** What inode_write_at does for a write of `buf` at `ofs` to an inode at rest. */
  datatype WriteCase =
    | Denied      // writes to the inode are denied
    | NoRoom      // the file would have to grow and cannot
    | Truncates   // nothing to write at offset 0 of a nonempty file
    | Splices     // the write takes place in full

  function CaseOf(denied: bool, length: int, ofs: nat, size: nat, owned: nat, free: nat): WriteCase {
    if denied then Denied
    else if Extends(length, ofs, size) && !Reservable(ofs + size, owned, free) then NoRoom
    else if ofs + size == 0 < length then Truncates
    else Splices
  }

  /** inode_write_at. A full write splices `buf` into the contents. A write that cannot get
      its sectors returns 0 with the length unchanged. A zero-byte write at offset 0 of a
      nonempty file sets its length to 0, though its sectors stay allocated. */
  method WriteAt(vol: Volume, f: Inode, buf: seq<byte>, ofs: nat, ghost own: seq<nat>)
    returns (written: nat, ghost grown: seq<nat>)
    requires vol.Ready() && f != vol.mapFile && FileOK(Now(vol, own), f.sector, f.data, vol.mapOwn)
    requires ofs + |buf| <= OFFSET_LIMIT
    modifies vol.Repr(), f`data
    ensures vol.Ready()
    ensures var c := CaseOf(f.denyWriteCnt > 0, old(f.data.length), ofs, |buf|, |own|,
                          |Free(old(vol.freeMap.contents))|);
            && written == (if c == Splices then |buf| else 0)
            && f.data.length == (if c == Truncates then 0 else if c == Splices then Max(old(f.data.length), ofs + |buf|)
                                   else old(f.data.length))
            && (c == Denied ==> f.data == old(f.data) && Now(vol, own) == old(Now(vol, own)))
            && f.data.isDir == old(f.data.isDir)
            && (c == Splices || c == Truncates ==>
                  OthersKept(old(Now(vol, own)), Now(vol, grown), f.sector, vol.mapOwn))
            && (c == Truncates ==> StaysAllocated(old(Now(vol, own)), Now(vol, grown), f.sector, f.data))
            && (c == Splices ==>
                  && FileOK(Now(vol, grown), f.sector, f.data, vol.mapOwn)
                  && Grown(old(vol.freeMap.contents), own, vol.freeMap.contents, grown)
                  && Bytes(vol.cache.view, grown, f.data.length)
                     == Splice(old(Bytes(vol.cache.view, own, f.data.length)), ofs, buf))
            && (c == NoRoom ==> FailedGrowth(old(Now(vol, own)), Now(vol, grown), ofs + |buf|, vol.mapOwn))
            && (c == NoRoom && !Affordable(ofs + |buf|, |own|, |Free(old(vol.freeMap.contents))|) ==>
                  RanOut(old(Now(vol, own)), Now(vol, grown), 0, 0, ALL_POSITIONS, vol.mapOwn))
  {
    hide Volume.Valid, Volume.Core, Volume.Synced, OnlyDataChanged, RanOut, Bytes, FileOK, Sound, Grown, OthersKept;
    hide Splice, Patched, Affordable, Reservable, Stored, Zeros, FailedGrowth, Sectors, Total, Private, Owned, DataPos,
      StaysAllocated;
    grown := own;
    if f.denyWriteCnt > 0 {
      return 0, grown;
    }
    ghost var s, d0 := Now(vol, own), f.data;
    AtRest(s, f.sector, f.data, vol.mapOwn);
    var last := vol.LocateByte(f.data, ofs + |buf| - 1, own);
    if last == NO_SECTOR {
      var ok;
      ok, grown := Extend(vol, f, ofs + |buf|, own);
      if !ok {
        return 0, grown;
      }
    }
    written := 0;
    SpliceExtended(Bytes(s.view, s.own, d0.length), ofs, buf);
    ghost var t := Now(vol, grown);
    if |buf| > 0 {
      AtRest(t, f.sector, f.data, vol.mapOwn);
      written := vol.WriteData(f.data, buf, ofs, grown);
      assert buf[..written] == buf;
      Written(t, Now(vol, grown), f.sector, f.data, ofs, buf, vol.mapOwn);
      GrownOthers(s, t, Now(vol, grown), f.sector, vol.mapOwn);
    }
  }

  /** The inode_disk that inode_create starts from, calloc'd and with its header filled in. */
  function NewInode(length: nat, isDir: bool): DiskInode {
    DiskInode(seq(DIRECT_BLOCKS_COUNT, _ => 0), 0, 0, isDir, length, INODE_MAGIC)
  }

  lemma NewTreeEmpty(view: seq<Block>, length: nat, isDir: bool)
    ensures Tree(view, NewInode(length, isDir), [])
  {
    hide Children;
  }

  lemma NoTail(view: seq<Block>, own: seq<nat>)
    ensures ZeroTail(view, own, 0, 0)
  {
  }

  lemma NewGrowable(s: Snapshot, sector: nat, mapOwn: seq<nat>)
    requires Sound(s, mapOwn) && s.own == [] && sector < |s.bits| && s.bits[sector] && sector !in mapOwn
    ensures Growable(s, sector, 0, mapOwn)
  {
    hide Sound;
    assert Sectors(0) == 0 && Total(0) == 0;
    NoTail(s.view, s.own);
  }

  /** inode_create: on success the new inode has `length` zero bytes. */
  method InodeCreate(vol: Volume, sector: nat, length: nat, isDir: bool)
    returns (ok: bool, ghost d: DiskInode, ghost own: seq<nat>)
    requires CanGrow(vol, []) && length <= OFFSET_LIMIT
    requires sector < |vol.freeMap.contents| && vol.freeMap.contents[sector] && sector !in vol.mapOwn
    modifies vol.Repr()
    ensures vol.Ready()
    ensures ok == Reservable(length, 0, |Free(old(vol.freeMap.contents))|)
    ensures ok ==> FileOK(Now(vol, own), sector, d, vol.mapOwn) && d.length == length && d.isDir == isDir
    ensures ok ==> sector < |vol.cache.view| && InodeAt(vol.cache.view[sector], own, isDir, length)
    ensures ok ==> IndexBlocksAt(vol.cache.view, own)
    ensures ok ==> OthersKept(old(Now(vol, [])), Now(vol, own), sector, vol.mapOwn)
    ensures ok ==> Grown(old(vol.freeMap.contents), [], vol.freeMap.contents, own)
    ensures ok ==> Bytes(vol.cache.view, own, length) == Zeros(length)
    ensures !ok ==> FailedGrowth(old(Now(vol, [])), Now(vol, own), length, vol.mapOwn)
    ensures !ok && !Affordable(length, 0, |Free(old(vol.freeMap.contents))|) ==>
              RanOut(old(Now(vol, [])), Now(vol, own), 0, 0, ALL_POSITIONS, vol.mapOwn)
  {
    hide Volume.Valid, Volume.Core, Volume.Synced, OnlyDataChanged, RanOut, Advance, Bytes, FileOK, Sound, Tree,
      Grown, OthersKept, Total, Growable, FailedGrowth, InodeAt, IndexBlocksAt;
    ghost var s := Now(vol, []);
    NewTreeEmpty(s.view, length, isDir);
    NewGrowable(s, sector, vol.mapOwn);
    VolumeSize(vol);
    var disk;
    ok, disk, own := InodeReserve(vol, NewInode(length, isDir), length, []);
    d := disk;
    if ok {
      ghost var t := Now(vol, own);
      VolumeSize(vol);
      LengthFits(s, t, d, length, vol.mapOwn);
      vol.WriteSector(sector, EncodeInode(disk));
      assert disk == disk.(length := length);
      Extended(s, t, Now(vol, own), sector, 0, disk, length, vol.mapOwn);
      RestsInForm(Now(vol, own), sector, disk, vol.mapOwn);
      assert Bytes(s.view, s.own, 0) + Zeros(length - 0) == Zeros(length);
    } else {
      FailedReserve(s, Now(vol, own), length, vol.mapOwn);
    }
  }

  /** A file at rest still is when a reservation has failed for want of one data sector. */
  lemma StillAtRest(s: Snapshot, t: Snapshot, sector: nat, d: DiskInode, length: nat, mapOwn: seq<nat>)
    requires FileOK(s, sector, d, mapOwn) && sector > 0 && Nearly(length, |s.own|)
    requires FailedGrowth(s, t, length, mapOwn)
    ensures FileOK(Snapshot(t.view, t.bits, s.own), sector, d, mapOwn)
    ensures 0 <= d.length && Bytes(t.view, s.own, d.length) == Bytes(s.view, s.own, d.length)
  {
    hide Nearly, Wipes, SectorsLeft, Subtree;
    assert forall x :: !IndexBlock(s.own, 0, 0, x);
    TreeFrame(s.view, t.view, d, s.own);
  }

  lemma AtRestOnDisk(s: Snapshot, sector: nat, d: DiskInode, mapOwn: seq<nat>)
    requires FileOK(s, sector, d, mapOwn)
    ensures Encodable(d) && sector < |s.view| && s.view[sector] == EncodeInode(d)
  {
    FileEncodable(s, d, mapOwn);
  }

  /** The fields that `b`, read as a struct inode_disk, has. */
  ghost predicate FieldsOf(d: DiskInode, b: Block) {
    && |d.direct| == 123 && (forall i :: 0 <= i < 123 ==> d.direct[i] == WordAt(b, 4 * i))
    && d.indirect == WordAt(b, 492) && d.doubly == WordAt(b, 496) && d.isDir == (b[500] != 0)
    && d.length == (if WordAt(b, 504) < 0x8000_0000 then WordAt(b, 504) else WordAt(b, 504) - 0x1_0000_0000)
    && d.magic == WordAt(b, 508)
  }

  /** inode_open: whatever the sector holds is taken for an inode. */
  method InodeOpen(vol: Volume, sector: nat) returns (f: Inode)
    requires vol.Ready() && sector < |vol.cache.view|
    modifies vol.cache`clock, vol.cache.device, vol.cache.slots
    ensures vol.Ready() && fresh(f) && f.sector == sector && f.denyWriteCnt == 0
    ensures FieldsOf(f.data, vol.cache.view[sector]) && f.data == DecodeInode(vol.cache.view[sector])
  {
    hide Volume.Valid, Volume.Core, Volume.Synced, DecodeInode, FieldsOf;
    var block := vol.ReadSector(sector);
    Opened(block);
    f := new Inode(sector, DecodeInode(block));
    assert f as object !in vol.Repr();
  }

  /** inode_open of an inode at rest recovers the structure in memory. */
  method OpenAtRest(vol: Volume, sector: nat, ghost d: DiskInode, ghost own: seq<nat>) returns (f: Inode)
    requires vol.Ready() && FileOK(Now(vol, own), sector, d, vol.mapOwn)
    modifies vol.cache`clock, vol.cache.device, vol.cache.slots
    ensures vol.Ready() && fresh(f) && f.sector == sector && f.data == d && f.denyWriteCnt == 0
  {
    hide Volume.Valid, Volume.Core, Volume.Synced, FileOK, EncodeInode, DecodeInode, FieldsOf;
    AtRestOnDisk(Now(vol, own), sector, d, vol.mapOwn);
    InodeRoundTrip(d);
    f := InodeOpen(vol, sector);
  }

  lemma Opened(b: Block)
    ensures FieldsOf(DecodeInode(b), b)
  {
    hide DecodeInode, WordAt;
    InodeFields(b);
  }

  /** inode_close of a removed inode: frees its own sector, then everything it owns. */
  method InodeRemove(vol: Volume, f: Inode, ghost own: seq<nat>)
    requires vol.Ready() && vol.mapFile != null && f != vol.mapFile && f.sector > 0
    requires FileOK(Now(vol, own), f.sector, f.data, vol.mapOwn)
    modifies vol.Repr()
    ensures vol.Ready() && OnlyDataChanged(old(vol.cache.view), vol.cache.view, vol.mapOwn)
    ensures vol.freeMap.contents == Clear(old(vol.freeMap.contents), {f.sector} + SetOf(own))
  {
    hide Volume.Valid, Volume.Core, Volume.Synced, OnlyDataChanged, FileOK;
    ghost var s := Now(vol, own);
    Removable(s, f.sector, f.data, vol.mapOwn);
    vol.Release(f.sector, 1);
    ghost var t := Now(vol, own);
    InodeReleased(s, t, f.sector, f.data, vol.mapOwn);
    var done := InodeDeallocate(vol, f.data, own);
    OnlyDataTrans(s.view, t.view, vol.cache.view, vol.mapOwn);
    assert Clear(Clear(s.bits, {f.sector}), SetOf(own)) == Clear(s.bits, {f.sector} + SetOf(own));
  }

  lemma Removable(s: Snapshot, sector: nat, d: DiskInode, mapOwn: seq<nat>)
    requires FileOK(s, sector, d, mapOwn)
    ensures Run(s.bits, sector, 1, true) && sector !in mapOwn && 0 <= d.length
  {
  }

  lemma InodeReleased(s: Snapshot, t: Snapshot, sector: nat, d: DiskInode, mapOwn: seq<nat>)
    requires FileOK(s, sector, d, mapOwn) && OnlyDataChanged(s.view, t.view, mapOwn) && t.own == s.own
    requires t.bits == SetRange(s.bits, sector, 1, false)
    ensures t.bits == Clear(s.bits, {sector})
    ensures Stored(t.view, d, s.own) && Releasable(t.view, t.bits, s.own, 0, |s.own|, mapOwn)
  {
    assert Releasable(s.view, s.bits, s.own, 0, |s.own|, mapOwn);
    TreeKept(s.view, t.view, s.bits, s.own, 0, |s.own|, mapOwn);
    TreeFrame(s.view, t.view, d, s.own);
    forall r | 0 <= r < |s.own| ensures t.bits[s.own[r]] {
      assert s.own[r] in s.own;
    }
  }
}
