/** All live inodes together: no sector belongs to two of them, and each step on one of them
    leaves the others alone. */
module FileTable {
  import opened Sector
  import opened Geometry
  import opened FreeList
  import opened BlockTree
  import opened FileBytes
  import opened Reserve
  import opened Files

  /** A live inode: the sectors it owns and its header. */
  datatype FileInfo = FileInfo(own: seq<nat>, d: DiskInode)

  type Table = map<nat, FileInfo>

  /** Sector `x` is the inode sector `s` itself or one of the sectors it owns. */
  ghost predicate Claims(files: Table, s: int, x: int) {
    s in files && (x == s || x in files[s].own)
  }

  ghost predicate Disjoint(files: Table) {
    forall s, t, x :: Claims(files, s, x) && Claims(files, t, x) ==> s == t
  }

  /** Every inode is at rest, and no two share a sector. */
  ghost predicate Safe(view: seq<Block>, bits: seq<bool>, files: Table, mapOwn: seq<nat>) {
    && Disjoint(files)
    && forall s :: s in files ==> s > 0 && FileOK(Snapshot(view, bits, files[s].own), s, files[s].d, mapOwn)
  }

  /** The sectors in use are exactly the free-map file's and the live inodes'. */
  ghost predicate Exact(bits: seq<bool>, files: Table, mapOwn: seq<nat>) {
    forall x :: 0 <= x < |bits| && bits[x] ==> x == 0 || x in mapOwn || exists s :: Claims(files, s, x)
  }

  function ContentsOf(view: seq<Block>, info: FileInfo): seq<byte> {
    if info.d.length < 0 then [] else Bytes(view, info.own, info.d.length)
  }

  /** What the files hold, by inode sector. */
  function Contents(view: seq<Block>, files: Table): map<nat, seq<byte>> {
    map s | s in files :: ContentsOf(view, files[s])
  }

  /** An inode is untouched when the contents of its sectors are and they remain in use. */
  lemma FileFrame(s: Snapshot, t: Snapshot, sector: nat, d: DiskInode, mapOwn: seq<nat>)
    requires FileOK(s, sector, d, mapOwn) && t.own == s.own
    requires |t.view| == |s.view| && |t.bits| == |s.bits| && Owned(mapOwn, t.bits) && t.bits[0]
    requires forall x :: x in s.own || x == sector ==>
               x < |s.view| && t.view[x] == s.view[x] && x < |s.bits| && t.bits[x]
    ensures FileOK(t, sector, d, mapOwn)
    ensures Bytes(t.view, t.own, d.length) == Bytes(s.view, s.own, d.length)
  {
    forall r | 0 <= r < |s.own|
      ensures s.own[r] < |s.view| && t.view[s.own[r]] == s.view[s.own[r]] && t.bits[s.own[r]]
    {
      assert s.own[r] in s.own;
    }
    TreeFrame(s.view, t.view, d, s.own);
    forall p: nat ensures ByteAt(t.view, s.own, p) == ByteAt(s.view, s.own, p) {
    }
  }

  /** The sectors an inode claims are in use and are not the free-map file's. */
  lemma ClaimedInUse(view: seq<Block>, bits: seq<bool>, files: Table, mapOwn: seq<nat>, s: nat, x: nat)
    requires Safe(view, bits, files, mapOwn) && Claims(files, s, x)
    ensures 0 < x < |bits| && bits[x] && x !in mapOwn && |view| == |bits| + 1
  {
    var own := files[s].own;
    assert FileOK(Snapshot(view, bits, own), s, files[s].d, mapOwn);
    if x in own {
      var r :| 0 <= r < |own| && own[r] == x;
    }
  }

  /** Removing an inode from consideration keeps the others safe. */
  lemma SafeWithout(view: seq<Block>, bits: seq<bool>, files: Table, mapOwn: seq<nat>, sector: nat)
    requires Safe(view, bits, files, mapOwn)
    ensures Safe(view, bits, files - {sector}, mapOwn)
    ensures Contents(view, files - {sector}) == Contents(view, files) - {sector}
  {
    hide FileOK, ContentsOf;
    forall s, t, x | Claims(files - {sector}, s, x) && Claims(files - {sector}, t, x) ensures s == t {
      assert Claims(files, s, x) && Claims(files, t, x);
    }
  }

  /** Files none of whose sectors changed are as safe, and hold the same bytes, as before. */
  lemma SafeFrame(view: seq<Block>, bits: seq<bool>, after: seq<Block>, bitsAfter: seq<bool>, files: Table,
      mapOwn: seq<nat>)
    requires Safe(view, bits, files, mapOwn) && |after| == |view| && |bitsAfter| == |bits|
    requires |bits| > 0 && bitsAfter[0] && Owned(mapOwn, bitsAfter)
    requires forall s, x :: Claims(files, s, x) && x < |view| ==> after[x] == view[x] && x < |bits| && bitsAfter[x]
    ensures Safe(after, bitsAfter, files, mapOwn)
    ensures Contents(after, files) == Contents(view, files)
  {
    forall s | s in files
      ensures FileOK(Snapshot(after, bitsAfter, files[s].own), s, files[s].d, mapOwn)
      ensures ContentsOf(after, files[s]) == ContentsOf(view, files[s])
    {
      var own := files[s].own;
      forall x | x in own || x == s
        ensures x < |view| && after[x] == view[x] && x < |bits| && bitsAfter[x]
      {
        assert Claims(files, s, x);
        ClaimedInUse(view, bits, files, mapOwn, s, x);
      }
      FileFrame(Snapshot(view, bits, own), Snapshot(after, bitsAfter, own), s, files[s].d, mapOwn);
    }
  }

  /** Adding an inode whose sectors no other inode claims. */
  lemma SafeAdd(view: seq<Block>, bits: seq<bool>, files: Table, mapOwn: seq<nat>, sector: nat, info: FileInfo)
    requires Safe(view, bits, files, mapOwn) && sector !in files && sector > 0
    requires FileOK(Snapshot(view, bits, info.own), sector, info.d, mapOwn) && 0 <= info.d.length
    requires forall s, x :: Claims(files, s, x) ==> x != sector && x !in info.own
    ensures Safe(view, bits, files[sector := info], mapOwn)
    ensures Contents(view, files[sector := info])
            == Contents(view, files)[sector := Bytes(view, info.own, info.d.length)]
  {
    hide FileOK, Bytes;
    DisjointAdd(files, sector, info);
  }

  lemma DisjointAdd(files: Table, sector: nat, info: FileInfo)
    requires Disjoint(files) && sector !in files
    requires forall s, x :: Claims(files, s, x) ==> x != sector && x !in info.own
    ensures Disjoint(files[sector := info])
  {
    var files' := files[sector := info];
    forall s, t, x | Claims(files', s, x) && Claims(files', t, x) ensures s == t {
      assert s != sector ==> Claims(files, s, x);
      assert t != sector ==> Claims(files, t, x);
    }
  }

  lemma FileIsSound(s: Snapshot, sector: nat, d: DiskInode, mapOwn: seq<nat>)
    requires FileOK(s, sector, d, mapOwn)
    ensures |s.bits| > 0 && s.bits[0] && Owned(mapOwn, s.bits)
    ensures 0 <= d.length && |s.own| == Total(Sectors(d.length)) && Sectors(d.length) <= CAPACITY
  {
  }

  /** No file of `rest` claims `sector` or a sector of `own`. */
  ghost predicate Unclaimed(rest: Table, sector: nat, own: seq<nat>) {
    forall r, x :: Claims(rest, r, x) ==> x != sector && x !in own
  }

  lemma OthersStayClear(s: Snapshot, t: Snapshot, rest: Table, sector: nat, mapOwn: seq<nat>)
    requires Safe(s.view, s.bits, rest, mapOwn) && Unclaimed(rest, sector, s.own)
    requires OthersKept(s, t, sector, mapOwn) && Grown(s.bits, s.own, t.bits, t.own)
    ensures Unclaimed(rest, sector, t.own) && |t.view| == |s.view| && |t.bits| == |s.bits|
    ensures forall r, x :: Claims(rest, r, x) && x < |s.view| ==> t.view[x] == s.view[x] && x < |s.bits| && t.bits[x]
  {
    hide FileOK;
    GrownPrefix(s.bits, s.own, t.bits, t.own);
    GrownBits(s.bits, s.own, t.bits, t.own);
    forall r, x | Claims(rest, r, x)
      ensures 0 < x < |s.bits| && s.bits[x] && x !in mapOwn && x !in t.own
    {
      ClaimedInUse(s.view, s.bits, rest, mapOwn, r, x);
    }
  }

  /** An inode comes to rest with sectors `t.own`, next to the files of `rest`. */
  lemma UpdateStep(s: Snapshot, t: Snapshot, rest: Table, sector: nat, d: DiskInode, mapOwn: seq<nat>)
    requires Safe(s.view, s.bits, rest, mapOwn) && sector !in rest && sector > 0 && Unclaimed(rest, sector, s.own)
    requires FileOK(t, sector, d, mapOwn) && OthersKept(s, t, sector, mapOwn) && Grown(s.bits, s.own, t.bits, t.own)
    ensures 0 <= d.length
    ensures Safe(t.view, t.bits, rest[sector := FileInfo(t.own, d)], mapOwn)
    ensures Contents(t.view, rest[sector := FileInfo(t.own, d)])
            == Contents(s.view, rest)[sector := Bytes(t.view, t.own, d.length)]
  {
    hide FileOK, Bytes, Disjoint, Claims, ContentsOf, Safe;
    OthersStayClear(s, t, rest, sector, mapOwn);
    FileIsSound(t, sector, d, mapOwn);
    SafeFrame(s.view, s.bits, t.view, t.bits, rest, mapOwn);
    SafeAdd(t.view, t.bits, rest, mapOwn, sector, FileInfo(t.own, d));
  }

  lemma OthersUnclaimed(view: seq<Block>, bits: seq<bool>, files: Table, sector: nat, mapOwn: seq<nat>)
    requires Safe(view, bits, files, mapOwn) && sector in files
    ensures sector > 0 && Unclaimed(files - {sector}, sector, files[sector].own)
  {
    hide FileOK;
    forall r, x | Claims(files - {sector}, r, x) ensures x != sector && x !in files[sector].own {
      assert Claims(files, r, x);
      assert x == sector || x in files[sector].own ==> Claims(files, sector, x);
    }
  }

  /** One inode was written, and perhaps grown: the table with its new sectors is safe, the
      other files hold what they held, and nothing has leaked. */
  lemma WriteStep(s: Snapshot, t: Snapshot, files: Table, sector: nat, d: DiskInode, mapOwn: seq<nat>)
    requires Safe(s.view, s.bits, files, mapOwn) && sector in files && s.own == files[sector].own
    requires FileOK(t, sector, d, mapOwn) && OthersKept(s, t, sector, mapOwn) && Grown(s.bits, s.own, t.bits, t.own)
    ensures 0 <= d.length
    ensures Safe(t.view, t.bits, files[sector := FileInfo(t.own, d)], mapOwn)
    ensures Contents(t.view, files[sector := FileInfo(t.own, d)])
            == Contents(s.view, files)[sector := Bytes(t.view, t.own, d.length)]
    ensures Exact(s.bits, files, mapOwn) ==> Exact(t.bits, files[sector := FileInfo(t.own, d)], mapOwn)
  {
    hide FileOK, Bytes, Disjoint, Claims, Exact, ContentsOf, Safe, Unclaimed, OthersKept;
    var rest, info := files - {sector}, FileInfo(t.own, d);
    SafeWithout(s.view, s.bits, files, mapOwn, sector);
    OthersUnclaimed(s.view, s.bits, files, sector, mapOwn);
    UpdateStep(s, t, rest, sector, d, mapOwn);
    assert rest[sector := info] == files[sector := info];
    if Exact(s.bits, files, mapOwn) {
      GrownPrefix(s.bits, s.own, t.bits, t.own);
      GrownBits(s.bits, s.own, t.bits, t.own);
      ExactGrown(s.bits, t.bits, files, files[sector := info], sector, s.own, t.own, mapOwn);
    }
  }

  lemma ExactGrown(bits: seq<bool>, after: seq<bool>, files: Table, files': Table, sector: nat, own: seq<nat>,
      grown: seq<nat>, mapOwn: seq<nat>)
    requires Exact(bits, files, mapOwn) && |after| == |bits| && sector in files'
    requires forall s :: s in files && s != sector ==> s in files' && files'[s] == files[s]
    requires sector in files ==> files[sector].own == own
    requires files'[sector].own == grown && own <= grown
    requires forall x :: 0 <= x < |bits| && after[x] && !bits[x] ==> x == sector || x in grown[|own|..]
    ensures Exact(after, files', mapOwn)
  {
    forall x | 0 <= x < |after| && after[x] && x != 0 && x !in mapOwn ensures exists s :: Claims(files', s, x) {
      if bits[x] {
        var s :| Claims(files, s, x);
        assert Claims(files', s, x);
      } else {
        assert Claims(files', sector, x);
      }
    }
  }

  /** A write that failed, or that only set the length to 0, leaves every other file alone. */
  lemma DropStep(s: Snapshot, t: Snapshot, rest: Table, sector: nat, mapOwn: seq<nat>)
    requires Safe(s.view, s.bits, rest, mapOwn) && Unclaimed(rest, sector, s.own)
    requires OthersKept(s, t, sector, mapOwn) || BystandersKept(s, t, mapOwn)
    requires |t.bits| > 0 && t.bits[0] && Owned(mapOwn, t.bits)
    ensures Safe(t.view, t.bits, rest, mapOwn) && Contents(t.view, rest) == Contents(s.view, rest)
  {
    hide FileOK;
    forall r, x | Claims(rest, r, x) && x < |s.view| ensures t.view[x] == s.view[x] && x < |s.bits| && t.bits[x] {
      ClaimedInUse(s.view, s.bits, rest, mapOwn, r, x);
    }
    SafeFrame(s.view, s.bits, t.view, t.bits, rest, mapOwn);
  }

  /** Rewriting the free-map file, and marking more sectors, leaves every file alone. */
  lemma MarkStep(view: seq<Block>, bits: seq<bool>, after: seq<Block>, bitsAfter: seq<bool>, files: Table,
      mapOwn: seq<nat>)
    requires Safe(view, bits, files, mapOwn) && OnlyDataChanged(view, after, mapOwn)
    requires |bitsAfter| == |bits| > 0 && bitsAfter[0] && Owned(mapOwn, bitsAfter)
    requires forall s, x :: Claims(files, s, x) && x < |bits| && bits[x] ==> bitsAfter[x]
    ensures Safe(after, bitsAfter, files, mapOwn) && Contents(after, files) == Contents(view, files)
  {
    forall r, x | Claims(files, r, x) && x < |view| ensures after[x] == view[x] && x < |bits| && bitsAfter[x] {
      ClaimedInUse(view, bits, files, mapOwn, r, x);
    }
    SafeFrame(view, bits, after, bitsAfter, files, mapOwn);
  }

  /** Freeing an inode's sectors: the others are untouched and nothing has leaked. */
  lemma RemoveStep(s: Snapshot, t: Snapshot, files: Table, sector: nat, mapOwn: seq<nat>)
    requires Safe(s.view, s.bits, files, mapOwn) && sector in files && s.own == files[sector].own
    requires OnlyDataChanged(s.view, t.view, mapOwn) && t.bits == Clear(s.bits, {sector} + SetOf(s.own))
    requires |s.bits| > 0 && t.bits[0] && Owned(mapOwn, t.bits)
    ensures Safe(t.view, t.bits, files - {sector}, mapOwn)
    ensures Contents(t.view, files - {sector}) == Contents(s.view, files) - {sector}
    ensures Exact(s.bits, files, mapOwn) ==> Exact(t.bits, files - {sector}, mapOwn)
  {
    hide FileOK, Bytes, ContentsOf, Owned;
    var rest := files - {sector};
    SafeWithout(s.view, s.bits, files, mapOwn, sector);
    forall r, x | Claims(rest, r, x) && x < |s.bits| && s.bits[x] ensures t.bits[x] {
      assert Claims(files, r, x);
      assert x == sector || x in s.own ==> Claims(files, sector, x);
    }
    MarkStep(s.view, s.bits, t.view, t.bits, rest, mapOwn);
    if Exact(s.bits, files, mapOwn) {
      ExactRemoved(s.bits, t.bits, files, sector, mapOwn);
    }
  }

  lemma ExactRemoved(bits: seq<bool>, after: seq<bool>, files: Table, sector: nat, mapOwn: seq<nat>)
    requires Exact(bits, files, mapOwn) && sector in files
    requires after == Clear(bits, {sector} + SetOf(files[sector].own))
    ensures Exact(after, files - {sector}, mapOwn)
  {
    forall x | 0 <= x < |after| && after[x] && x != 0 && x !in mapOwn
      ensures exists r :: Claims(files - {sector}, r, x)
    {
      var r :| Claims(files, r, x);
      assert Claims(files - {sector}, r, x);
    }
  }
}
