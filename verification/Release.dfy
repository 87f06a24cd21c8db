/** Freeing an inode's sectors (inode_deallocate, inode_deallocate_indirect in inode.c),
    driven only by its length. */
module Release {
  import opened Sector
  import opened Geometry
  import opened FreeList
  import opened BlockTree
  import opened FileBytes
  import opened InodeIO
  import opened Bitmap
  import opened Volume

  /** What has to hold for the sectors at positions lo .. hi - 1 to be released. */
  ghost predicate Releasable(view: seq<Block>, bits: seq<bool>, own: seq<nat>, lo: nat, hi: nat, mapOwn: seq<nat>) {
    && hi <= |own| && OnDevice(view, own) && |view| == |bits| + 1
    && (forall r :: 0 <= r < |own| ==> 0 < own[r] < |bits| && own[r] !in mapOwn)
    && (forall r :: lo <= r < hi ==> bits[own[r]])
  }

  lemma ClearJoin(bits: seq<bool>, own: seq<nat>, lo: nat, mid: nat, hi: nat)
    requires lo <= mid <= hi <= |own|
    ensures Clear(Clear(bits, SetOf(own[lo..mid])), SetOf(own[mid..hi])) == Clear(bits, SetOf(own[lo..hi]))
  {
    assert own[lo..hi] == own[lo..mid] + own[mid..hi];
  }

  /** Clearing one range of positions leaves the later ones marked. */
  lemma LaterStillMarked(view: seq<Block>, bits: seq<bool>, own: seq<nat>, lo: nat, mid: nat, hi: nat, mapOwn: seq<nat>)
    requires Releasable(view, bits, own, lo, hi, mapOwn) && lo <= mid <= hi
    ensures Releasable(view, Clear(bits, SetOf(own[lo..mid])), own, mid, hi, mapOwn)
    ensures lo > 0 && bits[own[lo - 1]] ==> Clear(bits, SetOf(own[lo..mid]))[own[lo - 1]]
  {
  }

  /** Rewriting the free-map file leaves another inode's tree alone. */
  lemma TreeKept(view: seq<Block>, after: seq<Block>, bits: seq<bool>, own: seq<nat>, lo: nat, hi: nat,
      mapOwn: seq<nat>)
    requires Releasable(view, bits, own, lo, hi, mapOwn) && OnlyDataChanged(view, after, mapOwn)
    ensures SameIndexBlocks(view, after, own, 0, |own|)
  {
  }

  /** free_map_release of the single sector at position `r`. */
  method ReleaseOne(vol: Volume, sector: nat, ghost own: seq<nat>, ghost r: nat)
    requires vol.Ready() && vol.mapFile != null
    requires Releasable(vol.cache.view, vol.freeMap.contents, own, r, r + 1, vol.mapOwn) && own[r] == sector
    modifies vol.Repr()
    ensures vol.Ready() && OnlyDataChanged(old(vol.cache.view), vol.cache.view, vol.mapOwn)
    ensures vol.freeMap.contents == Clear(old(vol.freeMap.contents), SetOf(own[r..r + 1]))
  {
    hide Volume.Valid, Volume.Core, Volume.Synced, OnlyDataChanged;
    ghost var bits := vol.freeMap.contents;
    vol.Release(sector, 1);
    assert own[r..r + 1] == [sector];
    assert SetRange(bits, sector, 1, false) == Clear(bits, SetOf([sector]));
  }

  method DeallocateIndirect(vol: Volume, entry: nat, num: nat, level: nat, ghost own: seq<nat>, ghost p: nat)
    requires vol.Ready() && vol.mapFile != null
    requires level <= 2 && AtLevel(p, level) && 0 < num <= LevelCapacity(level)
    requires Subtree(vol.cache.view, entry, own, p, level)
    requires Releasable(vol.cache.view, vol.freeMap.contents, own, p, p + Used(num, level), vol.mapOwn)
    modifies vol.Repr()
    ensures vol.Ready() && OnlyDataChanged(old(vol.cache.view), vol.cache.view, vol.mapOwn)
    ensures vol.freeMap.contents == Clear(old(vol.freeMap.contents), SetOf(own[p..p + Used(num, level)]))
    decreases level, 1
  {
    hide Volume.Valid, Volume.Core, Volume.Synced, OnlyDataChanged, Releasable, Children, AtLevel, OnDevice, Clear,
      Subtree;
    ghost var view0, bits0, hi := vol.cache.view, vol.freeMap.contents, p + Used(num, level);
    RootAt(view0, bits0, entry, own, p, level, hi, vol.mapOwn);
    if level == 0 {
      DataUsed(num);
      ReleaseOne(vol, entry, own, p);
      return;
    }
    var block := vol.ReadSector(entry);
    DeallocateChildren(vol, Pointers(block), num, level, own, p);
    ghost var view2 := vol.cache.view;
    EntryReady(view0, view2, bits0, own, p, hi, vol.mapOwn);
    ReleaseOne(vol, entry, own, p);
    OnlyDataTrans(view0, view2, vol.cache.view, vol.mapOwn);
    ClearEntryLast(bits0, own, p, hi);
  }

  /** The loop of inode_deallocate_indirect over the entries of one index block. */
  method DeallocateChildren(vol: Volume, blocks: seq<nat>, num: nat, level: nat, ghost own: seq<nat>, ghost p: nat)
    requires vol.Ready() && vol.mapFile != null
    requires 1 <= level <= 2 && AtLevel(p, level) && 0 < num <= LevelCapacity(level)
    requires Children(vol.cache.view, blocks, own, p, level)
    requires Releasable(vol.cache.view, vol.freeMap.contents, own, p, p + Used(num, level), vol.mapOwn)
    requires p + Used(num, level) <= |own|
    modifies vol.Repr()
    ensures vol.Ready() && OnlyDataChanged(old(vol.cache.view), vol.cache.view, vol.mapOwn)
    ensures vol.freeMap.contents == Clear(old(vol.freeMap.contents), SetOf(own[p + 1..p + Used(num, level)]))
    decreases level, 0
  {
    hide Volume.Valid, Volume.Core, Volume.Synced, OnlyDataChanged, Releasable, Children, AtLevel, OnDevice, Clear,
      Subtree, SetOf, ChildPos, Used, DivRoundUp, LevelCapacity;
    ghost var view0, bits0, hi := vol.cache.view, vol.freeMap.contents, p + Used(num, level);
    var unit := if level == 1 then 1 else INDIRECT_BLOCKS_PER_SECTOR;
    var i, l, left := 0, DivRoundUp(num, unit), num;
    ghost var at := p + 1;
    ChildLoopStart(p, level, num);
    NothingCleared(bits0, own, p + 1);
    MapUnchanged(vol);
    while i < l
      invariant 0 <= i <= l && left == num - Min(num, i * unit)
      invariant i == l ==> left == 0
      invariant vol.Ready() && OnlyDataChanged(view0, vol.cache.view, vol.mapOwn)
      invariant p + 1 <= at <= hi && at == if i == 0 then p + 1 else p + Used(num - left, level)
      invariant vol.freeMap.contents == Clear(bits0, SetOf(own[p + 1..at]))
    {
      var subsize := Min(left, unit);
      ghost var view1 := vol.cache.view;
      ghost var next := at + Used(subsize, level - 1);
      ChildArithmetic(p, level, i, num, left, subsize);
      ChildReady(view0, view1, bits0, blocks, own, p, level, i, next, hi, vol.mapOwn);
      DeallocateIndirect(vol, blocks[i], subsize, level - 1, own, at);
      OnlyDataTrans(view0, view1, vol.cache.view, vol.mapOwn);
      ClearJoin(bits0, own, p + 1, at, next);
      at := next;
      left := left - subsize;
      i := i + 1;
    }
  }

  lemma RootAt(view: seq<Block>, bits: seq<bool>, entry: nat, own: seq<nat>, p: nat, level: nat, hi: nat,
      mapOwn: seq<nat>)
    requires Subtree(view, entry, own, p, level) && p < hi && Releasable(view, bits, own, p, hi, mapOwn)
    ensures hi <= |own| && entry == own[p] && entry < |view|
    ensures level > 0 ==> Children(view, Pointers(view[entry]), own, p, level)
    ensures Releasable(view, bits, own, p, p + 1, mapOwn)
  {
  }

  lemma DataUsed(num: nat)
    requires 0 < num <= LevelCapacity(0)
    ensures Used(num, 0) == 1
  {
  }

  lemma NothingCleared(bits: seq<bool>, own: seq<nat>, at: nat)
    requires at <= |own|
    ensures bits == Clear(bits, SetOf(own[at..at]))
  {
  }

  lemma MapUnchanged(vol: Volume)
    requires vol.Ready()
    ensures OnlyDataChanged(vol.cache.view, vol.cache.view, vol.mapOwn)
  {
  }

  lemma ChildReady(view: seq<Block>, after: seq<Block>, bits: seq<bool>, ps: seq<nat>, own: seq<nat>, p: nat,
      level: nat, i: nat,
                   next: nat, hi: nat, mapOwn: seq<nat>)
    requires 1 <= level <= 2 && AtLevel(p, level) && i < INDIRECT_BLOCKS_PER_SECTOR
    requires Children(view, ps, own, p, level) && OnlyDataChanged(view, after, mapOwn)
    requires Releasable(view, bits, own, p, hi, mapOwn)
    requires p + 1 <= ChildPos(p, level, i) <= next <= hi
    ensures |ps| == INDIRECT_BLOCKS_PER_SECTOR && hi <= |own|
    ensures Subtree(after, ps[i], own, ChildPos(p, level, i), level - 1)
    ensures Releasable(after, Clear(bits, SetOf(own[p + 1..ChildPos(p, level, i)])),
                       own, ChildPos(p, level, i), next, mapOwn)
  {
    var c := ChildPos(p, level, i);
    TreeKept(view, after, bits, own, p, hi, mapOwn);
    GrowthElsewhere(own, own, c, c + Span(level - 1));
    ChildLevel(p, level, i);
    SubtreeFrame(view, after, ps[i], own, own, c, level - 1);
    LaterStillMarked(view, bits, own, p + 1, c, hi, mapOwn);
  }

  lemma EntryReady(view: seq<Block>, after: seq<Block>, bits: seq<bool>, own: seq<nat>, p: nat, hi: nat,
      mapOwn: seq<nat>)
    requires Releasable(view, bits, own, p, hi, mapOwn) && p < hi && OnlyDataChanged(view, after, mapOwn)
    ensures Releasable(after, Clear(bits, SetOf(own[p + 1..hi])), own, p, p + 1, mapOwn)
  {
  }

  lemma ClearEntryLast(bits: seq<bool>, own: seq<nat>, p: nat, hi: nat)
    requires p < hi <= |own|
    ensures Clear(Clear(bits, SetOf(own[p + 1..hi])), SetOf(own[p..p + 1])) == Clear(bits, SetOf(own[p..hi]))
  {
    assert own[p..hi] == own[p..p + 1] + own[p + 1..hi];
  }

  lemma DirectReady(view: seq<Block>, after: seq<Block>, bits: seq<bool>, d: DiskInode, own: seq<nat>, i: nat,
      mapOwn: seq<nat>)
    requires Stored(view, d, own) && OnlyDataChanged(view, after, mapOwn)
    requires Releasable(view, bits, own, 0, |own|, mapOwn) && i < DIRECT_BLOCKS_COUNT && i < |own|
    ensures |d.direct| == DIRECT_BLOCKS_COUNT && d.direct[i] == own[i]
    ensures Releasable(after, Clear(bits, SetOf(own[0..i])), own, i, i + 1, mapOwn)
  {
    LaterStillMarked(view, bits, own, 0, i, |own|, mapOwn);
  }

  /** The subtree at `p` is still in place, and still marked, once the positions before it are released. */
  lemma SubtreeReady(view: seq<Block>, after: seq<Block>, bits: seq<bool>, e: nat, own: seq<nat>, p: nat, level: nat,
      hi: nat, mapOwn: seq<nat>)
    requires level <= 2 && AtLevel(p, level) && Subtree(view, e, own, p, level) && OnlyDataChanged(view, after, mapOwn)
    requires Releasable(view, bits, own, 0, |own|, mapOwn) && p <= hi <= |own|
    ensures Subtree(after, e, own, p, level)
    ensures Releasable(after, Clear(bits, SetOf(own[0..p])), own, p, hi, mapOwn)
  {
    TreeKept(view, after, bits, own, 0, |own|, mapOwn);
    GrowthElsewhere(own, own, p, p + Span(level));
    SubtreeFrame(view, after, e, own, own, p, level);
    LaterStillMarked(view, bits, own, 0, p, |own|, mapOwn);
  }

  method DeallocateDirect(vol: Volume, d: DiskInode, l: nat, ghost own: seq<nat>)
    requires vol.Ready() && vol.mapFile != null && Stored(vol.cache.view, d, own)
    requires Releasable(vol.cache.view, vol.freeMap.contents, own, 0, |own|, vol.mapOwn)
    requires l <= |own| && l <= DIRECT_BLOCKS_COUNT
    modifies vol.Repr()
    ensures vol.Ready() && OnlyDataChanged(old(vol.cache.view), vol.cache.view, vol.mapOwn)
    ensures vol.freeMap.contents == Clear(old(vol.freeMap.contents), SetOf(own[0..l]))
  {
    hide Volume.Valid, Volume.Core, Volume.Synced, OnlyDataChanged, Releasable, OnDevice, Clear, SetOf, Stored;
    ghost var view0, bits0 := vol.cache.view, vol.freeMap.contents;
    NothingCleared(bits0, own, 0);
    MapUnchanged(vol);
    var i := 0;
    while i < l
      invariant 0 <= i <= l
      invariant vol.Ready() && OnlyDataChanged(view0, vol.cache.view, vol.mapOwn)
      invariant vol.freeMap.contents == Clear(bits0, SetOf(own[0..i]))
    {
      ghost var view1 := vol.cache.view;
      DirectReady(view0, view1, bits0, d, own, i, vol.mapOwn);
      ReleaseOne(vol, d.direct[i], own, i);
      OnlyDataTrans(view0, view1, vol.cache.view, vol.mapOwn);
      ClearJoin(bits0, own, 0, i, i + 1);
      i := i + 1;
    }
  }

  /** inode_deallocate: every sector of the inode becomes free, and no other bit changes. */
  method InodeDeallocate(vol: Volume, d: DiskInode, ghost own: seq<nat>) returns (ok: bool)
    requires vol.Ready() && vol.mapFile != null
    requires 0 <= d.length ==>
               && Stored(vol.cache.view, d, own)
               && Releasable(vol.cache.view, vol.freeMap.contents, own, 0, |own|, vol.mapOwn)
    modifies vol.Repr()
    ensures vol.Ready() && ok == (0 <= d.length)
    ensures OnlyDataChanged(old(vol.cache.view), vol.cache.view, vol.mapOwn)
    ensures vol.freeMap.contents ==
                if ok then Clear(old(vol.freeMap.contents), SetOf(own)) else old(vol.freeMap.contents)
  {
    hide Volume.Valid, Volume.Core, Volume.Synced, OnlyDataChanged, Releasable, OnDevice, Clear, SetOf, Subtree;
    MapUnchanged(vol);
    if d.length < 0 {
      return false;
    }
    ghost var view0, bits0 := vol.cache.view, vol.freeMap.contents;
    var numSectors := Sectors(d.length);
    TotalSteps(numSectors);
    var l := Min(numSectors, DIRECT_BLOCKS_COUNT);
    DeallocateDirect(vol, d, l, own);
    ghost var at: nat := l;
    numSectors := numSectors - l;

    l := Min(numSectors, INDIRECT_BLOCKS_PER_SECTOR);
    if l > 0 {
      ghost var view1, next := vol.cache.view, INDIRECT_POS + Used(l, 1);
      SubtreeReady(view0, view1, bits0, d.indirect, own, INDIRECT_POS, 1, next, vol.mapOwn);
      DeallocateIndirect(vol, d.indirect, l, 1, own, INDIRECT_POS);
      OnlyDataTrans(view0, view1, vol.cache.view, vol.mapOwn);
      ClearJoin(bits0, own, 0, at, next);
      at := next;
      numSectors := numSectors - l;
    }

    l := Min(numSectors, INDIRECT_BLOCKS_PER_SECTOR * INDIRECT_BLOCKS_PER_SECTOR);
    if l > 0 {
      ghost var view1, next := vol.cache.view, DOUBLY_POS + Used(l, 2);
      SubtreeReady(view0, view1, bits0, d.doubly, own, DOUBLY_POS, 2, next, vol.mapOwn);
      DeallocateIndirect(vol, d.doubly, l, 2, own, DOUBLY_POS);
      OnlyDataTrans(view0, view1, vol.cache.view, vol.mapOwn);
      ClearJoin(bits0, own, 0, at, next);
      at := next;
      numSectors := numSectors - l;
    }
    assert own[0..at] == own;
    return true;
  }

  /** Releasing everything a new inode acquired, over any series of growths, gives back the
      free map it started from. */
  lemma ReleaseUndoesGrowth(bits: seq<bool>, after: seq<bool>, own: seq<nat>)
    requires Grown(bits, [], after, own)
    ensures Clear(after, SetOf(own)) == bits
  {
    GrownPrefix(bits, [], after, own);
    GrownBits(bits, [], after, own);
    assert own[0..] == own;
  }
}
