/** Growing an inode's block tree (inode_reserve, inode_reserve_indirect in inode.c). */
module Reserve {
  import opened Sector
  import opened Geometry
  import opened FreeList
  import opened BlockTree
  import opened FileBytes
  import opened Bitmap
  import opened Volume

  /** The disk as clients of the cache see it, the free map, and one inode's sectors. */
  datatype Snapshot = Snapshot(view: seq<Block>, bits: seq<bool>, own: seq<nat>)

  ghost predicate Sound(s: Snapshot, mapOwn: seq<nat>) {
    && |s.view| == |s.bits| + 1 < WORD_LIMIT && |s.bits| > 0 && s.bits[0]
    && Owned(mapOwn, s.bits) && Private(s.own, s.bits, mapOwn)
  }

  /** Sector `x` is an index block at one of the positions lo .. hi - 1. */
  ghost predicate IndexBlock(own: seq<nat>, lo: nat, hi: nat, x: nat) {
    exists r :: lo <= r < hi && r < |own| && IsIndexPos(r) && own[r] == x
  }

  /** Of the sectors in use at `s`, only the free-map file's, and this inode's index blocks
      at positions lo .. hi - 1, may have changed; sector 0 too if `wiped`. */
  ghost predicate Untouched(s: Snapshot, t: Snapshot, lo: nat, hi: nat, mapOwn: seq<nat>, wiped: bool) {
    && |t.view| == |s.view|
    && forall x :: 0 <= x < |s.bits| && x < |s.view| && s.bits[x] && x !in mapOwn
         && !IndexBlock(s.own, lo, hi, x) && !(wiped && x == 0)
         ==> t.view[x] == s.view[x]
  }

  /** The data sectors added from `s` to `t` are zero-filled. */
  ghost predicate NewDataZero(s: Snapshot, t: Snapshot) {
    forall r :: |s.own| <= r < |t.own| && !IsIndexPos(r) ==> t.own[r] < |t.view| && IsZeroed(t.view[t.own[r]])
  }

  /** The inode gained sectors off the front of the free list, its new data is zero, and no
      one else's contents changed. */
  ghost predicate Advance(s: Snapshot, t: Snapshot, lo: nat, hi: nat, mapOwn: seq<nat>) {
    && Sound(t, mapOwn)
    && Grown(s.bits, s.own, t.bits, t.own)
    && Untouched(s, t, lo, hi, mapOwn, false)
    && NewDataZero(s, t)
  }

  lemma AdvanceTrans(s: Snapshot, t: Snapshot, u: Snapshot, lo: nat, hi: nat, lo1: nat, hi1: nat, mapOwn: seq<nat>)
    requires Sound(s, mapOwn) && Advance(s, t, lo, hi, mapOwn) && Advance(t, u, lo1, hi1, mapOwn)
    requires lo <= lo1 && hi1 <= hi
    ensures Advance(s, u, lo, hi, mapOwn)
  {
    UntouchedTrans(s, t, u, lo, hi, lo1, hi1, mapOwn, false);
    GrownPrefix(t.bits, t.own, u.bits, u.own);
    forall r | |s.own| <= r < |u.own| && !IsIndexPos(r) ensures u.own[r] < |u.view| && IsZeroed(u.view[u.own[r]]) {
      if r < |t.own| {
        assert u.own[r] == t.own[r];
      }
    }
  }

  lemma UntouchedTrans(s: Snapshot, t: Snapshot, u: Snapshot, lo: nat, hi: nat, lo1: nat, hi1: nat, mapOwn: seq<nat>,
      wiped: bool)
    requires Untouched(s, t, lo, hi, mapOwn, false) && Untouched(t, u, lo1, hi1, mapOwn, wiped)
    requires Grown(s.bits, s.own, t.bits, t.own) && lo <= lo1 && hi1 <= hi
    ensures Untouched(s, u, lo, hi, mapOwn, wiped)
  {
    GrownPrefix(s.bits, s.own, t.bits, t.own);
    GrownBits(s.bits, s.own, t.bits, t.own);
  }

  lemma GrownSound(s: Snapshot, t: Snapshot, mapOwn: seq<nat>)
    requires Sound(s, mapOwn) && Grown(s.bits, s.own, t.bits, t.own) && |t.view| == |s.view|
    ensures Sound(t, mapOwn)
  {
    GrownOwned(s.bits, s.own, t.bits, t.own);
    GrownPrefix(s.bits, s.own, t.bits, t.own);
    GrownBits(s.bits, s.own, t.bits, t.own);
    forall r | 0 <= r < |t.own| ensures t.own[r] !in mapOwn {
      assert forall q :: 0 <= q < |mapOwn| ==> s.bits[mapOwn[q]];
    }
  }

  /** What a call that ran out of sectors leaves: nothing is free, and sector 0 has been
      overwritten with zeros if the sector that could not be had was for an index block. */
  ghost predicate RanOut(s: Snapshot, t: Snapshot, from: nat, lo: nat, hi: nat, mapOwn: seq<nat>) {
    && Free(t.bits) == [] && |t.bits| == |s.bits| && |t.view| == |s.view| > 0
    && Untouched(s, t, lo, hi, mapOwn, true)
    && if IsIndexPos(Max(|s.own|, from) + |Free(s.bits)|) then IsZeroed(t.view[0]) else t.view[0] == s.view[0]
  }

  lemma RanOutLater(s: Snapshot, t: Snapshot, u: Snapshot, from: nat, from1: nat, lo: nat, hi: nat, lo1: nat, hi1: nat,
      mapOwn: seq<nat>)
    requires Sound(s, mapOwn) && Advance(s, t, lo, hi, mapOwn) && RanOut(t, u, from1, lo1, hi1, mapOwn)
    requires lo <= lo1 && hi1 <= hi
    requires (from <= |s.own| && from1 <= |t.own|) || (s.own == t.own && from == from1)
    ensures RanOut(s, u, from, lo, hi, mapOwn)
  {
    UntouchedTrans(s, t, u, lo, hi, lo1, hi1, mapOwn, true);
    GrownPrefix(s.bits, s.own, t.bits, t.own);
    assert !IndexBlock(s.own, lo, hi, 0) && 0 !in mapOwn;
  }

  /** Growing the subtree of entry `i` keeps the other entries' subtrees. */
  lemma ChildStep(s: Snapshot, t: Snapshot, ps: seq<nat>, entry: nat, p: nat, level: nat, i: nat, mapOwn: seq<nat>)
    requires 1 <= level <= 2 && AtLevel(p, level) && i < INDIRECT_BLOCKS_PER_SECTOR
    requires Sound(s, mapOwn) && Children(s.view, ps, s.own, p, level)
    requires var c := ChildPos(p, level, i);
             && c <= |s.own| && |t.own| <= Max(|s.own|, c + Span(level - 1))
             && Advance(s, t, c, c + Span(level - 1), mapOwn)
             && Subtree(t.view, entry, t.own, c, level - 1)
    ensures Children(t.view, ps[i := entry], t.own, p, level)
  {
    hide Advance, Subtree, AtLevel, ChildPos;
    forall j | 0 <= j < INDIRECT_BLOCKS_PER_SECTOR && j != i
      ensures Subtree(t.view, ps[j], t.own, ChildPos(p, level, j), level - 1)
    {
      OtherChildKept(s, t, ps, p, level, i, j, mapOwn);
    }
  }

  lemma OtherChildKept(s: Snapshot, t: Snapshot, ps: seq<nat>, p: nat, level: nat, i: nat, j: nat, mapOwn: seq<nat>)
    requires 1 <= level <= 2 && AtLevel(p, level) && i < INDIRECT_BLOCKS_PER_SECTOR && j < INDIRECT_BLOCKS_PER_SECTOR
    requires j != i && Sound(s, mapOwn) && Children(s.view, ps, s.own, p, level)
    requires var c := ChildPos(p, level, i);
             && c <= |s.own| && |t.own| <= Max(|s.own|, c + Span(level - 1))
             && Advance(s, t, c, c + Span(level - 1), mapOwn)
    ensures Subtree(t.view, ps[j], t.own, ChildPos(p, level, j), level - 1)
  {
    hide Subtree, Sound;
    var c, d := ChildPos(p, level, i), ChildPos(p, level, j);
    GrownPrefix(s.bits, s.own, t.bits, t.own);
    ChildLevel(p, level, i);
    ChildLevel(p, level, j);
    GrowthElsewhere(s.own, t.own, d, d + Span(level - 1));
    OtherIndexBlocks(s, t, d, d + Span(level - 1), c, c + Span(level - 1), mapOwn);
    SubtreeFrame(s.view, t.view, ps[j], s.own, t.own, d, level - 1);
  }

  /** Index blocks outside the range being grown keep their contents. */
  lemma OtherIndexBlocks(s: Snapshot, t: Snapshot, lo: nat, hi: nat, lo1: nat, hi1: nat, mapOwn: seq<nat>)
    requires Sound(s, mapOwn) && Untouched(s, t, lo1, hi1, mapOwn, false)
    requires hi <= lo1 || hi1 <= lo
    ensures SameIndexBlocks(s.view, t.view, s.own, lo, hi)
  {
    forall r | lo <= r < hi && r < |s.own| && IsIndexPos(r) ensures t.view[s.own[r]] == s.view[s.own[r]] {
      assert !IndexBlock(s.own, lo1, hi1, s.own[r]);
    }
  }

  lemma AdvanceRefl(s: Snapshot, lo: nat, hi: nat, mapOwn: seq<nat>)
    requires Sound(s, mapOwn)
    ensures Advance(s, s, lo, hi, mapOwn)
  {
  }

  /** What the loop over an index block's entries needs before it visits entry `i`. */
  lemma ChildPre(s0: Snapshot, s: Snapshot, ps: seq<nat>, p: nat, level: nat, i: nat, num: nat, left: nat, subsize: nat,
      mapOwn: seq<nat>)
    requires 1 <= level <= 2 && AtLevel(p, level) && 0 < num <= LevelCapacity(level)
    requires var unit := if level == 1 then 1 else INDIRECT_BLOCKS_PER_SECTOR;
             i < DivRoundUp(num, unit) && left == num - Min(num, i * unit) && subsize == Min(left, unit)
    requires Sound(s0, mapOwn) && Advance(s0, s, p + 1, p + Span(level), mapOwn)
    requires |s.own| == if i == 0 then |s0.own| else Max(|s0.own|, p + Used(num - left, level))
    requires Children(s.view, ps, s.own, p, level)
    requires p < |s0.own| || (Free(s0.bits) == [] && (i == 0 ==> s == s0))
    ensures i + 1 == DivRoundUp(num, if level == 1 then 1 else INDIRECT_BLOCKS_PER_SECTOR) ==> subsize == left
    ensures left - subsize == num - Min(num, (i + 1) * (if level == 1 then 1 else INDIRECT_BLOCKS_PER_SECTOR))
    ensures subsize <= left
    ensures var c := ChildPos(p, level, i);
            && AtLevel(c, level - 1) && 0 < subsize <= LevelCapacity(level - 1)
            && i < |ps| == INDIRECT_BLOCKS_PER_SECTOR && Subtree(s.view, ps[i], s.own, c, level - 1)
            && (c <= |s.own| || Free(s.bits) == [])
            && Used(subsize, level - 1) <= Span(level - 1)
            && p + 1 <= c && c + Span(level - 1) <= p + Span(level)
            && ((p + 1 <= |s0.own| && c <= |s.own|) || (s == s0 && c == p + 1))
            && Max(|s.own|, c + Used(subsize, level - 1)) == Max(|s0.own|, p + Used(num - left + subsize, level))
            && c + Used(subsize, level - 1) <= p + Used(num, level)
    ensures |s.own| + |Free(s.bits)| == |s0.own| + |Free(s0.bits)|
  {
    hide Subtree, AtLevel, ChildPos, Used, Span, Sound, Untouched, NewDataZero;
    ChildArithmetic(p, level, i, num, left, subsize);
    GrownPrefix(s0.bits, s0.own, s.bits, s.own);
  }

  lemma ChildPost(s0: Snapshot, s: Snapshot, t: Snapshot, ps: seq<nat>, entry: nat, p: nat, level: nat, i: nat,
      mapOwn: seq<nat>)
    requires 1 <= level <= 2 && AtLevel(p, level) && i < INDIRECT_BLOCKS_PER_SECTOR
    requires Sound(s0, mapOwn) && Advance(s0, s, p + 1, p + Span(level), mapOwn)
    requires Children(s.view, ps, s.own, p, level)
    requires var c := ChildPos(p, level, i);
             && c <= |s.own| && |t.own| <= Max(|s.own|, c + Span(level - 1))
             && Advance(s, t, c, c + Span(level - 1), mapOwn)
             && Subtree(t.view, entry, t.own, c, level - 1)
    ensures Sound(t, mapOwn) && Advance(s0, t, p + 1, p + Span(level), mapOwn)
    ensures |ps| == INDIRECT_BLOCKS_PER_SECTOR && Children(t.view, ps[i := entry], t.own, p, level)
    ensures |t.own| + |Free(t.bits)| == |s0.own| + |Free(s0.bits)|
  {
    var c := ChildPos(p, level, i);
    ChildLevel(p, level, i);
    ChildStep(s, t, ps, entry, p, level, i, mapOwn);
    AdvanceTrans(s0, s, t, p + 1, p + Span(level), c, c + Span(level - 1), mapOwn);
    GrownPrefix(s0.bits, s0.own, t.bits, t.own);
  }

  /** A freshly zeroed index block has no entries. */
  lemma FreshBlock(view: seq<Block>, b: Block, own: seq<nat>, p: nat, level: nat)
    requires 1 <= level <= 2 && IsZeroed(b) && |own| <= p + 1
    ensures Children(view, Pointers(b), own, p, level)
  {
    assert b == ZEROS;
    ZerosHoldNoPointers();
  }

  ghost predicate Lowest(bits: seq<bool>, f: nat) {
    f < |bits| && !bits[f] && forall i :: 0 <= i < f ==> bits[i]
  }

  lemma AllocStep(s: Snapshot, v: seq<Block>, f: nat, mapOwn: seq<nat>)
    requires Sound(s, mapOwn) && OnlyDataChanged(s.view, v, mapOwn) && Lowest(s.bits, f)
    ensures f < |v| && f !in mapOwn && Free(s.bits) != []
    ensures Sound(Snapshot(v, s.bits[f := true], s.own + [f]), mapOwn)
    ensures Advance(s, Snapshot(v[f := ZEROS], s.bits[f := true], s.own + [f]), 0, 0, mapOwn)
  {
    var t := Snapshot(v[f := ZEROS], s.bits[f := true], s.own + [f]);
    TakeLowest(s.bits, f);
    GrowOne(s.bits, s.own, f);
    GrownSound(s, t, mapOwn);
    assert t.own[|s.own|] == f;
  }

  lemma RootEntry(s: Snapshot, entry: nat, p: nat, level: nat, mapOwn: seq<nat>)
    requires level > 0 && Sound(s, mapOwn) && Subtree(s.view, entry, s.own, p, level)
    ensures entry == 0 <==> |s.own| <= p
    ensures p < |s.own| ==>
              entry == s.own[p] && entry < |s.view| && Children(s.view, Pointers(s.view[entry]), s.own, p, level)
  {
  }

  /** The index block itself could not be had: sector 0 is zeroed and used in its place,
      and the first entry below it fails as well. */
  lemma StarvedBlock(s0: Snapshot, s: Snapshot, t: Snapshot, p: nat, level: nat, lo: nat, hi: nat, mapOwn: seq<nat>)
    requires 1 <= level <= 2 && AtLevel(p, level) && Sound(s0, mapOwn) && |s0.own| <= p && Free(s0.bits) == []
    requires Advance(s0, s, 0, 0, mapOwn) && s.bits == s0.bits && s.own == s0.own
    requires RanOut(s.(view := s.view[0 := ZEROS]), t, p + 1, lo, hi, mapOwn)
    ensures RanOut(s0, t, p, lo, hi, mapOwn)
    ensures lo == p + 1 && hi == p + Span(level) ==> RanOut(s0, t, p, p, p + Span(level), mapOwn)
  {
    ChildLevel(p, level, 0);
    ZerosAreZero();
  }

  lemma DataEntry(s: Snapshot, entry: nat, p: nat, num: nat, level: nat, mapOwn: seq<nat>)
    requires Sound(s, mapOwn) && Subtree(s.view, entry, s.own, p, level) && AtLevel(p, level)
    requires 0 < num <= LevelCapacity(level)
    ensures level == 0 ==> num == 1 && Used(num, level) == 1 && !IsIndexPos(p)
    ensures entry == 0 <==> |s.own| <= p
    ensures Advance(s, s, p, p + Span(level), mapOwn)
  {
  }

  lemma AdvanceWiden(s: Snapshot, t: Snapshot, lo: nat, hi: nat, mapOwn: seq<nat>)
    requires Advance(s, t, 0, 0, mapOwn)
    ensures Advance(s, t, lo, hi, mapOwn)
  {
    assert forall x :: !IndexBlock(s.own, 0, 0, x);
  }

  lemma DataStarved(s: Snapshot, t: Snapshot, p: nat, mapOwn: seq<nat>)
    requires Sound(s, mapOwn) && OnlyDataChanged(s.view, t.view, mapOwn) && t.bits == s.bits
    requires Free(s.bits) == [] && |s.own| <= p && !IsIndexPos(p)
    ensures RanOut(s, t, p, 0, 0, mapOwn) && RanOut(s, t, p, p, p + 1, mapOwn)
  {
  }

  lemma BlockInPlace(s1: Snapshot, s2: Snapshot, ps: seq<nat>, p: nat, level: nat, mapOwn: seq<nat>)
    requires level > 0 && Sound(s1, mapOwn) && p < |s1.own| && Advance(s1, s2, p + 1, p + Span(level), mapOwn)
    requires Children(s2.view, ps, s2.own, p, level)
    ensures |ps| == WORDS_PER_SECTOR && s1.own[p] < |s2.view| && s1.own[p] !in mapOwn
    ensures p < |s2.own| && s2.own[p] == s1.own[p]
  {
    GrownPrefix(s1.bits, s1.own, s2.bits, s2.own);
  }

  lemma BlockReserved(s0: Snapshot, s1: Snapshot, s2: Snapshot, s3: Snapshot, ps: seq<nat>, p: nat, level: nat,
      mapOwn: seq<nat>)
    requires 1 <= level <= 2 && AtLevel(p, level) && p < |s1.own|
    requires Sound(s0, mapOwn) && Advance(s0, s1, 0, 0, mapOwn) && Advance(s1, s2, p + 1, p + Span(level), mapOwn)
    requires Children(s2.view, ps, s2.own, p, level)
    requires p < |s2.own| ==> s3 == s2.(view := s2.view[s2.own[p] := PointerBlock(ps)])
    ensures p < |s2.own| && s2.own[p] == s1.own[p]
    ensures Subtree(s3.view, s2.own[p], s3.own, p, level) && Advance(s0, s3, p, p + Span(level), mapOwn)
  {
    GrownPrefix(s1.bits, s1.own, s2.bits, s2.own);
    StoreBlock(s2, s3, ps, p, level, mapOwn);
    AdvanceRefl(s1, p, p + Span(level), mapOwn);
    AdvanceTrans(s1, s2, s3, p, p + Span(level), p, p + Span(level), mapOwn);
    AdvanceTrans(s0, s1, s3, p, p + Span(level), p, p + Span(level), mapOwn);
  }

  lemma MapOnlyChanged(s: Snapshot, t: Snapshot, mapOwn: seq<nat>)
    requires Sound(s, mapOwn) && OnlyDataChanged(s.view, t.view, mapOwn) && t.bits == s.bits && t.own == s.own
    ensures Sound(t, mapOwn) && Advance(s, t, 0, 0, mapOwn) && 0 !in mapOwn && 0 < |t.view|
  {
  }

  lemma AdvanceSound(s: Snapshot, t: Snapshot, lo: nat, hi: nat, mapOwn: seq<nat>)
    requires Advance(s, t, lo, hi, mapOwn)
    ensures Sound(t, mapOwn)
  {
  }

  /** The index block at `p` is in place: the one already there, one just allocated and
      zeroed, or, if none could be had, sector 0 zeroed in its stead. */
  lemma IndexBlockAt(s0: Snapshot, sa: Snapshot, s1: Snapshot, entry: nat, root: nat, got: bool, p: nat, level: nat,
      mapOwn: seq<nat>)
    requires 1 <= level <= 2 && Sound(s0, mapOwn) && Subtree(s0.view, entry, s0.own, p, level)
    requires p <= |s0.own| || Free(s0.bits) == []
    requires entry != 0 ==> root == entry && s1 == s0
    requires entry == 0 ==>
               OnlyDataChanged(s0.view, sa.view, mapOwn) && root < |sa.view| &&
               s1 == sa.(view := sa.view[root := ZEROS])
    requires entry == 0 && got ==>
               Lowest(s0.bits, root) && sa.own == s0.own + [root] && sa.bits == s0.bits[root := true]
    requires entry == 0 && !got ==> root == 0 && sa.own == s0.own && sa.bits == s0.bits && Free(s0.bits) == []
    ensures root < |s1.view| && root !in mapOwn && Sound(s1, mapOwn)
    ensures Children(s1.view, Pointers(s1.view[root]), s1.own, p, level)
    ensures p < |s1.own| || Free(s1.bits) == []
    ensures entry != 0 || got ==> p < |s1.own| && root == s1.own[p] && Advance(s0, s1, 0, 0, mapOwn)
    ensures entry == 0 && !got ==> |s0.own| <= p && Advance(s0, sa, 0, 0, mapOwn)
    ensures |s1.own| + |Free(s1.bits)| == |s0.own| + |Free(s0.bits)|
    ensures |s1.own| == if entry == 0 && got then p + 1 else |s0.own|
  {
    RootEntry(s0, entry, p, level, mapOwn);
    if entry != 0 {
      AdvanceRefl(s0, 0, 0, mapOwn);
    } else {
      ZerosAreZero();
      if got {
        AllocStep(s0, sa.view, root, mapOwn);
        TakeLowest(s0.bits, root);
      } else {
        MapOnlyChanged(s0, sa, mapOwn);
      }
      FreshBlock(s1.view, ZEROS, s1.own, p, level);
    }
  }

  /** Writing back an index block at position `p` completes its subtree. */
  lemma StoreBlock(s: Snapshot, t: Snapshot, ps: seq<nat>, p: nat, level: nat, mapOwn: seq<nat>)
    requires 1 <= level <= 2 && AtLevel(p, level) && p < |s.own|
    requires Sound(s, mapOwn) && Children(s.view, ps, s.own, p, level)
    requires t == s.(view := s.view[s.own[p] := PointerBlock(ps)])
    ensures Subtree(t.view, s.own[p], t.own, p, level)
    ensures Advance(s, t, p, p + Span(level), mapOwn)
  {
    hide Children, AtLevel, ChildPos, Pointers, PointerBlock;
    var root := s.own[p];
    ChildLevel(p, level, 0);
    EntriesFit(s, ps, p, level, mapOwn);
    PointersRoundTrip(ps);
    assert IndexBlock(s.own, p, p + Span(level), root);
    GrowthElsewhere(s.own, t.own, p + 1, p + Span(level));
    assert SameIndexBlocks(s.view, t.view, s.own, p + 1, p + Span(level));
    ChildrenFrame(s.view, t.view, ps, s.own, t.own, p, level);
  }

  lemma EntriesFit(s: Snapshot, ps: seq<nat>, p: nat, level: nat, mapOwn: seq<nat>)
    requires level > 0 && Sound(s, mapOwn) && Children(s.view, ps, s.own, p, level)
    ensures |ps| == WORDS_PER_SECTOR && AreWords(ps)
  {
    forall j | 0 <= j < INDIRECT_BLOCKS_PER_SECTOR ensures ps[j] < WORD_LIMIT {
      assert Subtree(s.view, ps[j], s.own, ChildPos(p, level, j), level - 1);
    }
  }

  /** A single-sector run is the head of the free list. */
  lemma RunOfOne(bits: seq<bool>, f: nat)
    requires Run(bits, f, 1, false) && forall j :: 0 <= j < f ==> !Run(bits, j, 1, false)
    ensures Lowest(bits, f)
    ensures SetRange(bits, f, 1, true) == bits[f := true]
  {
    forall i | 0 <= i < f ensures bits[i] {
      assert !Run(bits, i, 1, false);
    }
  }

  lemma NoRunNoFree(bits: seq<bool>)
    requires forall j :: 0 <= j ==> !Run(bits, j, 1, false)
    ensures Free(bits) == []
  {
    forall i | 0 <= i < |bits| ensures bits[i] {
      assert !Run(bits, i, 1, false);
    }
    NoPositions(bits, false, |bits|);
  }

  ghost function Now(vol: Volume, own: seq<nat>): Snapshot
    reads vol.cache, vol.freeMap
  {
    Snapshot(vol.cache.view, vol.freeMap.contents, own)
  }

  /** The state in which an inode owning `own` may be grown. */
  ghost predicate CanGrow(vol: Volume, own: seq<nat>)
    reads vol, vol.Repr(), vol.mapFile
  {
    vol.Ready() && Sound(Now(vol, own), vol.mapOwn)
  }

  /** free_map_allocate(1, ..): takes the head of the free list. */
  method AllocateOne(vol: Volume, ghost own: seq<nat>) returns (ok: bool, sector: nat, ghost grown: seq<nat>)
    requires CanGrow(vol, own)
    modifies vol.Repr()
    ensures CanGrow(vol, grown) && OnlyDataChanged(old(vol.cache.view), vol.cache.view, vol.mapOwn)
    ensures ok == (Free(old(vol.freeMap.contents)) != [])
    ensures ok ==> grown == own + [sector] && Lowest(old(vol.freeMap.contents), sector)
    ensures ok ==> vol.freeMap.contents == old(vol.freeMap.contents)[sector := true]
    ensures !ok ==> grown == own && vol.freeMap.contents == old(vol.freeMap.contents)
  {
    hide Volume.Valid, Volume.Core, Volume.Synced, Advance, Sound, OnlyDataChanged, IsZeroed;
    ghost var before := Now(vol, own);
    ok, sector := vol.Allocate(1);
    grown := own;
    if ok {
      RunOfOne(before.bits, sector);
      grown := own + [sector];
      AllocStep(before, vol.cache.view, sector, vol.mapOwn);
    } else {
      NoRunNoFree(before.bits);
      MapOnlyChanged(before, Now(vol, own), vol.mapOwn);
    }
  }

  /** Allocating and zero-filling one data sector. */
  method ReserveData(vol: Volume, ghost own: seq<nat>, ghost p: nat) returns (ok: bool, sector: nat,
      ghost grown: seq<nat>)
    requires CanGrow(vol, own) && !IsIndexPos(p)
    requires p == |own| || (p > |own| && Free(vol.freeMap.contents) == [])
    modifies vol.Repr()
    ensures vol.Ready() && ok == (Free(old(vol.freeMap.contents)) != [])
    ensures ok ==> grown == own + [sector]
    ensures ok ==> Advance(old(Now(vol, own)), Now(vol, grown), p, p + 1, vol.mapOwn)
    ensures !ok ==> RanOut(old(Now(vol, own)), Now(vol, grown), p, p, p + 1, vol.mapOwn)
    ensures !ok ==> RanOut(old(Now(vol, own)), Now(vol, grown), p, 0, 0, vol.mapOwn)
  {
    hide Volume.Valid, Volume.Core, Volume.Synced, Advance, Sound, OnlyDataChanged, IsZeroed;
    ghost var s0 := Now(vol, own);
    ok, sector, grown := AllocateOne(vol, own);
    if ok {
      AllocStep(s0, vol.cache.view, sector, vol.mapOwn);
      vol.WriteSector(sector, ZEROS);
      AdvanceWiden(s0, Now(vol, grown), p, p + 1, vol.mapOwn);
    } else {
      DataStarved(s0, Now(vol, grown), p, vol.mapOwn);
    }
  }

  /** All but the last of the first `num` data sectors of the subtree at `p` are there. */
  predicate Covered(num: nat, level: nat, owned: nat, p: nat)
    requires num > 0
  {
    num == 1 || p + Used(num - 1, level) <= owned
  }

  /** inode_reserve_indirect for the subtree at position `p`, whose root entry is `entry`. */
  method ReserveIndirect(vol: Volume, entry: nat, num: nat, level: nat, ghost own: seq<nat>, ghost p: nat)
    returns (ok: bool, root: nat, ghost grown: seq<nat>)
    requires CanGrow(vol, own)
    requires level <= 2 && AtLevel(p, level) && 0 < num <= LevelCapacity(level)
    requires Subtree(vol.cache.view, entry, own, p, level)
    requires p <= |own| || Free(vol.freeMap.contents) == []
    modifies vol.Repr()
    ensures vol.Ready()
    ensures ok == (p + Used(num, level) <= |own| + |Free(old(vol.freeMap.contents))|)
    ensures ok ==> |grown| == Max(|own|, p + Used(num, level))
    ensures ok ==> Subtree(vol.cache.view, root, grown, p, level)
    ensures ok ==> Advance(old(Now(vol, own)), Now(vol, grown), p, p + Span(level), vol.mapOwn)
    ensures !ok ==> RanOut(old(Now(vol, own)), Now(vol, grown), p, p, p + Span(level), vol.mapOwn)
    ensures ok && |grown| == |own| ==>
              grown == own && Advance(old(Now(vol, own)), Now(vol, grown), 0, 0, vol.mapOwn)
    ensures !ok && Covered(num, level, |own|, p) ==>
              RanOut(old(Now(vol, own)), Now(vol, grown), p, 0, 0, vol.mapOwn)
    decreases level, 1
  {
    hide Volume.Valid, Volume.Core, Volume.Synced, Sound, IsZeroed, Children, AtLevel, RanOut, Advance;
    root, grown := entry, own;
    ok := true;
    DataEntry(Now(vol, own), entry, p, num, level, vol.mapOwn);
    AdvanceRefl(Now(vol, own), 0, 0, vol.mapOwn);
    if level == 0 {
      if entry == 0 {
        ok, root, grown := ReserveData(vol, own, p);
      }
    } else {
      ok, root, grown := ReserveIndexBlock(vol, entry, num, level, own, p);
    }
  }

  /** The index block's sector, allocated and zeroed if there was none. When no sector is free (`starved`)
      that goes unnoticed and sector 0 is zeroed; `sa` is the state just before. */
  method RootBlock(vol: Volume, entry: nat, level: nat, ghost own: seq<nat>, ghost p: nat)
    returns (root: nat, block: Block, ghost grown: seq<nat>, ghost sa: Snapshot, ghost starved: bool)
    requires CanGrow(vol, own) && 1 <= level <= 2 && Subtree(vol.cache.view, entry, own, p, level)
    requires p <= |own| || Free(vol.freeMap.contents) == []
    modifies vol.Repr()
    ensures CanGrow(vol, grown) && root < |vol.cache.view| && root !in vol.mapOwn && block == vol.cache.view[root]
    ensures Children(vol.cache.view, Pointers(block), grown, p, level)
    ensures p < |grown| || Free(vol.freeMap.contents) == []
    ensures |grown| + |Free(vol.freeMap.contents)| == |own| + |Free(old(vol.freeMap.contents))|
    ensures p < |own| ==> !starved && grown == own && Now(vol, grown) == old(Now(vol, own))
    ensures !starved ==>
              && p < |grown| && root == grown[p] && |grown| == Max(|own|, p + 1)
              && Advance(old(Now(vol, own)), Now(vol, grown), 0, 0, vol.mapOwn)
    ensures starved ==>
              && |own| <= p && Free(old(vol.freeMap.contents)) == [] && |sa.view| > 0
              && Now(vol, grown) == sa.(view := sa.view[0 := ZEROS])
              && sa.own == grown == own && sa.bits == old(vol.freeMap.contents)
              && Advance(old(Now(vol, own)), sa, 0, 0, vol.mapOwn)
  {
    hide Volume.Valid, Volume.Core, Volume.Synced, Children, Subtree, Advance, RanOut, Sound, IsZeroed;
    root, grown := entry, own;
    ghost var s0 := Now(vol, own);
    sa, starved := s0, false;
    RootEntry(s0, entry, p, level, vol.mapOwn);
    if entry == 0 {
      var got, s;
      got, s, grown := AllocateOne(vol, own);
      sa, starved := Now(vol, grown), !got;
      if got {
        root := s;
        AllocStep(s0, sa.view, s, vol.mapOwn);
      } else {
        MapOnlyChanged(s0, sa, vol.mapOwn);
      }
      vol.WriteSector(root, ZEROS);
    }
    IndexBlockAt(s0, sa, Now(vol, grown), entry, root, !starved, p, level, vol.mapOwn);
    block := vol.ReadSector(root);
  }

  /** inode_reserve_indirect at level 1 or 2. The result of the allocation of the index
      block itself is ignored. */
  method ReserveIndexBlock(vol: Volume, entry: nat, num: nat, level: nat, ghost own: seq<nat>, ghost p: nat)
    returns (ok: bool, root: nat, ghost grown: seq<nat>)
    requires CanGrow(vol, own)
    requires 1 <= level <= 2 && AtLevel(p, level) && 0 < num <= LevelCapacity(level)
    requires Subtree(vol.cache.view, entry, own, p, level)
    requires p <= |own| || Free(vol.freeMap.contents) == []
    modifies vol.Repr()
    ensures vol.Ready()
    ensures ok == (p + Used(num, level) <= |own| + |Free(old(vol.freeMap.contents))|)
    ensures ok ==> |grown| == Max(|own|, p + Used(num, level))
    ensures ok ==> Subtree(vol.cache.view, root, grown, p, level)
    ensures ok ==> Advance(old(Now(vol, own)), Now(vol, grown), p, p + Span(level), vol.mapOwn)
    ensures !ok ==> RanOut(old(Now(vol, own)), Now(vol, grown), p, p, p + Span(level), vol.mapOwn)
    ensures ok && |grown| == |own| ==>
              grown == own && Advance(old(Now(vol, own)), Now(vol, grown), 0, 0, vol.mapOwn)
    ensures !ok && Covered(num, level, |own|, p) ==>
              RanOut(old(Now(vol, own)), Now(vol, grown), p, 0, 0, vol.mapOwn)
    decreases level, 0, 1
  {
    hide Volume.Valid, Volume.Core, Volume.Synced, Children, Subtree, Advance, RanOut, Sound, AtLevel, IsZeroed;
    ghost var s0 := Now(vol, own);
    var block;
    ghost var sa, starved;
    root, block, grown, sa, starved := RootBlock(vol, entry, level, own, p);
    ghost var s1 := Now(vol, grown);
    var blocks := Pointers(block);
    ok, blocks, grown := ReserveChildren(vol, blocks, num, level, s1.own, p);
    ghost var s2 := Now(vol, grown);
    if ok {
      BlockInPlace(s1, s2, blocks, p, level, vol.mapOwn);
      vol.WriteSector(root, PointerBlock(blocks));
      BlockReserved(s0, s1, s2, Now(vol, grown), blocks, p, level, vol.mapOwn);
      if |grown| == |own| {
        SameEntries(s1, s2, block, blocks, p, level, vol.mapOwn);
      }
    } else if starved {
      StarvedBlock(s0, sa, s2, p, level, p + 1, p + Span(level), vol.mapOwn);
      if Covered(num, level, |own|, p) {
        StarvedBlock(s0, sa, s2, p, level, 0, 0, vol.mapOwn);
      }
    } else {
      AdvanceWiden(s0, s1, p, p + Span(level), vol.mapOwn);
      RanOutLater(s0, s1, s2, p, p + 1, p, p + Span(level), p + 1, p + Span(level), vol.mapOwn);
      if Covered(num, level, |own|, p) {
        RanOutLater(s0, s1, s2, p, p + 1, 0, 0, 0, 0, vol.mapOwn);
      }
    }
  }

  /** Without growth the index block is written back as it was. */
  lemma SameEntries(s: Snapshot, t: Snapshot, block: Block, blocks: seq<nat>, p: nat, level: nat, mapOwn: seq<nat>)
    requires level > 0 && p < |s.own| && s.own[p] < |s.view| && block == s.view[s.own[p]] && t.own == s.own
    requires Children(s.view, Pointers(block), s.own, p, level) && Children(t.view, blocks, t.own, p, level)
    requires Sound(s, mapOwn) && Advance(s, t, 0, 0, mapOwn)
    ensures |blocks| == WORDS_PER_SECTOR && PointerBlock(blocks) == block
    ensures s.own[p] < |t.view| && t.view[s.own[p] := block] == t.view
  {
    var entries := Pointers(block);
    forall j | 0 <= j < INDIRECT_BLOCKS_PER_SECTOR ensures blocks[j] == entries[j] {
      assert Subtree(s.view, entries[j], s.own, ChildPos(p, level, j), level - 1);
      assert Subtree(t.view, blocks[j], t.own, ChildPos(p, level, j), level - 1);
    }
    assert blocks == entries;
    BlockRoundTrip(block);
    assert !IndexBlock(s.own, 0, 0, s.own[p]);
  }

  /** The loop of inode_reserve_indirect over the entries of one index block. */
  method ReserveChildren(vol: Volume, entries: seq<nat>, num: nat, level: nat, ghost own: seq<nat>, ghost p: nat)
    returns (ok: bool, blocks: seq<nat>, ghost grown: seq<nat>)
    requires CanGrow(vol, own)
    requires 1 <= level <= 2 && AtLevel(p, level) && 0 < num <= LevelCapacity(level)
    requires Children(vol.cache.view, entries, own, p, level)
    requires p < |own| || Free(vol.freeMap.contents) == []
    modifies vol.Repr()
    ensures vol.Ready()
    ensures ok == (p + Used(num, level) <= |own| + |Free(old(vol.freeMap.contents))|)
    ensures ok ==> |grown| == Max(|own|, p + Used(num, level))
    ensures ok ==> Children(vol.cache.view, blocks, grown, p, level)
    ensures ok ==> Advance(old(Now(vol, own)), Now(vol, grown), p + 1, p + Span(level), vol.mapOwn)
    ensures !ok ==> RanOut(old(Now(vol, own)), Now(vol, grown), p + 1, p + 1, p + Span(level), vol.mapOwn)
    ensures ok && |grown| == |own| ==>
              grown == own && Advance(old(Now(vol, own)), Now(vol, grown), 0, 0, vol.mapOwn)
    ensures !ok && Covered(num, level, |own|, p) ==>
              RanOut(old(Now(vol, own)), Now(vol, grown), p + 1, 0, 0, vol.mapOwn)
    decreases level, 0, 0
  {
    hide Volume.Valid, Volume.Core, Volume.Synced, Children, Subtree, Advance, RanOut, Sound, ChildPos, Used, AtLevel;
    hide DivRoundUp, LevelCapacity;
    ChildLoopStart(p, level, num);
    blocks, grown := entries, own;
    ghost var s0 := Now(vol, own);
    var unit := if level == 1 then 1 else INDIRECT_BLOCKS_PER_SECTOR;
    var i, l, left := 0, DivRoundUp(num, unit), num;
    AdvanceRefl(s0, p + 1, p + Span(level), vol.mapOwn);
    AdvanceRefl(s0, 0, 0, vol.mapOwn);
    while i < l
      invariant 0 <= i <= l && left == num - Min(num, i * unit)
      invariant i == l ==> left == 0
      invariant vol.Ready() && Sound(Now(vol, grown), vol.mapOwn)
      invariant Advance(s0, Now(vol, grown), p + 1, p + Span(level), vol.mapOwn)
      invariant |grown| == if i == 0 then |own| else Max(|own|, p + Used(num - left, level))
      invariant i == 0 ==> Now(vol, grown) == s0
      invariant Children(vol.cache.view, blocks, grown, p, level)
      invariant |grown| + |Free(vol.freeMap.contents)| == |own| + |Free(s0.bits)|
      invariant |grown| == |own| ==> grown == own && Advance(s0, Now(vol, grown), 0, 0, vol.mapOwn)
    {
      var subsize := Min(left, unit);
      ghost var c := ChildPos(p, level, i);
      ghost var s1 := Now(vol, grown);
      ChildPre(s0, s1, blocks, p, level, i, num, left, subsize, vol.mapOwn);
      var entry;
      ok, entry, grown := ReserveIndirect(vol, blocks[i], subsize, level - 1, s1.own, c);
      if !ok {
        RanOutLater(s0, s1, Now(vol, grown), p + 1, c, p + 1, p + Span(level), c, c + Span(level - 1), vol.mapOwn);
        if Covered(num, level, |own|, p) {
          LastChild(p, level, i, num, left, subsize, |own|, |s1.own|);
          RanOutLater(s0, s1, Now(vol, grown), p + 1, c, 0, 0, 0, 0, vol.mapOwn);
        }
        return;
      }
      ChildPost(s0, s1, Now(vol, grown), blocks, entry, p, level, i, vol.mapOwn);
      if |grown| == |own| {
        AdvanceTrans(s0, s1, Now(vol, grown), 0, 0, 0, 0, vol.mapOwn);
      }
      blocks := blocks[i := entry];
      left := left - subsize;
      i := i + 1;
    }
    assert left == 0;
    return true, blocks, grown;
  }

  /** When all but the last data sector are there, nothing has grown before the last child, and the
      child lacks no more than its own last sector. */
  lemma LastChild(p: nat, level: nat, i: nat, num: nat, left: nat, subsize: nat, owned: nat, grown: nat)
    requires 1 <= level <= 2 && AtLevel(p, level) && 0 < num <= LevelCapacity(level) && Covered(num, level, owned, p)
    requires var unit := if level == 1 then 1 else INDIRECT_BLOCKS_PER_SECTOR;
             i < DivRoundUp(num, unit) && left == num - Min(num, i * unit) && subsize == Min(left, unit)
    requires grown == if i == 0 then owned else Max(owned, p + Used(num - left, level))
    ensures subsize > 0 && grown == owned
    ensures Covered(subsize, level - 1, grown, ChildPos(p, level, i))
  {
    ChildArithmetic(p, level, i, num, left, subsize);
  }

  /** One more direct slot is visited; `sector` is what it now holds. */
  lemma DirectStep(s: Snapshot, t: Snapshot, d: DiskInode, i: nat, sector: nat, mapOwn: seq<nat>)
    requires i < DIRECT_BLOCKS_COUNT && i == |s.own| && Sound(s, mapOwn) && Tree(s.view, d, s.own)
    requires t.own == s.own + [sector] && Advance(s, t, i, i + 1, mapOwn)
    ensures Tree(t.view, d.(direct := d.direct[i := sector]), t.own)
  {
    hide Subtree, Children;
    GrowthElsewhere(s.own, t.own, INDIRECT_POS, INDIRECT_POS + Span(1));
    GrowthElsewhere(s.own, t.own, DOUBLY_POS, DOUBLY_POS + Span(2));
    OtherIndexBlocks(s, t, INDIRECT_POS, INDIRECT_POS + Span(1), i, i + 1, mapOwn);
    OtherIndexBlocks(s, t, DOUBLY_POS, DOUBLY_POS + Span(2), i, i + 1, mapOwn);
    SubtreeFrame(s.view, t.view, d.indirect, s.own, t.own, INDIRECT_POS, 1);
    SubtreeFrame(s.view, t.view, d.doubly, s.own, t.own, DOUBLY_POS, 2);
  }

  /** The single indirect block's subtree was grown and now has root `root`. */
  lemma IndirectStep(s: Snapshot, t: Snapshot, d: DiskInode, root: nat, mapOwn: seq<nat>)
    requires Sound(s, mapOwn) && Tree(s.view, d, s.own) && INDIRECT_POS <= |s.own|
    requires |t.own| <= Max(|s.own|, DOUBLY_POS)
    requires Advance(s, t, INDIRECT_POS, INDIRECT_POS + Span(1), mapOwn)
    requires Subtree(t.view, root, t.own, INDIRECT_POS, 1)
    ensures Tree(t.view, d.(indirect := root), t.own)
  {
    hide Subtree, Children;
    GrownPrefix(s.bits, s.own, t.bits, t.own);
    GrowthElsewhere(s.own, t.own, DOUBLY_POS, DOUBLY_POS + Span(2));
    OtherIndexBlocks(s, t, DOUBLY_POS, DOUBLY_POS + Span(2), INDIRECT_POS, INDIRECT_POS + Span(1), mapOwn);
    SubtreeFrame(s.view, t.view, d.doubly, s.own, t.own, DOUBLY_POS, 2);
  }

  lemma DoublyStep(s: Snapshot, t: Snapshot, d: DiskInode, root: nat, mapOwn: seq<nat>)
    requires Sound(s, mapOwn) && Tree(s.view, d, s.own) && DOUBLY_POS <= |s.own|
    requires Advance(s, t, DOUBLY_POS, DOUBLY_POS + Span(2), mapOwn) && Subtree(t.view, root, t.own, DOUBLY_POS, 2)
    ensures Tree(t.view, d.(doubly := root), t.own)
  {
    hide Subtree, Children;
    GrownPrefix(s.bits, s.own, t.bits, t.own);
    GrowthElsewhere(s.own, t.own, INDIRECT_POS, INDIRECT_POS + Span(1));
    OtherIndexBlocks(s, t, INDIRECT_POS, INDIRECT_POS + Span(1), DOUBLY_POS, DOUBLY_POS + Span(2), mapOwn);
    SubtreeFrame(s.view, t.view, d.indirect, s.own, t.own, INDIRECT_POS, 1);
  }

  lemma DirectEntry(s: Snapshot, d: DiskInode, i: nat, mapOwn: seq<nat>)
    requires i < DIRECT_BLOCKS_COUNT && i <= |s.own| && Sound(s, mapOwn) && Tree(s.view, d, s.own)
    ensures |d.direct| == DIRECT_BLOCKS_COUNT && (d.direct[i] == 0 <==> i == |s.own|) && !IsIndexPos(i)
  {
  }

  /** The list of owned and free sectors together has constant length. */
  lemma AdvanceLength(s: Snapshot, t: Snapshot, lo: nat, hi: nat, mapOwn: seq<nat>)
    requires Advance(s, t, lo, hi, mapOwn)
    ensures |t.own| + |Free(t.bits)| == |s.own| + |Free(s.bits)| && |s.own| <= |t.own|
  {
    GrownPrefix(s.bits, s.own, t.bits, t.own);
  }

  ghost predicate SameHeader(d: DiskInode, e: DiskInode) {
    |e.direct| == |d.direct| && e.isDir == d.isDir && e.length == d.length && e.magic == d.magic
  }

  /** Step (1) of inode_reserve: the first `l` direct slots. */
  method ReserveDirect(vol: Volume, inode: DiskInode, l: nat, ghost own: seq<nat>)
    returns (ok: bool, d: DiskInode, ghost grown: seq<nat>)
    requires CanGrow(vol, own) && Tree(vol.cache.view, inode, own) && l <= DIRECT_BLOCKS_COUNT
    modifies vol.Repr()
    ensures vol.Ready() && SameHeader(inode, d)
    ensures ok == (l <= |own| + |Free(old(vol.freeMap.contents))|)
    ensures ok ==> |grown| == Max(|own|, l) && Tree(vol.cache.view, d, grown)
    ensures ok ==> Advance(old(Now(vol, own)), Now(vol, grown), 0, ALL_POSITIONS, vol.mapOwn)
    ensures !ok ==> RanOut(old(Now(vol, own)), Now(vol, grown), 0, 0, ALL_POSITIONS, vol.mapOwn)
    ensures ok && |grown| == |own| ==> Now(vol, grown) == old(Now(vol, own)) && d == inode
    ensures !ok && l <= |own| + 1 ==> RanOut(old(Now(vol, own)), Now(vol, grown), 0, 0, 0, vol.mapOwn)
  {
    hide Volume.Valid, Volume.Core, Volume.Synced, Sound, Tree, RanOut, Advance, Total;
    d, grown := inode, own;
    ghost var s0 := Now(vol, own);
    ghost var hi := ALL_POSITIONS;
    AdvanceRefl(s0, 0, hi, vol.mapOwn);
    var i := 0;
    while i < l
      invariant 0 <= i <= l
      invariant CanGrow(vol, grown) && SameHeader(inode, d)
      invariant Advance(s0, Now(vol, grown), 0, hi, vol.mapOwn)
      invariant |grown| == Max(|own|, i) && |grown| + |Free(vol.freeMap.contents)| == |own| + |Free(s0.bits)|
      invariant Tree(vol.cache.view, d, grown)
      invariant |grown| == |own| ==> Now(vol, grown) == s0 && d == inode
    {
      ghost var s1 := Now(vol, grown);
      DirectEntry(s1, d, i, vol.mapOwn);
      if d.direct[i] == 0 {
        var sector;
        ok, sector, grown := ReserveData(vol, grown, i);
        ghost var s2 := Now(vol, grown);
        if !ok {
          RanOutLater(s0, s1, s2, 0, i, 0, hi, i, i + 1, vol.mapOwn);
          if i == |own| {
            AdvanceRefl(s0, 0, 0, vol.mapOwn);
            RanOutLater(s0, s1, s2, 0, i, 0, 0, 0, 0, vol.mapOwn);
          }
          return;
        }
        DirectStep(s1, s2, d, i, sector, vol.mapOwn);
        AdvanceTrans(s0, s1, s2, 0, hi, i, i + 1, vol.mapOwn);
        AdvanceSound(s0, s2, 0, hi, vol.mapOwn);
        AdvanceLength(s0, s2, 0, hi, vol.mapOwn);
        d := d.(direct := d.direct[i := sector]);
      }
      i := i + 1;
    }
    ok := true;
  }

  lemma AdvanceWithin(s: Snapshot, t: Snapshot, lo: nat, hi: nat, lo1: nat, hi1: nat, mapOwn: seq<nat>)
    requires Sound(s, mapOwn) && Advance(s, t, lo1, hi1, mapOwn) && lo <= lo1 && hi1 <= hi
    ensures Advance(s, t, lo, hi, mapOwn)
  {
    AdvanceRefl(s, lo, hi, mapOwn);
    AdvanceTrans(s, s, t, lo, hi, lo1, hi1, mapOwn);
  }

  /** Step (2) of inode_reserve: the first `l` entries of the single indirect block. */
  method ReserveSingle(vol: Volume, inode: DiskInode, l: nat, ghost own: seq<nat>)
    returns (ok: bool, d: DiskInode, ghost grown: seq<nat>)
    requires CanGrow(vol, own) && Tree(vol.cache.view, inode, own)
    requires INDIRECT_POS <= |own| && 0 < l <= INDIRECT_BLOCKS_PER_SECTOR
    modifies vol.Repr()
    ensures vol.Ready() && SameHeader(inode, d)
    ensures ok == (INDIRECT_POS + Used(l, 1) <= |own| + |Free(old(vol.freeMap.contents))|)
    ensures ok ==> |grown| == Max(|own|, INDIRECT_POS + Used(l, 1)) && Tree(vol.cache.view, d, grown)
    ensures ok ==> Advance(old(Now(vol, own)), Now(vol, grown), 0, ALL_POSITIONS, vol.mapOwn)
    ensures !ok ==> RanOut(old(Now(vol, own)), Now(vol, grown), 0, 0, ALL_POSITIONS, vol.mapOwn)
    ensures ok && |grown| == |own| ==>
              grown == own && Advance(old(Now(vol, own)), Now(vol, grown), 0, 0, vol.mapOwn)
    ensures !ok && Covered(l, 1, |own|, INDIRECT_POS) ==>
              RanOut(old(Now(vol, own)), Now(vol, grown), 0, 0, 0, vol.mapOwn)
  {
    hide Volume.Valid, Volume.Core, Volume.Synced, Sound, Tree, RanOut, Advance, Subtree;
    ghost var s := Now(vol, own);
    TreeRoots(s.view, inode, own);
    var root;
    ok, root, grown := ReserveIndirect(vol, inode.indirect, l, 1, own, INDIRECT_POS);
    d := inode.(indirect := root);
    ghost var t := Now(vol, grown);
    if ok {
      IndirectStep(s, t, inode, root, vol.mapOwn);
      AdvanceWithin(s, t, 0, ALL_POSITIONS, INDIRECT_POS, INDIRECT_POS + Span(1), vol.mapOwn);
    } else {
      AdvanceRefl(s, 0, ALL_POSITIONS, vol.mapOwn);
      RanOutLater(s, s, t, 0, INDIRECT_POS, 0, ALL_POSITIONS, INDIRECT_POS, INDIRECT_POS + Span(1), vol.mapOwn);
      if Covered(l, 1, |own|, INDIRECT_POS) {
        AdvanceRefl(s, 0, 0, vol.mapOwn);
        RanOutLater(s, s, t, 0, INDIRECT_POS, 0, 0, 0, 0, vol.mapOwn);
      }
    }
  }

  /** Step (3) of inode_reserve: the first `l` sectors under the doubly indirect block. */
  method ReserveDoubly(vol: Volume, inode: DiskInode, l: nat, ghost own: seq<nat>)
    returns (ok: bool, d: DiskInode, ghost grown: seq<nat>)
    requires CanGrow(vol, own) && Tree(vol.cache.view, inode, own)
    requires DOUBLY_POS <= |own| && 0 < l <= INDIRECT_BLOCKS_PER_SECTOR * INDIRECT_BLOCKS_PER_SECTOR
    modifies vol.Repr()
    ensures vol.Ready() && SameHeader(inode, d)
    ensures ok == (DOUBLY_POS + Used(l, 2) <= |own| + |Free(old(vol.freeMap.contents))|)
    ensures ok ==> |grown| == Max(|own|, DOUBLY_POS + Used(l, 2)) && Tree(vol.cache.view, d, grown)
    ensures ok ==> Advance(old(Now(vol, own)), Now(vol, grown), 0, ALL_POSITIONS, vol.mapOwn)
    ensures !ok ==> RanOut(old(Now(vol, own)), Now(vol, grown), 0, 0, ALL_POSITIONS, vol.mapOwn)
    ensures ok && |grown| == |own| ==>
              grown == own && Advance(old(Now(vol, own)), Now(vol, grown), 0, 0, vol.mapOwn)
    ensures !ok && Covered(l, 2, |own|, DOUBLY_POS) ==>
              RanOut(old(Now(vol, own)), Now(vol, grown), 0, 0, 0, vol.mapOwn)
  {
    hide Volume.Valid, Volume.Core, Volume.Synced, Sound, Tree, RanOut, Advance, Subtree;
    ghost var s := Now(vol, own);
    TreeRoots(s.view, inode, own);
    var root;
    ok, root, grown := ReserveIndirect(vol, inode.doubly, l, 2, own, DOUBLY_POS);
    d := inode.(doubly := root);
    ghost var t := Now(vol, grown);
    if ok {
      DoublyStep(s, t, inode, root, vol.mapOwn);
      AdvanceWithin(s, t, 0, ALL_POSITIONS, DOUBLY_POS, DOUBLY_POS + Span(2), vol.mapOwn);
    } else {
      AdvanceRefl(s, 0, ALL_POSITIONS, vol.mapOwn);
      RanOutLater(s, s, t, 0, DOUBLY_POS, 0, ALL_POSITIONS, DOUBLY_POS, DOUBLY_POS + Span(2), vol.mapOwn);
      if Covered(l, 2, |own|, DOUBLY_POS) {
        AdvanceRefl(s, 0, 0, vol.mapOwn);
        RanOutLater(s, s, t, 0, DOUBLY_POS, 0, 0, 0, 0, vol.mapOwn);
      }
    }
  }

  /** Whether growing to `length` bytes is possible at all, and affordable. */
  predicate Reservable(length: int, owned: nat, free: nat) {
    0 <= length && Sectors(length) <= CAPACITY && Total(Sectors(length)) <= owned + free
  }

  /** Enough sectors for all of `length` that an inode can hold. */
  predicate Affordable(length: nat, owned: nat, free: nat) {
    Total(Min(Sectors(length), CAPACITY)) <= owned + free
  }

  /** All but the last of the sectors that `length` bytes need are there, or all that an inode can hold. */
  predicate Nearly(length: nat, owned: nat) {
    Sectors(length) == 0 || Total(Min(Sectors(length) - 1, CAPACITY)) <= owned
  }

  /** What `Nearly` means for the three steps of inode_reserve. */
  lemma NearlySteps(length: nat, owned: nat)
    requires Nearly(length, owned)
    ensures var n := Sectors(length);
            && (n <= DIRECT_BLOCKS_COUNT ==> n <= owned + 1)
            && (n > DIRECT_BLOCKS_COUNT ==> DIRECT_BLOCKS_COUNT <= owned)
            && (DIRECT_BLOCKS_COUNT < n <= 251 ==> Covered(n - DIRECT_BLOCKS_COUNT, 1, owned, INDIRECT_POS))
            && (n > 251 ==> DOUBLY_POS <= owned && Covered(Min(n - 251, LevelCapacity(2)), 2, owned, DOUBLY_POS))
            && (n > CAPACITY ==> Total(Min(n, CAPACITY)) <= owned)
  {
  }

  /** inode_reserve: grows the tree so that it can hold `length` bytes.
      It succeeds exactly when the length is in range and the free sectors cover the missing
      data and index blocks; then the inode gains exactly those, off the front of the free
      list. When the free sectors run out it has taken all of them. */
  method InodeReserve(vol: Volume, inode: DiskInode, length: int, ghost own: seq<nat>)
    returns (ok: bool, d: DiskInode, ghost grown: seq<nat>)
    requires CanGrow(vol, own) && Tree(vol.cache.view, inode, own)
    modifies vol.Repr()
    ensures vol.Ready() && SameHeader(inode, d)
    ensures ok == Reservable(length, |own|, |Free(old(vol.freeMap.contents))|)
    ensures length < 0 ==> d == inode && Now(vol, own) == old(Now(vol, own))
    ensures 0 <= length && Affordable(length, |own|, |Free(old(vol.freeMap.contents))|) ==>
              && |grown| == Max(|own|, Total(Min(Sectors(length), CAPACITY)))
              && Tree(vol.cache.view, d, grown)
              && Advance(old(Now(vol, own)), Now(vol, grown), 0, ALL_POSITIONS, vol.mapOwn)
    ensures 0 <= length && !Affordable(length, |own|, |Free(old(vol.freeMap.contents))|) ==>
              RanOut(old(Now(vol, own)), Now(vol, grown), 0, 0, ALL_POSITIONS, vol.mapOwn)
    ensures !ok && 0 <= length && Nearly(length, |own|) ==>
              if Affordable(length, |own|, |Free(old(vol.freeMap.contents))|)
              then grown == own && Advance(old(Now(vol, own)), Now(vol, grown), 0, 0, vol.mapOwn)
              else RanOut(old(Now(vol, own)), Now(vol, grown), 0, 0, 0, vol.mapOwn)
  {
    hide Volume.Valid, Volume.Core, Volume.Synced, Sound, Tree, RanOut, Advance, Subtree, Nearly, Covered;
    hide Used, Total, Sectors, IndirectEnd, Reservable, Affordable, Free;
    ReserveSteps(length, |own|, |Free(vol.freeMap.contents)|);
    d, grown := inode, own;
    if length < 0 {
      return false, d, grown;
    }
    ghost var near := Nearly(length, |own|);
    if near {
      NearlySteps(length, |own|);
    }
    ghost var s0 := Now(vol, own);
    ghost var hi := ALL_POSITIONS;
    AdvanceRefl(s0, 0, 0, vol.mapOwn);
    var numSectors := Sectors(length);

    var l := Min(numSectors, DIRECT_BLOCKS_COUNT);
    ok, d, grown := ReserveDirect(vol, inode, l, own);
    numSectors := numSectors - l;
    if !ok || numSectors == 0 {
      return;
    }

    ghost var s1 := Now(vol, grown);
    AdvanceSound(s0, s1, 0, hi, vol.mapOwn);
    AdvanceLength(s0, s1, 0, hi, vol.mapOwn);
    ok, d, grown := ReserveIndirects(vol, d, numSectors, s1.own, near);
    ghost var s2 := Now(vol, grown);
    if Affordable(length, |own|, |Free(s0.bits)|) {
      AdvanceTrans(s0, s1, s2, 0, hi, 0, hi, vol.mapOwn);
    } else {
      RanOutLater(s0, s1, s2, 0, 0, 0, hi, 0, hi, vol.mapOwn);
    }
  }

  /** What success and running out mean for the direct slots and for what lies beyond. */
  lemma ReserveSteps(length: int, owned: nat, free: nat)
    ensures length < 0 ==> !Reservable(length, owned, free)
    ensures 0 <= length ==>
              var n := Sectors(length);
              var end := if n <= DIRECT_BLOCKS_COUNT then n else IndirectEnd(n - DIRECT_BLOCKS_COUNT);
              && end == Total(Min(n, CAPACITY)) && (n > DIRECT_BLOCKS_COUNT ==> DIRECT_BLOCKS_COUNT < end)
              && (Affordable(length, owned, free) <==> end <= owned + free)
              && (Reservable(length, owned, free) <==> n <= CAPACITY && end <= owned + free)
  {
    if 0 <= length {
      TotalSteps(Sectors(length));
    }
  }

  /** Where `num` data sectors beyond the direct ones end. */
  function IndirectEnd(num: nat): nat
    requires num > 0
  {
    if num <= INDIRECT_BLOCKS_PER_SECTOR then INDIRECT_POS + Used(num, 1)
    else DOUBLY_POS + Used(Min(num - INDIRECT_BLOCKS_PER_SECTOR, LevelCapacity(2)), 2)
  }

  /** Steps (2) and (3) of inode_reserve: `num` data sectors beyond the direct ones. */
  method ReserveIndirects(vol: Volume, inode: DiskInode, num: nat, ghost own: seq<nat>, ghost near: bool)
    returns (ok: bool, d: DiskInode, ghost grown: seq<nat>)
    requires CanGrow(vol, own) && Tree(vol.cache.view, inode, own) && INDIRECT_POS <= |own| && 0 < num
    requires near && num <= INDIRECT_BLOCKS_PER_SECTOR ==> Covered(num, 1, |own|, INDIRECT_POS)
    requires near && num > INDIRECT_BLOCKS_PER_SECTOR ==>
               DOUBLY_POS <= |own| &&
               Covered(Min(num - INDIRECT_BLOCKS_PER_SECTOR, LevelCapacity(2)), 2, |own|, DOUBLY_POS)
    modifies vol.Repr()
    ensures vol.Ready() && SameHeader(inode, d)
    ensures ok ==
            (num <= CAPACITY - DIRECT_BLOCKS_COUNT && IndirectEnd(num) <= |own| + |Free(old(vol.freeMap.contents))|)
    ensures IndirectEnd(num) <= |own| + |Free(old(vol.freeMap.contents))| ==>
              && |grown| == Max(|own|, IndirectEnd(num)) && Tree(vol.cache.view, d, grown)
              && Advance(old(Now(vol, own)), Now(vol, grown), 0, ALL_POSITIONS, vol.mapOwn)
              && (near && |grown| == |own| ==>
                    grown == own && Advance(old(Now(vol, own)), Now(vol, grown), 0, 0, vol.mapOwn))
    ensures IndirectEnd(num) > |own| + |Free(old(vol.freeMap.contents))| ==>
              && RanOut(old(Now(vol, own)), Now(vol, grown), 0, 0, ALL_POSITIONS, vol.mapOwn)
              && (near ==> RanOut(old(Now(vol, own)), Now(vol, grown), 0, 0, 0, vol.mapOwn))
  {
    hide Volume.Valid, Volume.Core, Volume.Synced, Sound, Tree, RanOut, Advance, Subtree, Covered;
    IndirectEnds(num);
    hide Used;
    ghost var s0 := Now(vol, own);
    ghost var hi := ALL_POSITIONS;
    var l := Min(num, INDIRECT_BLOCKS_PER_SECTOR);
    ok, d, grown := ReserveSingle(vol, inode, l, own);
    if !ok || num == l {
      return;
    }

    ghost var s1 := Now(vol, grown);
    AdvanceSound(s0, s1, 0, hi, vol.mapOwn);
    AdvanceLength(s0, s1, 0, hi, vol.mapOwn);
    var rest := Min(num - l, INDIRECT_BLOCKS_PER_SECTOR * INDIRECT_BLOCKS_PER_SECTOR);
    ok, d, grown := ReserveDoubly(vol, d, rest, s1.own);
    ghost var s2 := Now(vol, grown);
    if ok {
      AdvanceTrans(s0, s1, s2, 0, hi, 0, hi, vol.mapOwn);
      if near && |grown| == |own| {
        AdvanceTrans(s0, s1, s2, 0, 0, 0, 0, vol.mapOwn);
      }
    } else {
      RanOutLater(s0, s1, s2, 0, 0, 0, hi, 0, hi, vol.mapOwn);
      if near {
        RanOutLater(s0, s1, s2, 0, 0, 0, 0, 0, 0, vol.mapOwn);
      }
    }
    ok := ok && num - l == rest;
  }

  lemma IndirectEnds(num: nat)
    requires num > 0
    ensures INDIRECT_POS + Used(INDIRECT_BLOCKS_PER_SECTOR, 1) == DOUBLY_POS
    ensures INDIRECT_POS < IndirectEnd(num) && (num > INDIRECT_BLOCKS_PER_SECTOR ==> DOUBLY_POS < IndirectEnd(num))
    ensures LevelCapacity(2) == INDIRECT_BLOCKS_PER_SECTOR * INDIRECT_BLOCKS_PER_SECTOR
            == CAPACITY - DIRECT_BLOCKS_COUNT - INDIRECT_BLOCKS_PER_SECTOR
  {
  }

  lemma TreeRoots(view: seq<Block>, d: DiskInode, own: seq<nat>)
    requires Tree(view, d, own)
    ensures Subtree(view, d.indirect, own, INDIRECT_POS, 1) && Subtree(view, d.doubly, own, DOUBLY_POS, 2)
  {
  }
}
