/** The block tree of an inode as a value: which sector contents represent which list of
    owned sectors, and what growing that list from the free list does to it. */
module BlockTree {
  import opened Sector
  import opened Geometry
  import opened FreeList

  /** The sector at position `p`; 0, the "unallocated" marker, past the end. */
  function SectorAt(own: seq<nat>, p: nat): nat {
    if p < |own| then own[p] else 0
  }

  /** Level 0 is a data sector, 1 an index block of data sectors, 2 the doubly indirect block. */
  function ChildPos(p: nat, level: nat, j: nat): nat {
    if level == 1 then p + 1 + j else p + 1 + GROUP * j
  }

  /** The number of positions a full subtree takes. */
  function Span(level: nat): nat {
    if level == 0 then 1 else if level == 1 then GROUP else 1 + INDIRECT_BLOCKS_PER_SECTOR * GROUP
  }

  function LevelCapacity(level: nat): nat {
    if level == 0 then 1 else if level == 1 then INDIRECT_BLOCKS_PER_SECTOR
    else INDIRECT_BLOCKS_PER_SECTOR * INDIRECT_BLOCKS_PER_SECTOR
  }

  /** The number of positions the first `n` data sectors of a subtree take. */
  function Used(n: nat, level: nat): nat {
    if n == 0 then 0
    else if level == 0 then n
    else if level == 1 then 1 + n
    else 1 + n + DivRoundUp(n, INDIRECT_BLOCKS_PER_SECTOR)
  }

  /** The positions at which a subtree of each level may start. */
  predicate AtLevel(p: nat, level: nat) {
    if level == 0 then !IsIndexPos(p)
    else if level == 1 then p == INDIRECT_POS || (FIRST_POS <= p < DOUBLY_POS + Span(2) && (p - FIRST_POS) % GROUP == 0)
    else level == 2 && p == DOUBLY_POS
  }

  lemma ChildLevel(p: nat, level: nat, j: nat)
    requires 1 <= level <= 2 && AtLevel(p, level) && j < INDIRECT_BLOCKS_PER_SECTOR
    ensures IsIndexPos(p) && AtLevel(ChildPos(p, level, j), level - 1)
    ensures ChildPos(p, level, j) + Span(level - 1) == ChildPos(p, level, j + 1) <= p + Span(level)
  {
    if level == 1 && p >= FIRST_POS {
      assert (p + 1 + j - FIRST_POS) % GROUP == j + 1;
    } else if level == 2 {
      assert ChildPos(p, level, j) - FIRST_POS == GROUP * j;
    }
  }

  /** The loop over an index block's entries visits consecutive positions. */
  lemma UsedStep(p: nat, level: nat, i: nat, done: nat, subsize: nat)
    requires 1 <= level <= 2
    requires done == i * (if level == 1 then 1 else INDIRECT_BLOCKS_PER_SECTOR)
    requires 0 < subsize <= LevelCapacity(level - 1)
    ensures ChildPos(p, level, i) + Used(subsize, level - 1) == p + Used(done + subsize, level)
    ensures i > 0 ==> p + Used(done, level) == ChildPos(p, level, i)
    ensures Used(subsize, level - 1) <= Span(level - 1)
  {
  }

  /** The three steps of growing or freeing an inode of `n` sectors, in positions. */
  lemma TotalSteps(n: nat)
    ensures n <= DIRECT_BLOCKS_COUNT ==> Total(Min(n, CAPACITY)) == n
    ensures DIRECT_BLOCKS_COUNT < n <= 251 ==>
              Total(Min(n, CAPACITY)) == INDIRECT_POS + Used(n - DIRECT_BLOCKS_COUNT, 1)
    ensures INDIRECT_POS + Used(INDIRECT_BLOCKS_PER_SECTOR, 1) == DOUBLY_POS
    ensures n > 251 ==> Total(Min(n, CAPACITY)) == DOUBLY_POS + Used(Min(n - 251, LevelCapacity(2)), 2)
    ensures n > 123 ==> Total(Min(n, CAPACITY)) > INDIRECT_POS
    ensures n > 251 ==> Total(Min(n, CAPACITY)) > DOUBLY_POS
  {
  }

  lemma ChildLoopStart(p: nat, level: nat, num: nat)
    requires 1 <= level <= 2 && 0 < num <= LevelCapacity(level)
    ensures 0 < DivRoundUp(num, if level == 1 then 1 else INDIRECT_BLOCKS_PER_SECTOR)
    ensures p + 1 < p + Used(num, level)
  {
  }

  /** The position arithmetic of one step of the loop over an index block's entries. */
  lemma ChildArithmetic(p: nat, level: nat, i: nat, num: nat, left: nat, subsize: nat)
    requires 1 <= level <= 2 && AtLevel(p, level) && 0 < num <= LevelCapacity(level)
    requires var unit := if level == 1 then 1 else INDIRECT_BLOCKS_PER_SECTOR;
             i < DivRoundUp(num, unit) && left == num - Min(num, i * unit) && subsize == Min(left, unit)
    ensures i < INDIRECT_BLOCKS_PER_SECTOR && 0 < subsize <= LevelCapacity(level - 1) && subsize <= left
    ensures i + 1 == DivRoundUp(num, if level == 1 then 1 else INDIRECT_BLOCKS_PER_SECTOR) ==> subsize == left
    ensures left - subsize == num - Min(num, (i + 1) * (if level == 1 then 1 else INDIRECT_BLOCKS_PER_SECTOR))
    ensures var c := ChildPos(p, level, i);
            && AtLevel(c, level - 1) && p + 1 <= c && c + Span(level - 1) <= p + Span(level)
            && (i == 0 ==> c == p + 1) && (i > 0 ==> c == p + Used(num - left, level))
            && c <= c + Used(subsize, level - 1) == p + Used(num - left + subsize, level) <= p + Used(num, level)
            && Used(subsize, level - 1) <= Span(level - 1)
  {
    var unit := if level == 1 then 1 else INDIRECT_BLOCKS_PER_SECTOR;
    assert i * unit < num && i < INDIRECT_BLOCKS_PER_SECTOR;
    UsedStep(p, level, i, num - left, subsize);
    ChildLevel(p, level, i);
  }

  /** `e` is the on-disk root of the subtree at position `p`, given the owned sectors `own`:
      every allocated entry below it is the sector at its position, every other entry is 0. */
  ghost predicate Subtree(view: seq<Block>, e: nat, own: seq<nat>, p: nat, level: nat)
    decreases level, 1
  {
    && e == SectorAt(own, p)
    && (level > 0 && p < |own| ==> e < |view| && Children(view, Pointers(view[e]), own, p, level))
  }

  ghost predicate Children(view: seq<Block>, ps: seq<nat>, own: seq<nat>, p: nat, level: nat)
    requires level > 0
    decreases level, 0
  {
    && |ps| == INDIRECT_BLOCKS_PER_SECTOR
    && forall j :: 0 <= j < INDIRECT_BLOCKS_PER_SECTOR ==> Subtree(view, ps[j], own, ChildPos(p, level, j), level - 1)
  }

  /** The whole tree hanging off an on-disk inode. */
  ghost predicate Tree(view: seq<Block>, d: DiskInode, own: seq<nat>) {
    && |d.direct| == DIRECT_BLOCKS_COUNT
    && (forall i :: 0 <= i < DIRECT_BLOCKS_COUNT ==> d.direct[i] == SectorAt(own, i))
    && Subtree(view, d.indirect, own, INDIRECT_POS, 1)
    && Subtree(view, d.doubly, own, DOUBLY_POS, 2)
  }

  /** The index blocks in positions lo .. hi - 1 have the same contents in both views. */
  ghost predicate SameIndexBlocks(view: seq<Block>, after: seq<Block>, own: seq<nat>, lo: nat, hi: nat) {
    && |view| == |after|
    && forall r :: lo <= r < hi && r < |own| && IsIndexPos(r) ==>
         own[r] < |view| && after[own[r]] == view[own[r]]
  }

  /** Positions lo .. hi - 1 are filled alike in both lists. */
  ghost predicate SamePositions(own: seq<nat>, grown: seq<nat>, lo: nat, hi: nat) {
    && (|own| == |grown| || (hi <= |own| && hi <= |grown|) || (|own| <= lo && |grown| <= lo))
    && forall r :: lo <= r < hi ==> SectorAt(own, r) == SectorAt(grown, r)
  }

  lemma GrowthElsewhere(own: seq<nat>, grown: seq<nat>, lo: nat, hi: nat)
    requires own <= grown && (own == grown || |grown| <= lo || hi <= |own|)
    ensures SamePositions(own, grown, lo, hi)
  {
  }

  lemma Narrow(view: seq<Block>, after: seq<Block>, own: seq<nat>, grown: seq<nat>, lo: nat, hi: nat, lo1: nat,
      hi1: nat)
    requires SamePositions(own, grown, lo, hi) && SameIndexBlocks(view, after, own, lo, hi)
    requires lo <= lo1 && hi1 <= hi
    ensures SamePositions(own, grown, lo1, hi1) && SameIndexBlocks(view, after, own, lo1, hi1)
  {
    hide IsIndexPos;
  }

  /** A subtree survives changes elsewhere: other positions may be filled and contents may
      change outside its own index blocks. */
  lemma {:induction false} SubtreeFrame(view: seq<Block>, after: seq<Block>, e: nat, own: seq<nat>, grown: seq<nat>,
                                        p: nat, level: nat)
    requires level <= 2 && AtLevel(p, level) && Subtree(view, e, own, p, level)
    requires SamePositions(own, grown, p, p + Span(level))
    requires SameIndexBlocks(view, after, own, p, p + Span(level))
    ensures Subtree(after, e, grown, p, level)
    decreases level
  {
    assert e == SectorAt(grown, p) by {
      assert SectorAt(own, p) == SectorAt(grown, p);
    }
    if level == 0 || p >= |own| {
    } else {
      ChildLevel(p, level, 0);
      assert after[own[p]] == view[own[p]];
      Narrow(view, after, own, grown, p, p + Span(level), p + 1, p + Span(level));
      ChildrenFrame(view, after, Pointers(view[e]), own, grown, p, level);
    }
  }

  lemma {:induction false} ChildrenFrame(view: seq<Block>, after: seq<Block>, ps: seq<nat>, own: seq<nat>,
      grown: seq<nat>, p: nat, level: nat)
    requires 1 <= level <= 2 && AtLevel(p, level) && Children(view, ps, own, p, level)
    requires SamePositions(own, grown, p + 1, p + Span(level))
    requires SameIndexBlocks(view, after, own, p + 1, p + Span(level))
    ensures Children(after, ps, grown, p, level)
    decreases level, 0
  {
    forall j | 0 <= j < INDIRECT_BLOCKS_PER_SECTOR
      ensures Subtree(after, ps[j], grown, ChildPos(p, level, j), level - 1)
    {
      var c := ChildPos(p, level, j);
      ChildLevel(p, level, j);
      Narrow(view, after, own, grown, p + 1, p + Span(level), c, c + Span(level - 1));
      SubtreeFrame(view, after, ps[j], own, grown, c, level - 1);
    }
  }

  /** Sectors owned by one inode: distinct, nonzero, and marked in the free map. */
  ghost predicate Owned(own: seq<nat>, bits: seq<bool>) {
    && (forall r, q :: 0 <= r < q < |own| ==> own[r] != own[q])
    && (forall r :: 0 <= r < |own| ==> 0 < own[r] < |bits| && bits[own[r]])
  }

  /** `own` was extended to `grown` by taking sectors off the front of the free list:
      owned sectors followed by free sectors is the same list before and after. */
  ghost predicate Grown(bits: seq<bool>, own: seq<nat>, after: seq<bool>, grown: seq<nat>) {
    && |after| == |bits| && |own| <= |grown|
    && grown + Free(after) == own + Free(bits)
  }

  lemma GrownPrefix(bits: seq<bool>, own: seq<nat>, after: seq<bool>, grown: seq<nat>)
    requires Grown(bits, own, after, grown)
    ensures own <= grown
    ensures |grown| - |own| <= |Free(bits)|
    ensures grown == own + Free(bits)[..|grown| - |own|]
    ensures Free(after) == Free(bits)[|grown| - |own|..]
  {
    var whole := own + Free(bits);
    assert |grown| + |Free(after)| == |whole|;
    assert grown == whole[..|grown|] && Free(after) == whole[|grown|..];
    assert own == whole[..|own|];
  }

  lemma GrowOne(bits: seq<bool>, own: seq<nat>, f: nat)
    requires f < |bits| && !bits[f] && forall i :: 0 <= i < f ==> bits[i]
    ensures Grown(bits, own, bits[f := true], own + [f])
  {
    TakeLowest(bits, f);
  }

  /** Growth hands out only sectors that were free, and marks exactly those. */
  lemma GrownBits(bits: seq<bool>, own: seq<nat>, after: seq<bool>, grown: seq<nat>)
    requires Grown(bits, own, after, grown)
    ensures forall r :: |own| <= r < |grown| ==> grown[r] < |bits| && !bits[grown[r]] && after[grown[r]]
    ensures forall s :: 0 <= s < |bits| && bits[s] ==> after[s]
    ensures forall s :: 0 <= s < |bits| && after[s] && !bits[s] ==> s in grown[|own|..]
  {
    GrownPrefix(bits, own, after, grown);
    FreeExact(bits);
    FreeExact(after);
    var k := |grown| - |own|;
    forall r | |own| <= r < |grown| ensures grown[r] < |bits| && !bits[grown[r]] && after[grown[r]] {
      assert grown[r] == Free(bits)[r - |own|];
      assert Free(bits)[r - |own|] in Free(bits);
    }
    forall s | 0 <= s < |bits| && bits[s] ensures after[s] {
      assert s in Free(bits)[k..] ==> s in Free(bits);
    }
    forall s | 0 <= s < |bits| && after[s] && !bits[s] ensures s in grown[|own|..] {
      assert s in Free(bits) && s !in Free(bits)[k..];
      assert Free(bits) == Free(bits)[..k] + Free(bits)[k..];
      assert grown[|own|..] == Free(bits)[..k];
    }
  }

  /** Growing in two steps is growing. */
  lemma GrowthComposes(bits: seq<bool>, own: seq<nat>, mid: seq<bool>, some: seq<nat>, after: seq<bool>, all: seq<nat>)
    requires Grown(bits, own, mid, some) && Grown(mid, some, after, all)
    ensures Grown(bits, own, after, all)
  {
  }

  /** Growth by a given number of sectors has only one outcome, so growing in several steps
      ends with the same sectors in the same places as growing once. */
  lemma GrowthIsDetermined(bits: seq<bool>, own: seq<nat>, after: seq<bool>, grown: seq<nat>, after': seq<bool>,
      grown': seq<nat>)
    requires Grown(bits, own, after, grown) && Grown(bits, own, after', grown') && |grown| == |grown'|
    ensures grown == grown' && after == after'
  {
    GrownPrefix(bits, own, after, grown);
    GrownPrefix(bits, own, after', grown');
    FreeExact(after);
    FreeExact(after');
    forall x | 0 <= x < |after| ensures after[x] == after'[x] {
      assert after[x] <==> x !in Free(after);
    }
  }

  lemma GrownOwned(bits: seq<bool>, own: seq<nat>, after: seq<bool>, grown: seq<nat>)
    requires Grown(bits, own, after, grown) && Owned(own, bits)
    requires |bits| > 0 && bits[0]
    ensures Owned(grown, after)
  {
    GrownPrefix(bits, own, after, grown);
    GrownBits(bits, own, after, grown);
    FreeExact(bits);
    forall r, q | 0 <= r < q < |grown| ensures grown[r] != grown[q] {
      if r >= |own| {
        assert grown[r] == Free(bits)[r - |own|] && grown[q] == Free(bits)[q - |own|];
      } else if q >= |own| {
        assert bits[grown[r]] && !bits[grown[q]];
      }
    }
  }

  /** Where index_to_sector finds the `i`-th data sector. */
  lemma Navigate(view: seq<Block>, d: DiskInode, own: seq<nat>, i: nat)
    requires Tree(view, d, own) && i < CAPACITY && DataPos(i) < |own|
    ensures i < 123 ==> d.direct[i] == own[DataPos(i)]
    ensures 123 <= i < 251 ==>
              d.indirect < |view| && Pointers(view[d.indirect])[i - 123] == own[DataPos(i)]
    ensures 251 <= i ==>
              var k, j := (i - 251) / 128, (i - 251) % 128;
              && d.doubly < |view| && k < 128 && Pointers(view[d.doubly])[k] < |view|
              && Pointers(view[Pointers(view[d.doubly])[k]])[j] == own[DataPos(i)]
  {
    if 123 <= i < 251 {
      assert Subtree(view, Pointers(view[d.indirect])[i - 123], own, ChildPos(INDIRECT_POS, 1, i - 123), 0);
    } else if 251 <= i {
      var k, j := (i - 251) / 128, (i - 251) % 128;
      var first := Pointers(view[d.doubly])[k];
      assert Subtree(view, first, own, ChildPos(DOUBLY_POS, 2, k), 1);
      assert Subtree(view, Pointers(view[first])[j], own, ChildPos(FIRST_POS + GROUP * k, 1, j), 0);
    }
  }

  /** The 128 words of the index block in `b`: the sectors at positions first, first + step, ..., and
      zeros from the end of `own` on. */
  ghost predicate IndexBlockAt(b: Block, own: seq<nat>, first: nat, step: nat) {
    forall j :: 0 <= j < 128 ==> WordAt(b, 4 * j) == if first + step * j < |own| then own[first + step * j] else 0
  }

  /** Where an inode's index blocks are, and what is in them. */
  ghost predicate IndexBlocksAt(view: seq<Block>, own: seq<nat>) {
    && (123 < |own| ==> own[123] < |view| && IndexBlockAt(view[own[123]], own, 124, 1))
    && (252 < |own| ==> own[252] < |view| && IndexBlockAt(view[own[252]], own, 253, 129))
    && forall k: nat :: k < 128 && 253 + 129 * k < |own| ==> FirstLevelAt(view, own, k)
  }

  ghost predicate FirstLevelAt(view: seq<Block>, own: seq<nat>, k: nat) {
    var p := 253 + 129 * k;
    p < |own| && own[p] < |view| && IndexBlockAt(view[own[p]], own, p + 1, 1)
  }

  /** The tree on the disk, word by word. */
  lemma TreeWords(view: seq<Block>, d: DiskInode, own: seq<nat>)
    requires Tree(view, d, own)
    ensures IndexBlocksAt(view, own)
  {
    hide WordAt;
    if 123 < |own| {
      ChildWords(view, own, 123, 1);
    }
    if 252 < |own| {
      ChildWords(view, own, 252, 2);
    }
    forall k: nat | k < 128 && 253 + 129 * k < |own| ensures FirstLevelAt(view, own, k) {
      assert Subtree(view, Pointers(view[own[252]])[k], own, ChildPos(252, 2, k), 1);
      ChildWords(view, own, 253 + 129 * k, 1);
    }
  }

  lemma ChildWords(view: seq<Block>, own: seq<nat>, p: nat, level: nat)
    requires 1 <= level <= 2 && p < |own| && own[p] < |view| && Children(view, Pointers(view[own[p]]), own, p, level)
    ensures IndexBlockAt(view[own[p]], own, p + 1, if level == 1 then 1 else 129)
  {
    hide WordAt;
    var step := if level == 1 then 1 else 129;
    forall j | 0 <= j < 128
      ensures WordAt(view[own[p]], 4 * j) == if p + 1 + step * j < |own| then own[p + 1 + step * j] else 0
    {
      assert Subtree(view, Pointers(view[own[p]])[j], own, ChildPos(p, level, j), level - 1);
    }
  }
}
