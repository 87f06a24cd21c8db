/** Where an inode's sectors sit (inode.h, inode.c): 123 direct slots, one index block of
    128 entries, and one doubly indirect block of 128 index blocks.

    A file of `n` sectors owns Total(n) sectors, index blocks included. Numbered in the
    order in which growing the file visits them, they occupy the positions 0 .. Total(n) - 1,
    whatever `n` is: a shorter file's positions are a prefix of a longer file's. */
module Geometry {
  import opened Sector

  const DIRECT_BLOCKS_COUNT := 123
  const INDIRECT_BLOCKS_PER_SECTOR := 128
  const CAPACITY := 16635

  /** Positions of the single indirect block, of the doubly indirect block, and the number
      of positions taken by a full first-level index block with its entries. */
  const INDIRECT_POS := 123
  const DOUBLY_POS := 252
  const FIRST_POS := 253
  const GROUP := 129

  /** All the positions of a full inode. */
  const ALL_POSITIONS := 16765

  function Min(a: nat, b: nat): nat {
    if a < b then a else b
  }

  function Max(a: nat, b: nat): nat {
    if a < b then b else a
  }

  function DivRoundUp(x: nat, step: nat): nat
    requires step >= 1
  {
    (x + step - 1) / step
  }

  /** bytes_to_sectors. */
  function Sectors(bytes: nat): nat {
    DivRoundUp(bytes, SECTOR_SIZE)
  }

  lemma SectorsExact(bytes: nat)
    ensures SECTOR_SIZE * Sectors(bytes) >= bytes
    ensures Sectors(bytes) > 0 ==> SECTOR_SIZE * (Sectors(bytes) - 1) < bytes
  {
  }

  /** The number of index blocks a file of `n` sectors needs. */
  function Meta(n: nat): nat {
    if n <= DIRECT_BLOCKS_COUNT then 0
    else if n <= DIRECT_BLOCKS_COUNT + INDIRECT_BLOCKS_PER_SECTOR then 1
    else 2 + DivRoundUp(n - (DIRECT_BLOCKS_COUNT + INDIRECT_BLOCKS_PER_SECTOR), INDIRECT_BLOCKS_PER_SECTOR)
  }

  function Total(n: nat): nat {
    n + Meta(n)
  }

  /** The position of the `i`-th data sector. */
  function DataPos(i: nat): nat {
    if i < DIRECT_BLOCKS_COUNT then i
    else if i < DIRECT_BLOCKS_COUNT + INDIRECT_BLOCKS_PER_SECTOR then i + 1
    else i + 3 + (i - 251) / INDIRECT_BLOCKS_PER_SECTOR
  }

  predicate IsIndexPos(p: nat) {
    p == INDIRECT_POS || p == DOUBLY_POS || (p >= FIRST_POS && (p - FIRST_POS) % GROUP == 0)
  }

  /** Which data sector a position that is not an index block holds. */
  function DataIndex(p: nat): nat
    requires !IsIndexPos(p)
  {
    if p < INDIRECT_POS then p
    else if p < DOUBLY_POS then p - 1
    else p - 3 - (p - FIRST_POS) / GROUP
  }

  lemma DataPosInverse(i: nat)
    ensures !IsIndexPos(DataPos(i)) && DataIndex(DataPos(i)) == i
  {
    if i >= 251 {
      var k, r := (i - 251) / 128, (i - 251) % 128;
      assert DataPos(i) == FIRST_POS + GROUP * k + (r + 1);
      assert (DataPos(i) - FIRST_POS) / GROUP == k && (DataPos(i) - FIRST_POS) % GROUP == r + 1;
    }
  }

  lemma DataIndexInverse(p: nat)
    requires !IsIndexPos(p)
    ensures DataPos(DataIndex(p)) == p
  {
    if p >= FIRST_POS {
      var k, r := (p - FIRST_POS) / GROUP, (p - FIRST_POS) % GROUP;
      assert DataIndex(p) - 251 == 128 * k + (r - 1);
      assert (DataIndex(p) - 251) / 128 == k;
    }
  }

  lemma DataPosIncreasing(i: nat, j: nat)
    requires i < j
    ensures DataPos(i) < DataPos(j)
  {
  }

  /** Two consecutive data sectors are at most three positions apart, and exactly three
      only across the doubly indirect block and its first index block. */
  lemma DataPosGap(i: nat)
    ensures 1 <= DataPos(i + 1) - DataPos(i) <= 3
    ensures DataPos(i + 1) - DataPos(i) == 3 <==> i == 250
  {
  }

  /** A position belongs to the first `n` data sectors exactly when it is below Total(n). */
  lemma DataPosBelowTotal(i: nat, n: nat)
    ensures DataPos(i) < Total(n) <==> i < n
  {
  }

  lemma TotalIncreasing(m: nat, n: nat)
    requires m < n
    ensures Total(m) < Total(n)
  {
  }
}
