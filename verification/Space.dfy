/** How much fits: the closed form of copyable_size_of_file, and the gap test of
    fragmentation_degree (fsutil2.c). */
module Space {
  import opened Sector
  import opened Geometry
  import opened FileSystem

  /** copyable_size_of_file, given the number of free sectors. */
  function CopyableSize(size: nat, free: nat): int {
    var needed := Sectors(size);
    var totalIndirect := DIRECT_BLOCKS_COUNT + INDIRECT_BLOCKS_PER_SECTOR + 2;
    var totalDoubly := totalIndirect + 1 + INDIRECT_BLOCKS_PER_SECTOR +
      INDIRECT_BLOCKS_PER_SECTOR * INDIRECT_BLOCKS_PER_SECTOR;
    if free <= DIRECT_BLOCKS_COUNT + 1 then
      if needed <= free - 1 then size else SECTOR_SIZE * (free - 1) - 1
    else if free <= DIRECT_BLOCKS_COUNT + INDIRECT_BLOCKS_PER_SECTOR + 2 then
      if needed <= free - 2 then size else SECTOR_SIZE * (free - 2) - 1
    else if free >= totalDoubly then
      if needed <= totalDoubly - 131 then size else SECTOR_SIZE * (totalDoubly - 131) - 1
    else
      var metadata := 3 + DivRoundUp(free - (totalIndirect + 1), 129);
      if needed <= free - metadata then size else SECTOR_SIZE * (free - metadata) - 1
  }

  /** `n` data sectors, their index blocks and the inode's own sector fit in `free`. */
  predicate Fits(n: nat, free: nat) {
    n <= CAPACITY && 1 + Total(n) <= free
  }

  /** The most data sectors a new file can have. */
  ghost predicate MostSectors(n: nat, free: nat) {
    Fits(n, free) && forall m: nat :: Fits(m, free) ==> m <= n
  }

  lemma MostFromNext(n: nat, free: nat)
    requires Fits(n, free) && (n == CAPACITY || 1 + Total(n + 1) > free)
    ensures MostSectors(n, free)
  {
    forall m: nat | Fits(m, free) ensures m <= n {
      if m > n + 1 {
        TotalIncreasing(n + 1, m);
      }
    }
  }

  /** The sector count each branch of the closed form allows is the greatest that fits. */
  lemma BranchIsMost(free: nat) returns (n: nat)
    requires 2 <= free
    ensures MostSectors(n, free)
    ensures n == if free <= 124 then free - 1 else if free <= 253 then free - 2
                 else if free >= 16766 then CAPACITY else free - 3 - DivRoundUp(free - 254, 129)
  {
    if free <= 124 {
      n := free - 1;
    } else if free <= 253 {
      n := free - 2;
    } else if free >= 16766 {
      n := CAPACITY;
    } else {
      n := free - 3 - DivRoundUp(free - 254, 129);
      DoublyBranch(free, n);
    }
    MostFromNext(n, free);
  }

  lemma DoublyBranch(free: nat, n: int)
    requires 254 <= free < 16766 && n == free - 3 - DivRoundUp(free - 254, 129)
    ensures 251 <= n < CAPACITY && 1 + Total(n) <= free < 1 + Total(n + 1)
  {
    var x := free - 254;
    var q := DivRoundUp(x, 129);
    assert x == 129 * (x / 129) + x % 129;
    if x % 129 == 0 {
      assert q == x / 129;
      assert n == 251 + 128 * q;
    } else {
      assert q == x / 129 + 1;
      assert n == 251 + 128 * (q - 1) + (x % 129 - 1);
    }
  }

  /** copyable_size_of_file is sound and optimal: the sectors of the size it returns number
      the least of what is asked for and the most that fits. */
  lemma CopyableIsOptimal(size: nat, free: nat, most: nat)
    requires 1 <= size && MostSectors(most, free)
    ensures CopyableSize(size, free) > 0 <==> 2 <= free
    ensures 2 <= free ==>
              && CopyableSize(size, free) == (if Sectors(size) <= most then size else SECTOR_SIZE * most - 1)
              && Sectors(CopyableSize(size, free)) == Min(Sectors(size), most)
  {
    if 2 <= free {
      var n := BranchIsMost(free);
      assert Fits(most, free) && Fits(n, free);
      SectorsExact(size);
    }
  }

  /** With one free sector or none, nothing can be copied in. */
  lemma NothingCopyable(size: nat, free: nat)
    requires 1 <= size && free <= 1
    ensures CopyableSize(size, free) < 0
  {
    SectorsExact(size);
  }

  /** copy_in asks for one byte more when the size is a multiple of the sector size. */
  function CopyInSize(size: nat, free: nat): int {
    if size % SECTOR_SIZE == 0 then CopyableSize(size + 1, free) else CopyableSize(size, free)
  }

  /** When copy_in goes ahead, creating the file succeeds, and the terminating byte it then
      writes past the reserved length lies in a sector the file already has. */
  lemma CopyInFits(size: nat, free: nat)
    requires CopyInSize(size, free) > 0
    ensures var c := CopyInSize(size, free);
            && Sectors(c) <= CAPACITY && CreationCost(c) <= free
            && Sectors(c + 1) == Sectors(c)
            && c <= size + 1
  {
    var asked := if size % SECTOR_SIZE == 0 then size + 1 else size;
    if free <= 1 {
      NothingCopyable(asked, free);
    } else {
      var n := BranchIsMost(free);
      CopyableIsOptimal(asked, free, n);
      var c := CopyInSize(size, free);
      if Sectors(c) < n {
        TotalIncreasing(Sectors(c), n);
      }
    }
  }

  /** The difference of two block_sector_t values, as 32-bit unsigned arithmetic has it. */
  function Gap(a: nat, b: nat): nat {
    (a as int - b as int) % WORD_LIMIT
  }

  /** Some data sector lies more than three past its predecessor. */
  ghost predicate Fragmented(sectors: seq<nat>) {
    exists i :: 1 <= i < |sectors| && Gap(sectors[i], sectors[i - 1]) > 3
  }

  /** What `Gap` makes of two sectors: the second comes at most three after the first, or the
      difference wraps around. */
  lemma GapIsSmall(a: nat, b: nat)
    requires a < WORD_LIMIT && b < WORD_LIMIT
    ensures Gap(b, a) <= 3 <==> a <= b <= a + 3 || b + 0x1_0000_0000 <= a + 3
  {
    if b < a {
      assert Gap(b, a) == b + WORD_LIMIT - a;
    }
  }

  /** No sector comes before its predecessor, or more than three after it. */
  ghost predicate InOrder(sectors: seq<nat>) {
    forall i :: 1 <= i < |sectors| ==> sectors[i - 1] <= sectors[i] <= sectors[i - 1] + 3
  }

  /** Sectors 1 to 2^32 - 3 are too close for that: the free map has fewer than 2^32 - 1 bits, and sector 0 is
      the free-map inode's. */
  lemma InSteps(sectors: seq<nat>)
    requires forall i :: 0 <= i < |sectors| ==> 0 < sectors[i] < 0xFFFF_FFFE
    ensures !Fragmented(sectors) <==> InOrder(sectors)
  {
    forall i | 1 <= i < |sectors|
      ensures Gap(sectors[i], sectors[i - 1]) <= 3 <==> sectors[i - 1] <= sectors[i] <= sectors[i - 1] + 3
    {
      GapIsSmall(sectors[i - 1], sectors[i]);
    }
  }

  /** With 32-bit sector numbers at the limit it is not: a step back to sector 0 counts as a step of one. */
  lemma GapWraps()
    ensures !Fragmented([0xFFFF_FFFF, 0])
  {
  }

  /** The loop of fragmentation_degree over one file's sectors. */
  method IsFragmented(sectors: array<nat>) returns (b: bool)
    requires forall i :: 0 <= i < sectors.Length ==> sectors[i] < WORD_LIMIT
    ensures !b <==> forall i :: 1 <= i < sectors.Length ==>
                      || sectors[i - 1] <= sectors[i] <= sectors[i - 1] + 3
                      || sectors[i] + 0x1_0000_0000 <= sectors[i - 1] + 3
    ensures (forall i :: 0 <= i < sectors.Length ==> 0 < sectors[i] < 0xFFFF_FFFE) ==>
              (!b <==> forall i :: 1 <= i < sectors.Length ==> sectors[i - 1] <= sectors[i] <= sectors[i - 1] + 3)
    ensures b == Fragmented(sectors[..])
  {
    hide Gap;
    forall i | 1 <= i < sectors.Length {
      GapIsSmall(sectors[i - 1], sectors[i]);
    }
    if sectors.Length == 0 {
      return false;
    }
    var index := 1;
    var previous := sectors[0];
    while index < sectors.Length
      invariant 1 <= index <= sectors.Length && previous == sectors[index - 1]
      invariant forall i :: 1 <= i < index ==> Gap(sectors[..][i], sectors[..][i - 1]) <= 3
    {
      if Gap(sectors[index], previous) > 3 {
        assert Gap(sectors[..][index], sectors[..][index - 1]) > 3;
        return true;
      }
      previous := sectors[index];
      index := index + 1;
    }
    return false;
  }

  /** The data sectors of a file owning `own`. */
  function DataOf(own: seq<nat>, n: nat): (sectors: seq<nat>)
    requires |own| == Total(n)
    ensures |sectors| == n
  {
    seq(n, i requires 0 <= i < n => DataPosBelowTotal(i, n); own[DataPos(i)])
  }

  /** A file laid out on consecutive sectors is never counted as fragmented, index blocks and all. */
  lemma ConsecutiveIsUnfragmented(own: seq<nat>, n: nat, start: nat)
    requires |own| == Total(n) && start + |own| <= WORD_LIMIT
    requires forall r :: 0 <= r < |own| ==> own[r] == start + r
    ensures !Fragmented(DataOf(own, n))
    ensures forall i :: 0 <= i < n ==> DataOf(own, n)[i] == start + DataPos(i)
    ensures InOrder(DataOf(own, n))
  {
    forall i | 0 <= i < n ensures DataOf(own, n)[i] == start + DataPos(i) {
      DataPosBelowTotal(i, n);
    }
    forall i | 1 <= i < n
      ensures DataOf(own, n)[i - 1] <= DataOf(own, n)[i] <= DataOf(own, n)[i - 1] + 3
      ensures Gap(DataOf(own, n)[i], DataOf(own, n)[i - 1]) <= 3
    {
      DataPosGap(i - 1);
    }
  }

  /** The threshold is tight: on consecutive sectors a gap of exactly 3 occurs in every file
      that uses its doubly indirect block, and in no other. */
  lemma ThresholdIsTight(own: seq<nat>, n: nat, start: nat)
    requires |own| == Total(n) && start + |own| <= WORD_LIMIT
    requires forall r :: 0 <= r < |own| ==> own[r] == start + r
    ensures (exists i :: 1 <= i < n && Gap(DataOf(own, n)[i], DataOf(own, n)[i - 1]) == 3) <==> n > 251
  {
    hide DataOf, InOrder, Fragmented, Total;
    ConsecutiveIsUnfragmented(own, n, start);
    forall i | 1 <= i < n ensures Gap(DataOf(own, n)[i], DataOf(own, n)[i - 1]) == 3 <==> i == 251 {
      DataPosGap(i - 1);
    }
    if n > 251 {
      assert Gap(DataOf(own, n)[251], DataOf(own, n)[250]) == 3;
    }
  }
}
