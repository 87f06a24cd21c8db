/** A file as the flat byte string its data sectors hold. */
module FileBytes {
  import opened Sector
  import opened Geometry
  import opened BlockTree

  /** Byte `p` of a file owning the sectors `own`. */
  function ByteAt(view: seq<Block>, own: seq<nat>, p: nat): byte {
    var r := DataPos(p / SECTOR_SIZE);
    if r < |own| && own[r] < |view| then view[own[r]][p % SECTOR_SIZE] else 0
  }

  /** The file's contents when its length is `len`. */
  function Bytes(view: seq<Block>, own: seq<nat>, len: nat): (b: seq<byte>)
    ensures |b| == len
  {
    seq(len, p requires 0 <= p < len => ByteAt(view, own, p))
  }

  /** Every byte from `len` to the end of the last of `n` sectors is zero. */
  ghost predicate ZeroTail(view: seq<Block>, own: seq<nat>, len: nat, n: nat) {
    forall p :: len <= p < SECTOR_SIZE * n ==> ByteAt(view, own, p) == 0
  }

  /** What reading `size` bytes at `ofs` delivers: `n` bytes, which are that slice of the file. */
  ghost predicate Delivers(contents: seq<byte>, ofs: nat, size: nat, buffer: seq<byte>, n: nat) {
    && n == (if ofs < |contents| then Min(size, |contents| - ofs) else 0)
    && (n > 0 ==> n <= |buffer| && buffer[..n] == contents[ofs..ofs + n])
  }

  /** `contents` with `buf` written over it at `ofs`; a gap past the old end reads as zeros. */
  function Splice(contents: seq<byte>, ofs: nat, buf: seq<byte>): seq<byte> {
    seq(Max(|contents|, ofs + |buf|), p requires 0 <= p < Max(|contents|, ofs + |buf|) =>
      if ofs <= p < ofs + |buf| then buf[p - ofs] else if p < |contents| then contents[p] else 0)
  }

  /** Reading back the range just written returns what was written. */
  lemma ReadAfterSplice(contents: seq<byte>, ofs: nat, buf: seq<byte>)
    ensures Splice(contents, ofs, buf)[ofs..ofs + |buf|] == buf
  {
  }

  /** Sectors that exist on the device and are pairwise distinct. */
  ghost predicate OnDevice(view: seq<Block>, own: seq<nat>) {
    && (forall r :: 0 <= r < |own| ==> own[r] < |view|)
    && (forall r, q :: 0 <= r < q < |own| ==> own[r] != own[q])
  }

  /** Contents may differ between the views only in data sectors of `own`. */
  ghost predicate OnlyDataChanged(view: seq<Block>, after: seq<Block>, own: seq<nat>) {
    && |after| == |view|
    && (forall s :: 0 <= s < |view| && s !in own ==> after[s] == view[s])
    && SameIndexBlocks(view, after, own, 0, |own|)
  }

  lemma TreeFrame(view: seq<Block>, after: seq<Block>, d: DiskInode, own: seq<nat>)
    requires Tree(view, d, own) && SameIndexBlocks(view, after, own, 0, |own|)
    ensures Tree(after, d, own)
  {
    SubtreeFrame(view, after, d.indirect, own, own, INDIRECT_POS, 1);
    SubtreeFrame(view, after, d.doubly, own, own, DOUBLY_POS, 2);
  }

  /** Rewriting the `i`-th data sector changes exactly its 512 bytes of the file. */
  lemma WriteDataSector(view: seq<Block>, own: seq<nat>, i: nat, blk: Block)
    requires OnDevice(view, own) && DataPos(i) < |own|
    ensures forall p: nat :: ByteAt(view[own[DataPos(i)] := blk], own, p) ==
              if p / SECTOR_SIZE == i then blk[p % SECTOR_SIZE] else ByteAt(view, own, p)
    ensures OnlyDataChanged(view, view[own[DataPos(i)] := blk], own)
  {
    var after := view[own[DataPos(i)] := blk];
    forall p: nat ensures ByteAt(after, own, p) ==
              if p / SECTOR_SIZE == i then blk[p % SECTOR_SIZE] else ByteAt(view, own, p)
    {
      if p / SECTOR_SIZE < i {
        DataPosIncreasing(p / SECTOR_SIZE, i);
      } else if p / SECTOR_SIZE > i {
        DataPosIncreasing(i, p / SECTOR_SIZE);
      }
    }
    DataPosInverse(i);
  }

  /** Bytes at .. at + |data| - 1 of the file are `data` after the change, the rest as before. */
  ghost predicate Patched(view: seq<Block>, after: seq<Block>, own: seq<nat>, at: nat, data: seq<byte>) {
    forall p: nat :: ByteAt(after, own, p) == if at <= p < at + |data| then data[p - at] else ByteAt(view, own, p)
  }

  /** Overwriting part of a data sector overwrites exactly that range of the file. */
  lemma PatchedSector(view: seq<Block>, own: seq<nat>, i: nat, blk: Block, at: nat, data: seq<byte>)
    requires OnDevice(view, own) && DataPos(i) < |own| && at + |data| <= SECTOR_SIZE
    requires forall j :: 0 <= j < SECTOR_SIZE ==>
               blk[j] == if at <= j < at + |data| then data[j - at] else view[own[DataPos(i)]][j]
    ensures Patched(view, view[own[DataPos(i)] := blk], own, SECTOR_SIZE * i + at, data)
    ensures OnlyDataChanged(view, view[own[DataPos(i)] := blk], own)
  {
    var after := view[own[DataPos(i)] := blk];
    WriteDataSector(view, own, i, blk);
    forall p: nat ensures ByteAt(after, own, p) ==
              if SECTOR_SIZE * i + at <= p < SECTOR_SIZE * i + at + |data|
              then data[p - (SECTOR_SIZE * i + at)] else ByteAt(view, own, p)
    {
      if p / SECTOR_SIZE == i {
        assert p % SECTOR_SIZE == p - SECTOR_SIZE * i;
      }
    }
  }

  lemma PatchTrans(v: seq<Block>, w: seq<Block>, x: seq<Block>, own: seq<nat>, at: nat, data: seq<byte>,
      more: seq<byte>)
    requires Patched(v, w, own, at, data) && Patched(w, x, own, at + |data|, more)
    ensures Patched(v, x, own, at, data + more)
  {
    forall p: nat
      ensures ByteAt(x, own, p) == if at <= p < at + |data + more| then (data + more)[p - at] else ByteAt(v, own, p)
    {
      assert ByteAt(w, own, p) == if at <= p < at + |data| then data[p - at] else ByteAt(v, own, p);
    }
  }

  lemma OnlyDataTrans(v: seq<Block>, w: seq<Block>, x: seq<Block>, own: seq<nat>)
    requires OnlyDataChanged(v, w, own) && OnlyDataChanged(w, x, own)
    ensures OnlyDataChanged(v, x, own)
  {
  }
}
