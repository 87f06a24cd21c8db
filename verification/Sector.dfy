/** The contents of one disk sector, and the two ways the file system reinterprets
    its 512 bytes: as 128 little-endian sector numbers (an index block) and as an
    on-disk inode. */
module Sector {
  const SECTOR_SIZE := 512
  const WORDS_PER_SECTOR := 128
  const WORD_LIMIT := 0x1_0000_0000
  const INT32_MAX := 0x7FFF_FFFF
  const INODE_MAGIC := 0x494e4f44

  type byte = n: int | 0 <= n < 256
  type Block = b: seq<byte> | |b| == SECTOR_SIZE witness seq(512, _ => 0)

  const ZEROS: Block := seq(SECTOR_SIZE, _ => 0)

  predicate IsZeroed(b: Block) {
    forall i :: 0 <= i < SECTOR_SIZE ==> b[i] == 0
  }

  lemma ZerosAreZero()
    ensures IsZeroed(ZEROS)
  {
  }

  /** The `k`-th least significant byte of a 32-bit word. */
  function WordByte(w: nat, k: nat): byte {
    if k == 0 then w % 256
    else if k == 1 then w / 256 % 256
    else if k == 2 then w / 65536 % 256
    else w / 16777216 % 256
  }

  function WordAt(b: seq<byte>, ofs: nat): nat
    requires ofs + 4 <= |b|
  {
    var b0: int, b1: int, b2: int, b3: int := b[ofs], b[ofs + 1], b[ofs + 2], b[ofs + 3];
    b0 + 256 * b1 + 65536 * b2 + 16777216 * b3
  }

  function EncodeWords(ws: seq<nat>): (b: seq<byte>)
    ensures |b| == 4 * |ws|
  {
    seq(4 * |ws|, i requires 0 <= i < 4 * |ws| => WordByte(ws[i / 4], i % 4))
  }

  ghost predicate AreWords(ws: seq<nat>) {
    forall i :: 0 <= i < |ws| ==> ws[i] < WORD_LIMIT
  }

  lemma WordFromDigits(w: nat)
    requires w < WORD_LIMIT
    ensures w % 256 + 256 * (w / 256 % 256) + 65536 * (w / 65536 % 256) + 16777216 * (w / 16777216 % 256) == w
  {
    var a := w / 256;
    var b := a / 256;
    var c := b / 256;
    assert w == 256 * a + w % 256 && a == 256 * b + a % 256 && b == 256 * c + b % 256;
    assert w / 65536 == b && w / 16777216 == c;
    assert c < 256;
  }

  lemma WordAtBound(b: seq<byte>, ofs: nat)
    requires ofs + 4 <= |b|
    ensures WordAt(b, ofs) < WORD_LIMIT
  {
  }

  lemma WordRoundTrip(w: nat, b: seq<byte>, ofs: nat)
    requires w < WORD_LIMIT && ofs + 4 <= |b| && forall k :: 0 <= k < 4 ==> b[ofs + k] == WordByte(w, k)
    ensures WordAt(b, ofs) == w
  {
    assert b[ofs + 0] == WordByte(w, 0) && b[ofs + 1] == WordByte(w, 1);
    assert b[ofs + 2] == WordByte(w, 2) && b[ofs + 3] == WordByte(w, 3);
    WordFromDigits(w);
  }

  lemma EncodedWordAt(ws: seq<nat>, i: nat)
    requires AreWords(ws) && i < |ws|
    ensures WordAt(EncodeWords(ws), 4 * i) == ws[i]
  {
    var b := EncodeWords(ws);
    forall k | 0 <= k < 4 ensures b[4 * i + k] == WordByte(ws[i], k) {
      assert (4 * i + k) / 4 == i && (4 * i + k) % 4 == k;
    }
    WordRoundTrip(ws[i], b, 4 * i);
  }

  /** An index block read back as its sector numbers (struct inode_indirect_block_sector). */
  function Pointers(b: Block): (ps: seq<nat>)
    ensures |ps| == WORDS_PER_SECTOR
  {
    seq(WORDS_PER_SECTOR, i requires 0 <= i < WORDS_PER_SECTOR => WordAt(b, 4 * i))
  }

  function PointerBlock(ps: seq<nat>): Block
    requires |ps| == WORDS_PER_SECTOR
  {
    EncodeWords(ps)
  }

  lemma PointersRoundTrip(ps: seq<nat>)
    requires |ps| == WORDS_PER_SECTOR && AreWords(ps)
    ensures Pointers(PointerBlock(ps)) == ps
  {
    forall i | 0 <= i < WORDS_PER_SECTOR ensures Pointers(PointerBlock(ps))[i] == ps[i] {
      EncodedWordAt(ps, i);
    }
  }

  lemma WordDigits(b0: byte, b1: byte, b2: byte, b3: byte)
    ensures var w := b0 as int + 256 * b1 + 65536 * b2 + 16777216 * b3;
            && w >= 0 && WordByte(w, 0) == b0 && WordByte(w, 1) == b1 && WordByte(w, 2) == b2 && WordByte(w, 3) == b3
  {
    var w := b0 as int + 256 * b1 + 65536 * b2 + 16777216 * b3;
    assert w / 256 == b1 + 256 * b2 + 65536 * b3;
    assert w / 65536 == b2 + 256 * b3;
    assert w / 16777216 == b3;
  }

  /** An index block written back as it was read is unchanged. */
  lemma BlockRoundTrip(b: Block)
    ensures PointerBlock(Pointers(b)) == b
  {
    hide WordByte;
    var c := PointerBlock(Pointers(b));
    forall i | 0 <= i < SECTOR_SIZE ensures c[i] == b[i] {
      var at := 4 * (i / 4);
      WordDigits(b[at], b[at + 1], b[at + 2], b[at + 3]);
      assert i == at + i % 4;
    }
  }

  /** A zero-filled sector reads as an index block with no entry allocated. */
  lemma ZerosHoldNoPointers()
    ensures forall i :: 0 <= i < WORDS_PER_SECTOR ==> Pointers(ZEROS)[i] == 0
  {
    assert ZEROS[0] == 0;
  }

  /** struct inode_disk. */
  datatype DiskInode = DiskInode(direct: seq<nat>, indirect: nat, doubly: nat, isDir: bool, length: int, magic: nat)

  /** The values an inode_disk can hold: 123 + 2 sector numbers, a 32-bit signed length, a 32-bit magic. */
  ghost predicate Encodable(d: DiskInode) {
    && |d.direct| == 123 && AreWords(d.direct)
    && d.indirect < WORD_LIMIT && d.doubly < WORD_LIMIT && d.magic < WORD_LIMIT
    && -INT32_MAX - 1 <= d.length <= INT32_MAX
  }

  function InodeWords(d: DiskInode): (ws: seq<nat>)
    requires -INT32_MAX - 1 <= d.length
  {
    d.direct + [d.indirect, d.doubly, if d.isDir then 1 else 0,
                if d.length < 0 then d.length + WORD_LIMIT else d.length, d.magic]
  }

  function EncodeInode(d: DiskInode): Block
    requires |d.direct| == 123 && -INT32_MAX - 1 <= d.length
  {
    PointerBlock(InodeWords(d))
  }

  function InodeFromWords(ws: seq<nat>): DiskInode
    requires |ws| == WORDS_PER_SECTOR
  {
    DiskInode(ws[..123], ws[123], ws[124], ws[125] % 256 != 0,
              if ws[126] > INT32_MAX then ws[126] - WORD_LIMIT else ws[126], ws[127])
  }

  function DecodeInode(b: Block): DiskInode {
    InodeFromWords(Pointers(b))
  }

  lemma InodeWordsFit(d: DiskInode)
    requires Encodable(d)
    ensures AreWords(InodeWords(d))
  {
  }

  lemma InodeFromItsWords(d: DiskInode)
    requires Encodable(d)
    ensures InodeFromWords(InodeWords(d)) == d
  {
    assert InodeWords(d)[..123] == d.direct;
  }

  /** Opening an inode reads back exactly the structure that was written. */
  lemma InodeRoundTrip(d: DiskInode)
    requires Encodable(d)
    ensures DecodeInode(EncodeInode(d)) == d
  {
    InodeWordsFit(d);
    PointersRoundTrip(InodeWords(d));
    InodeFromItsWords(d);
  }

  /** The bytes of struct inode_disk: 123 + 2 sector numbers, a bool padded to four bytes, the length and the magic. */
  lemma InodeBytes(d: DiskInode)
    requires Encodable(d)
    ensures var b := EncodeInode(d);
            && (forall i :: 0 <= i < 123 ==> WordAt(b, 4 * i) == d.direct[i])
            && WordAt(b, 492) == d.indirect && WordAt(b, 496) == d.doubly
            && b[500] == (if d.isDir then 1 else 0) && b[501] == 0 && b[502] == 0 && b[503] == 0
            && WordAt(b, 504) == (if d.length < 0 then d.length + WORD_LIMIT else d.length)
            && WordAt(b, 508) == d.magic
  {
    hide WordAt, WordByte;
    InodeWordsFit(d);
    var ws := InodeWords(d);
    forall i | 0 <= i < WORDS_PER_SECTOR ensures WordAt(EncodeInode(d), 4 * i) == ws[i] {
      EncodedWordAt(ws, i);
    }
    assert WordAt(EncodeInode(d), 4 * 123) == ws[123] && WordAt(EncodeInode(d), 4 * 124) == ws[124];
    assert WordAt(EncodeInode(d), 4 * 126) == ws[126] && WordAt(EncodeInode(d), 4 * 127) == ws[127];
    FlagBytes(d);
  }

  lemma FlagBytes(d: DiskInode)
    requires Encodable(d)
    ensures var b := EncodeInode(d);
            b[500] == (if d.isDir then 1 else 0) && b[501] == 0 && b[502] == 0 && b[503] == 0
  {
    var w := InodeWords(d)[125];
    var b := EncodeInode(d);
    assert b[500] == WordByte(w, 0) && b[501] == WordByte(w, 1) && b[502] == WordByte(w, 2) && b[503] == WordByte(w, 3);
  }

  /** What an inode read from any block has in its fields. */
  lemma InodeFields(b: Block)
    ensures var d := DecodeInode(b);
            && |d.direct| == 123 && (forall i :: 0 <= i < 123 ==> d.direct[i] == WordAt(b, 4 * i))
            && d.indirect == WordAt(b, 492) && d.doubly == WordAt(b, 496) && d.isDir == (b[500] != 0)
            && d.length == (if WordAt(b, 504) > INT32_MAX then WordAt(b, 504) - WORD_LIMIT else WordAt(b, 504))
            && d.magic == WordAt(b, 508)
  {
    hide WordAt;
    WordLow(b, 500);
    var ws := Pointers(b);
    assert ws[123] == WordAt(b, 492) && ws[124] == WordAt(b, 496) && ws[125] == WordAt(b, 500);
    assert ws[126] == WordAt(b, 504) && ws[127] == WordAt(b, 508);
  }

  lemma WordLow(b: seq<byte>, ofs: nat)
    requires ofs + 4 <= |b|
    ensures WordAt(b, ofs) % 256 == b[ofs]
  {
  }
}
