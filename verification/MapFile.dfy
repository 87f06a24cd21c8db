/** The free-map file across unmounting and mounting (free_map_create, free_map_open,
    bitmap_read; filesys_done and filesys_init). */
module MapFile {
  import opened Sector
  import opened Geometry
  import opened FreeList
  import opened BlockTree
  import opened FileBytes
  import opened InodeIO
  import opened Words
  import opened Bitmap
  import opened Volume
  import opened Reserve
  import opened Files

  const FREE_MAP_SECTOR := 0

  /** The size of the free-map file. */
  function MapBytes(bitCount: nat): nat {
    ELEM_BYTES * ElemCount(bitCount)
  }

  /** The on-disk inode of the free-map file is current. */
  ghost predicate MapInodeOnDisk(vol: Volume)
    reads vol, vol.cache, vol.mapFile
  {
    vol.mapFile != null && |vol.cache.view| > 0 && Encodable(vol.mapFile.data) &&
    vol.cache.view[0] == EncodeInode(vol.mapFile.data)
  }

  /** free_map_create, up to the point where it would report failure. */
  method FreeMapCreate(vol: Volume) returns (ok: bool)
    requires vol.Ready() && vol.mapFile == null
    modifies vol`mapFile, vol`mapOwn, vol.Repr()
    ensures ok == Reservable(MapBytes(vol.freeMap.bitCount), 0, |Free(old(vol.freeMap.contents))|)
    ensures ok ==> vol.Ready() && vol.mapFile != null && fresh(vol.mapFile) && MapInodeOnDisk(vol)
    ensures ok ==> vol.mapFile.sector == 0 && |vol.cache.view| > 0
    ensures ok ==> InodeAt(vol.cache.view[0], vol.mapOwn, false, MapBytes(vol.freeMap.bitCount))
    ensures ok ==> Grown(old(vol.freeMap.contents), [], vol.freeMap.contents, vol.mapOwn)
    ensures ok ==> |vol.mapOwn| == Total(Sectors(MapBytes(vol.freeMap.bitCount)))
  {
    hide OnlyDataChanged, RanOut, Advance, OthersKept, BystandersKept, Tree, Subtree, Affordable, OnDevice, InodeAt,
      IndexBlocksAt, EncodeInode, FailedGrowth, ZeroTail, Zeros, Grown;
    MapBytesSmall(vol);
    ghost var d, own;
    ok, d, own := InodeCreate(vol, FREE_MAP_SECTOR, MapBytes(vol.freeMap.bitCount), false);
    if ok {
      NewMapParts(Now(vol, own), d);
      var f := OpenAtRest(vol, FREE_MAP_SECTOR, d, own);
      vol.mapFile := f;
      vol.mapOwn := own;
      var written := vol.BitmapWrite();
      assert 0 !in own;
    }
  }

  lemma MapBytesSmall(vol: Volume)
    requires vol.Ready()
    ensures MapBytes(vol.freeMap.bitCount) <= OFFSET_LIMIT
    ensures vol.mapFile == null ==> CanGrow(vol, []) && FREE_MAP_SECTOR !in vol.mapOwn
  {
  }

  lemma NewMapParts(s: Snapshot, d: DiskInode)
    requires FileOK(s, FREE_MAP_SECTOR, d, [])
    ensures Stored(s.view, d, s.own) && Owned(s.own, s.bits) && Encodable(d) && FREE_MAP_SECTOR !in s.own
    ensures s.view[FREE_MAP_SECTOR] == EncodeInode(d) && |s.own| == Total(Sectors(d.length))
  {
    FileEncodable(s, d, []);
  }

  /** The element array's bytes after the file's bytes `data` have replaced as many of them as there are. */
  function ImageRead(data: seq<byte>, image: seq<byte>): (bytes: seq<byte>)
    ensures |bytes| == |image|
  {
    var n := Min(|data|, |image|);
    data[..n] + image[n..]
  }

  /** bitmap_read from a freshly opened free-map file: the bytes the file has replace the
      start of the element array, and the last element is masked. */
  method BitmapRead(vol: Volume, d: DiskInode, ghost own: seq<nat>) returns (ok: bool)
    requires vol.Ready() && Stored(vol.cache.view, d, own)
    modifies vol.cache`clock, vol.cache.device, vol.cache.slots, vol.freeMap`contents, vol.freeMap.bits
    ensures vol.cache.Valid() && vol.freeMap.Valid()
    ensures ok == (MapBytes(vol.freeMap.bitCount) <= d.length)
    ensures forall i :: 0 <= i < vol.freeMap.bitCount ==>
              var data := Bytes(vol.cache.view, own, d.length);
              vol.freeMap.contents[i] ==
              if i / 8 < |data| then Bit(data[i / 8], i % 8) else old(vol.freeMap.contents)[i]
  {
    hide Volume.Valid, Volume.Core, Volume.Synced, Bit, Bytes, Stored, ImageRead, ElemsBytes, MapBytes, Packs;
    MapParts(vol);
    PackedContents(vol.freeMap);
    ghost var words, contents := vol.freeMap.bits[..], vol.freeMap.contents;
    var image;
    image, ok := ReadImage(vol, d, own);
    MapParts(vol);
    forall i | 0 <= i < |contents| {
      BitRead(Bytes(vol.cache.view, own, d.length), words, contents, i);
    }
    vol.freeMap.Load(image[..]);
  }

  /** The bits of a file that may be too short come before those of the old words. */
  lemma BitRead(data: seq<byte>, words: seq<Elem>, contents: seq<bool>, i: nat)
    requires Packs(words, contents) && i < |contents|
    ensures i / 8 < |ElemsBytes(words)|
    ensures Bit(ImageRead(data, ElemsBytes(words))[i / 8], i % 8) ==
            if i / 8 < |data| then Bit(data[i / 8], i % 8) else contents[i]
  {
    hide Bit, ElemsBytes, BitAt;
    FileBit(words, contents, i);
  }

  /** file_read_at of the free-map file over a copy of the element array. */
  method ReadImage(vol: Volume, d: DiskInode, ghost own: seq<nat>) returns (image: array<byte>, whole: bool)
    requires vol.Ready() && Stored(vol.cache.view, d, own)
    modifies vol.cache`clock, vol.cache.device, vol.cache.slots
    ensures vol.Ready() && fresh(image) && image.Length == MapBytes(vol.freeMap.bitCount)
    ensures image[..] == ImageRead(Bytes(vol.cache.view, own, d.length), ElemsBytes(vol.freeMap.bits[..]))
    ensures whole == (MapBytes(vol.freeMap.bitCount) <= d.length)
  {
    hide Volume.Valid, Volume.Core, Volume.Synced, Stored, ImageRead, ElemsBytes, Bytes, MapBytes;
    MapParts(vol);
    LengthStored(vol.cache.view, d, own);
    var bytes := ElemsBytes(vol.freeMap.bits[..]);
    image := new byte[|bytes|](i requires 0 <= i < |bytes| => bytes[i]);
    assert image as object !in vol.Repr();
    assert image[..] == bytes;
    var bytesRead := vol.ReadData(d, image, |bytes|, 0, own);
    PartlyRead(Bytes(vol.cache.view, own, d.length), bytes, image[..], bytesRead);
    whole := bytesRead == |bytes|;
  }

  lemma MapParts(vol: Volume)
    requires vol.Ready()
    ensures vol.cache.Valid() && vol.freeMap.Valid() && vol.cache.Repr() !! vol.freeMap.Repr() && |vol.cache.view| > 0
    ensures |ElemsBytes(vol.freeMap.bits[..])| == MapBytes(vol.freeMap.bitCount)
            == ELEM_BYTES * ElemCount(vol.freeMap.bitCount)
    ensures MapBytes(vol.freeMap.bitCount) > 0
  {
    assert |vol.freeMap.FileImage()| == MapBytes(vol.freeMap.bitCount);
  }

  lemma LengthStored(view: seq<Block>, d: DiskInode, own: seq<nat>)
    requires Stored(view, d, own)
    ensures 0 <= d.length
  {
  }

  lemma PartlyRead(data: seq<byte>, image: seq<byte>, buffer: seq<byte>, n: nat)
    requires |buffer| == |image| && n == Min(|data|, |image|)
    requires n > 0 ==> buffer[..n] == data[0..n]
    requires buffer[n..] == image[n..]
    ensures buffer == ImageRead(data, image)
  {
    assert buffer == buffer[..n] + buffer[n..];
  }

  lemma SavedImage(image: seq<byte>, words: seq<Elem>, saved: seq<bool>, loaded: seq<Elem>, read: seq<bool>)
    requires image == ElemsBytes(words) && Packs(words, saved) && Packs(loaded, read) && |read| == |saved|
    requires forall i :: 0 <= i < |read| ==> read[i] == Bit(image[i / 8], i % 8)
    ensures read == saved && loaded == words
  {
    ImageRoundTrip(words, saved, loaded, read);
  }

  /** free_map_open. */
  method OpenMap(vol: Volume, ghost d: DiskInode, ghost own: seq<nat>) returns (ok: bool)
    requires vol.Ready() && vol.mapFile == null
    requires DecodeInode(vol.cache.view[0]) == d && Stored(vol.cache.view, d, own)
    modifies vol`mapFile, vol`mapOwn, vol.cache`clock, vol.cache.device, vol.cache.slots,
             vol.freeMap`contents, vol.freeMap.bits
    ensures vol.cache.Valid() && vol.freeMap.Valid()
    ensures vol.mapFile != null && fresh(vol.mapFile) && vol.mapFile.data == d && vol.mapFile.denyWriteCnt == 0
    ensures vol.mapOwn == own && vol.mapFile.sector == 0
    ensures ok == (MapBytes(vol.freeMap.bitCount) <= d.length)
    ensures forall i :: 0 <= i < vol.freeMap.bitCount ==>
              var data := Bytes(vol.cache.view, own, d.length);
              vol.freeMap.contents[i] ==
              if i / 8 < |data| then Bit(data[i / 8], i % 8) else old(vol.freeMap.contents)[i]
  {
    hide Volume.Valid, Volume.Core, Volume.Synced, Stored, DecodeInode, Packs, Bytes, ElemsBytes, Bit, ImageRead,
      MapBytes;
    MapParts(vol);
    var f := InodeOpen(vol, FREE_MAP_SECTOR);
    ok := BitmapRead(vol, f.data, own);
    vol.mapFile := f;
    vol.mapOwn := own;
  }

  /** free_map_open on a disk whose free-map file holds the bitmap `saved`. */
  method FreeMapOpen(vol: Volume, ghost d: DiskInode, ghost own: seq<nat>, ghost words: seq<Elem>,
      ghost saved: seq<bool>)
    returns (ok: bool)
    requires vol.Ready() && vol.mapFile == null
    requires Encodable(d) && vol.cache.view[0] == EncodeInode(d) && Stored(vol.cache.view, d, own)
    requires |saved| == vol.freeMap.bitCount && saved[0] && Owned(own, saved)
    requires d.length == MapBytes(vol.freeMap.bitCount) && Packs(words, saved)
    requires Bytes(vol.cache.view, own, d.length) == ElemsBytes(words)
    modifies vol`mapFile, vol`mapOwn, vol.Repr()
    ensures ok && vol.Ready() && vol.mapFile != null && fresh(vol.mapFile)
    ensures vol.cache.view == old(vol.cache.view) && vol.mapOwn == own && vol.mapFile.data == d
    ensures vol.freeMap.contents == saved && vol.freeMap.bits[..] == words
  {
    hide Tree, OnDevice, EncodeInode, DecodeInode, Packs, Bytes, ElemsBytes, Bit, ImageRead;
    InodeRoundTrip(d);
    MapParts(vol);
    ok := OpenMap(vol, d, own);
    SavedImage(Bytes(vol.cache.view, own, d.length), words, saved, vol.freeMap.bits[..], vol.freeMap.contents);
  }

  /** free_map_open on a disk whose sector 0 has been overwritten with zeros: it reports failure
      and leaves the bitmap as free_map_init made it. */
  method OpenWipedMap(vol: Volume) returns (ok: bool)
    requires vol.Ready() && vol.mapFile == null && IsZeroed(vol.cache.view[0])
    modifies vol`mapFile, vol`mapOwn, vol.Repr()
    ensures !ok && vol.cache.Valid() && vol.freeMap.Valid()
    ensures vol.cache.view == old(vol.cache.view) && vol.freeMap.contents == old(vol.freeMap.contents)
    ensures vol.mapFile != null && vol.mapFile.data.length == 0 && vol.mapOwn == []
  {
    hide Volume.Valid, Volume.Core, Volume.Synced, Stored, DecodeInode, Packs, Bytes, ElemsBytes, Bit, ImageRead,
      MapBytes, BitMap.Valid;
    MapParts(vol);
    ghost var d, contents := DecodeInode(vol.cache.view[0]), vol.freeMap.contents;
    WipedMapInode(vol.cache.view[0]);
    EmptyTree(vol.cache.view, d);
    PackedContents(vol.freeMap);
    ok := OpenMap(vol, d, []);
    PackedContents(vol.freeMap);
    assert |Bytes(vol.cache.view, [], d.length)| == 0;
    assert vol.freeMap.contents == contents;
  }

  lemma PackedContents(m: BitMap)
    requires m.Valid()
    ensures Packs(m.bits[..], m.contents) && |m.contents| == m.bitCount
  {
  }

  lemma EmptyTree(view: seq<Block>, d: DiskInode)
    requires |d.direct| == DIRECT_BLOCKS_COUNT && d.indirect == 0 && d.doubly == 0 && d.length == 0
    requires forall i :: 0 <= i < DIRECT_BLOCKS_COUNT ==> d.direct[i] == 0
    ensures Stored(view, d, [])
  {
    hide Children, Total, Sectors;
    NoSectors();
    assert Tree(view, d, []);
  }

  lemma NoSectors()
    ensures Sectors(0) == 0 && Total(0) == 0
  {
  }

  /** A sector 0 that has been overwritten with zeros reads as an inode of no length, whose
      free map cannot be read back. */
  lemma WipedMapInode(b: Block)
    requires IsZeroed(b)
    ensures DecodeInode(b) == DiskInode(seq(DIRECT_BLOCKS_COUNT, _ => 0), 0, 0, false, 0, 0)
  {
    assert b == ZEROS;
    ZerosHoldNoPointers();
  }
}
