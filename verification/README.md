# A verified model of the Pintos-style file system in a3/fs

The project models the storage stack of `a3/fs` in Dafny and proves that its layers, composed,
behave as a finite map from file names to byte strings: a write-back cache with clock eviction,
a first-fit sector allocator whose bitmap is itself a file on the disk it describes, inodes that
keep a file's bytes in 123 direct slots, one index block and one doubly indirect block, a
directory stored in an inode, and on top of them `copy_in`, `fragmentation_degree` and
`defragment`. The intrusive list of `list.c`, with its in-place natural merge sort, is modelled
separately.

How the layers fit together, bottom up:

- `Sector`, `Words`, `Geometry`: the bytes of a sector read as index block or inode, the 64-bit
  bitmap words with their bitwise operations, and the numbering of an inode's sectors. Growing a
  file visits its data and index sectors in a fixed order; a file of `n` sectors occupies the
  positions 0 .. Total(n) - 1 of that order, whatever its history.
- `FreeList`, `Bitmap`: the free map as a sequence of booleans and the list of its free sectors,
  lowest first; the packed words refine it.
- `Cache`: 64 slots over the device. `view` is what clients see.
- `BlockTree`, `FileBytes`, `InodeIO`: an inode is described by `own`, the sequence of its sectors
  in the order above. `Tree` says that the pointers on disk spell out `own`; `Bytes` is the file's
  contents; `Grown` says that `own` followed by the free list is the same list before and after.
- `Volume`: the cache and the free map together; the free-map file always holds exactly the bitmap.
- `Reserve`, `Release`, `Files`: growing, freeing, creating, writing and opening one inode.
- `FileTable`, `FileSystem`, `Runs`, `MapFile`: all live inodes together, whole runs of operations
  on them, unmounting and mounting.
- `Directory`, `Dirs`, `Filesys`, `OpenFiles`, `Fsutil`: directory slots as a finite map, open
  directories and files, files by name.
- `Commands`, `Sessions`: whole runs by name. `Commands` says, without a disk, what a run does to a map
  from names to byte strings and, from the lengths of the files and the numbers of slots and free
  sectors alone, how far it gets; `Sessions` proves that the code does exactly that.
- `Space`, `CopyIn`, `Fragmentation`, `Defrag`, `Format`: the space arithmetic, the commands built on
  it, and the state a freshly formatted disk starts from.
- `Lifecycle`, `Scatter`: the whole way from `Format` through a session to mounting again or
  defragmenting, and one run that leaves a fragmented file.
- `Sorting`, `LinkedList`: what the ordered-list operations compute, and the pointer code that
  computes it.

Objects the source updates in place are classes (`BitMap`, `BufferCache`, `Inode`, `Volume`,
`FileSystem`, `Dir`, `File`, `Elem`, `List`), and its loops are loops. On-disk structures are values.
The cache's `view`, the sequences `own` and the table of live inodes are ghost: they describe the
state and decide nothing.

## What is true of the code, and what is not

Some properties one might expect of the code do not hold; each is stated with its exact condition.

- Defragmenting keeps every file's contents exactly when every file ends in NUL, because `file_write`
  overwrites the last byte (`Defrag.TerminatedIsKept`, `Defrag.Defragment`). Creations and `file_write`
  alone never produce a nonempty file that does not (`Commands.EffectIsTame`), so that after any run of
  the commands of `fsutil.c` nothing is lost (`Lifecycle.RunAndDefragment`); `file_write_at`, which no
  command calls on a named file, does (`Commands.EffectMayBeUntame`), and on every disk with room for
  that run defragmenting then loses a letter (`Lifecycle.LoseLastByte`).
- `copyable_size_of_file` does not count the sector the root directory may need for one more slot.
  When the directory is full and cannot grow, `copy_in` creates nothing although the size was found to
  fit, and its final seek is on a null file (`CopyIn.CopyIn`, `CopyIn.DirectoryMayNotGrow`).
- `filesys_create` with a name that is taken or not valid returns false after having allocated a whole
  inode, and gives back only the inode's own sector (`Filesys.Create`, `Filesys.MadeThenUnmade`).
- A larger disk may hold less: one sector more can cost the free-map file a data sector and an index
  block (`Lifecycle.LargerDiskMayHoldLess`). What counts is the number of sectors that formatting leaves
  free (`Lifecycle.RoomierDisk`).
- A write that finds no room leaves the file as it was, lost sectors aside, when no more than one data
  sector was missing, and so a directory that cannot take one more slot stays whole (`Files.StillAtRest`,
  `Filesys.Create`).
- A reservation that runs out of sectors while asking for an index block overwrites sector 0, the
  free-map inode, with zeros, because the allocator's result is ignored at `a3/fs/inode.c:382`.
  `Reserve.InodeReserve` and `Files.FailedReserve` say exactly when, `Files.WipedByIndexBlock` gives
  instances, and `FileSystem.MountWiped` says what the next mount makes of it.
- Two `file_write` calls in a row overlap by two bytes, since the position advances by the bytes
  written minus 2 (`OpenFiles.ConsecutiveWrites`). A write that does not take place moves it back by 2.
- A zero-byte write at offset 0 of a nonempty file sets its length to 0 and keeps its sectors
  (`Files.WriteAt`).
- The gap between two data sectors is a difference of unsigned 32-bit numbers, so that a step back from
  2^32 - 1 to 0 would pass for a step of one (`Space.GapWraps`). With the sector numbers a free map can
  have it does not happen, and a file counts as fragmented exactly if a data sector comes before its
  predecessor or more than 3 after it (`Space.InSteps`, `Space.IsFragmented`).
- A gap of exactly 3 between consecutive data sectors, which the fragmentation test tolerates, occurs
  on consecutive sectors in every file of more than 251 sectors and in no other
  (`Space.ThresholdIsTight`).

Where the code and its own comments disagree, the model follows the code: `bitmap_scan_and_flip` with
a count of zero returns the start index, where its comment says 0; `file_write`'s comment says that the
position advances by the bytes transferred.

## Model

| member | source | states |
|---|---|---|
| `Sector.PointersRoundTrip` | a3/fs/inode.h:12-13 | 128 sector numbers below 2^32 written into an index block read back as themselves. |
| `Sector.ZerosHoldNoPointers` | a3/fs/inode.c:362-385 | A zero-filled sector reads as an index block with no entry allocated, which is what makes 0 usable as the "unallocated" mark. |
| `Sector.InodeRoundTrip` | a3/fs/inode.c:103-160 | An on-disk inode with a signed 32-bit length is recovered field by field when its sector is read back. |
| `Sector.InodeBytes` | a3/fs/inode.h:19-29 | The bytes of an on-disk inode: 125 sector numbers, is_dir at byte 500 and padding, the length at 504, the magic at 508. |
| `Sector.InodeFields` | a3/fs/inode.h:19-29 | What each field of an inode read from any sector is, byte by byte. |
| `Words.MarkBit` | a3/fs/bitmap.c:143-149 | Or-ing a bit mask into a 64-bit word sets that bit and no other. |
| `Words.ResetBit` | a3/fs/bitmap.c:151-157 | And-ing with a complemented mask clears that bit and no other. |
| `Words.FlipBit` | a3/fs/bitmap.c:161-167 | Xor-ing a mask inverts that bit and no other. |
| `Words.TestBit` | a3/fs/bitmap.c:169-173 | The masked word is nonzero exactly when the bit is set. |
| `Words.LastMaskBit` | a3/fs/bitmap.c:53-56 | last_mask keeps exactly the bits of the last word that belong to the bitmap, all 64 when none is left over. |
| `Words.ElemsRoundTrip` | a3/fs/bitmap.c:288-304 | The memory image of an array of words determines the words. |
| `Words.ImageBit` | a3/fs/bitmap.c:300-304 | Bit i of an array of words is bit i % 8 of byte i / 8 of its memory. |
| `Words.BytesRoundTrip` | a3/fs/bitmap.c:288-296 | Words filled from any bytes have those bytes as their memory. |
| `FreeList.PositionsExact` | a3/fs/bitmap.c:199-212 | The listed positions are exactly the bits with the given value, in increasing order, so their number is the count. |
| `FreeList.TakeLowest` | a3/fs/bitmap.c:253-279 | Marking the lowest free sector takes exactly the head off the list of free sectors. |
| `FreeList.TakeMany` | a3/fs/free-map.c:31-41 | Marking the first k free sectors leaves the rest of the free list as it was. |
| `FreeList.PackedFree` | a3/fs/fsutil2.c:258-271 | If no sector in use lies above a free one, the free sectors are consecutive. |
| `Bitmap.PacksUnique` | a3/fs/bitmap.c:53-56 | The words, padding bits zero, are determined by the booleans they stand for. |
| `Bitmap.BitMap.Mark` | a3/fs/bitmap.c:143-149 | The word operation sets exactly one boolean and keeps the padding zero. |
| `Bitmap.BitMap.Reset` | a3/fs/bitmap.c:151-157 | The word operation clears exactly one boolean. |
| `Bitmap.BitMap.Flip` | a3/fs/bitmap.c:161-167 | The word operation inverts exactly one boolean. |
| `Bitmap.BitMap.Test` | a3/fs/bitmap.c:169-173 | Returns the boolean that the packed word stands for. |
| `Bitmap.BitMap.SetMultiple` | a3/fs/bitmap.c:185-195 | Exactly the given range takes the given value. |
| `Bitmap.BitMap.Count` | a3/fs/bitmap.c:199-212 | Counts the positions in the range that have the value. |
| `Bitmap.BitMap.Contains` | a3/fs/bitmap.c:216-228 | True exactly when the range is not entirely of the opposite value. |
| `Bitmap.BitMap.All` | a3/fs/bitmap.c:244-247 | True exactly when every bit of the range is set. |
| `Bitmap.BitMap.Scan` | a3/fs/bitmap.c:253-268 | Returns the lowest start at or after the given one of a run of cnt equal bits, or the error value exactly when no such run exists. |
| `Bitmap.BitMap.ScanAndFlip` | a3/fs/bitmap.c:273-279 | Flips exactly that lowest run, or changes nothing and reports the error value exactly when there is none. |
| `Bitmap.BitMap.Load` | a3/fs/bitmap.c:288-296 | Filling the words from a file's bytes and masking the last one gives the map whose bit i is bit i % 8 of byte i / 8, with zero padding. |
| `Bitmap.FileBit` | a3/fs/bitmap.c:300-304 | What bitmap_write hands to the file: bit i of the map is bit i % 8 of byte i / 8, and the bits past the last are zero. |
| `Bitmap.ImageRoundTrip` | a3/fs/bitmap.c:288-304 | What bitmap_write writes, bitmap_read restores: every boolean and every word. |
| `Cache.ViewIsDetermined` | a3/fs/cache.c:53-66 | The cached view is a function of slots and device: the occupied slot's buffer if the sector has one, else the device. |
| `Cache.FlushKeepsCoherent` | a3/fs/cache.c:31-38 | Writing a slot back changes no sector as seen through the cache. |
| `Cache.VacateKeepsCoherent` | a3/fs/cache.c:71-99 | Vacating a clean slot changes no sector as seen through the cache, because the device has its contents. |
| `Cache.OccupyKeepsCoherent` | a3/fs/cache.c:101-117 | Filling a free slot with an absent sector keeps one slot per sector and the view. |
| `Cache.StoreKeepsCoherent` | a3/fs/cache.c:120-138 | Storing into a sector's slot changes the view at that sector only. |
| `Cache.BufferCache.Flush` | a3/fs/cache.c:31-38 | A dirty slot's buffer reaches its sector on the device and the slot becomes clean; nothing else changes. |
| `Cache.BufferCache.Close` | a3/fs/cache.c:40-50 | Afterwards the device equals the view; every occupied slot is clean and otherwise as it was. |
| `Cache.BufferCache.Lookup` | a3/fs/cache.c:53-66 | Returns the slot holding the sector, or reports that no occupied slot holds it. |
| `Cache.BufferCache.Sweep` | a3/fs/cache.c:71-89 | The clock stops at the first slot from its position on, cyclically, that is vacant or not referenced, or, if all 64 are referenced, at the one it started from; exactly the slots passed over lose their reference bit. |
| `Cache.BufferCache.Evict` | a3/fs/cache.c:71-99 | The slot the clock stops at, after at most 65 inspections, is vacated, its buffer written back if dirty; slots and device afterwards are stated in full. |
| `Cache.BufferCache.Read` | a3/fs/cache.c:101-117 | Returns the view of the sector and leaves every sector's view unchanged. A hit sets the slot's reference bit and nothing else; a miss fills the slot that the clock stops at, clean and referenced. |
| `Cache.BufferCache.Write` | a3/fs/cache.c:120-138 | Changes the view at the one sector and nowhere else; the slots and the device as for a read, with the slot dirty. |
| `Cache.FillsBeforeEvicting` | a3/fs/cache.c:71-138 | From an empty cache on, as long as no more than 64 sectors are asked for, in any order, each takes the next slot and none is ever evicted or written back. |
| `Geometry.DataPosInverse` | a3/fs/inode.c:28-75 | No data sector sits at an index block's position, and positions determine data sectors. |
| `Geometry.DataIndexInverse` | a3/fs/inode.c:28-75 | Every position that is not an index block's holds the data sector that maps to it. |
| `Geometry.DataPosGap` | a3/fs/inode.c:360-447 | Consecutive data sectors are at most three positions apart, exactly three only where the doubly indirect block and its first index block come between. |
| `Geometry.DataPosBelowTotal` | a3/fs/inode.c:406-447 | A data sector is among the first n exactly when its position is below n plus the index blocks that n sectors need. |
| `BlockTree.Navigate` | a3/fs/inode.c:28-75 | In a well-formed tree, following direct slot, index block or two index blocks leads to the sector at the data sector's position. |
| `BlockTree.TreeWords` | a3/fs/inode.c:360-400 | The index blocks on the disk, word by word: which sector of the file is in which of the 128 words of which block, and zeros past the last. |
| `BlockTree.SubtreeFrame` | a3/fs/inode.c:360-400 | A subtree depends on its own index blocks only: it survives any change elsewhere and any growth of the inode beyond it. |
| `BlockTree.GrownBits` | a3/fs/free-map.c:31-41 | Growth hands out only free sectors, marks exactly those, and frees none. |
| `BlockTree.GrownOwned` | a3/fs/inode.c:360-400 | After growth an inode's sectors are still distinct, nonzero and in use. |
| `BlockTree.GrowthComposes` | a3/fs/inode.c:406-447 | Growing in two steps is growing. |
| `BlockTree.GrowthIsDetermined` | a3/fs/inode.c:406-447 | Growth by a given number of sectors has one outcome, so several steps end with the same sectors in the same places, and the same free map, as one. |
| `FileBytes.ReadAfterSplice` | a3/fs/inode.c:201-327 | Reading the range that was spliced in returns what was written. |
| `FileBytes.WriteDataSector` | a3/fs/inode.c:276-322 | Rewriting one data sector changes exactly its 512 bytes of the file. |
| `FileBytes.TreeFrame` | a3/fs/inode.c:276-322 | Writing data leaves the inode's tree intact. |
| `InodeIO.IndexToSector` | a3/fs/inode.c:28-75 | Returns the sector at the data sector's place in allocation order, or the error value past the capacity of 16635. |
| `InodeIO.ByteToSector` | a3/fs/inode.c:81-89 | Returns the sector of the byte, or the error value exactly when the offset is outside the file. |
| `InodeIO.ReadAt` | a3/fs/inode.c:201-247 | Returns min(size, bytes left after the offset, never below 0); that much of the buffer is the slice of the file, the rest of the buffer is untouched. |
| `InodeIO.WriteOneChunk` | a3/fs/inode.c:276-316 | One iteration, whole sector or by way of the bounce buffer, overwrites exactly its range of the file. |
| `InodeIO.WriteChunks` | a3/fs/inode.c:276-322 | The loop overwrites exactly the range of the file before its end, and no index block or foreign sector. |
| `InodeIO.DataSectors` | a3/fs/inode.c:510-579 | The flattened array has one entry per data sector, the i-th being the one that index_to_sector finds. |
| `Volume.Volume.NumFreeSectors` | a3/fs/free-map.c:22-25 | The number of free sectors. |
| `Volume.Volume.BitmapWrite` | a3/fs/bitmap.c:300-304 | The free-map file, whose length already is the bitmap's, takes the bitmap's bytes without re-entering the allocator; it fails only if writes are denied, and then changes nothing. |
| `Volume.Volume.Allocate` | a3/fs/free-map.c:31-41 | Marks the lowest run of free sectors, in memory and in the free-map file; on failure the bitmap is as before, and no run existed unless the file could not be written. |
| `Volume.Volume.Release` | a3/fs/free-map.c:44-48 | Clears exactly the given sectors, in memory and in the file; the asserted condition, that all were in use, is what it requires. |
| `Volume.MapFileBit` | a3/fs/free-map.c:31-48 | While the free-map file is open, bit i % 8 of its byte i / 8 is set exactly when sector i is in use. |
| `Reserve.AllocateOne` | a3/fs/free-map.c:31-41 | Allocating one sector takes the lowest free one, and succeeds exactly when one is free. |
| `Reserve.ReserveIndirect` | a3/fs/inode.c:360-400 | Reserving num sectors in a subtree succeeds exactly when the free sectors cover what is missing; the subtree then has them, new data is zero, everyone else's contents are unchanged; otherwise nothing is left free. |
| `Reserve.RootBlock` | a3/fs/inode.c:378-385 | An index block that is missing is allocated and zeroed; when no sector is free sector 0 is zeroed in its place. |
| `Reserve.ReserveIndexBlock` | a3/fs/inode.c:378-399 | The same for an index block, where a failed allocation of the block itself goes unnoticed and zeros sector 0. |
| `Reserve.ReserveDirect` | a3/fs/inode.c:406-420 | The direct slots: exact success condition, tree kept, sectors taken off the front of the free list. |
| `Reserve.InodeReserve` | a3/fs/inode.c:406-447 | Succeeds exactly when the length needs at most 16635 sectors and the free sectors cover the missing data and index blocks; then the inode gains exactly those off the front of the free list, keeps its old ones, and new data is zero. If the free sectors run out it has taken all, and sector 0 is wiped exactly when the missing sector was for an index block. If it fails with no more than one data sector missing, no sector of the inode has changed. |
| `Release.DeallocateIndirect` | a3/fs/inode.c:449-473 | Frees exactly the sectors of the subtree's first num data sectors and their index blocks, each while it was still in use. |
| `Release.InodeDeallocate` | a3/fs/inode.c:475-508 | Driven by the length alone, frees exactly the inode's sectors, each once and while in use, and changes no other bit; refuses a negative length. |
| `Release.ReleaseUndoesGrowth` | a3/fs/inode.c:360-508 | Freeing all that an inode acquired over any series of growths restores the free map it started from. |
| `Files.Extend` | a3/fs/inode.c:263-274 | Growing a file to a length keeps its bytes and appends zeros, with the exact condition for success. |
| `Files.RestsInForm` | a3/fs/inode.c:103-127 | An inode at rest is in its sector byte for byte: direct slots and both index blocks from the sectors it owns, zero past them, is_dir, length and magic in their places. |
| `Files.FailedReserve` | a3/fs/inode.c:360-447 | A reservation that fails leaves the file's own bytes and every other sector in use as they were; the number of free sectors left and the fate of sector 0 are exact. |
| `Files.StillAtRest` | a3/fs/inode.c:264-270 | A failed growth that lacked no more than one data sector leaves the inode with the same tree and the same bytes. |
| `Files.WipedByIndexBlock` | a3/fs/inode.c:378-385 | Instances: 123 sectors owned and none free, or 122 and one, growing to 124 sectors wipes sector 0; with 123 owned and one free it does not. |
| `Files.WriteAt` | a3/fs/inode.c:253-327 | In exactly described cases the write is denied, finds no room, truncates (zero bytes at offset 0), or splices all of the buffer into the contents with any gap reading as zeros; the length, the sectors gained and everyone else's sectors are stated for each. A truncated file keeps its sectors, and its inode on the disk has length 0. A write without room leaves the bytes in the file's own data sectors, says how many sectors are left free, and wipes sector 0 exactly when it runs out on an index block. |
| `Files.InodeCreate` | a3/fs/inode.c:103-127 | Succeeds exactly when the tree fits; then the inode holds that many zero bytes, its sectors came off the front of the free list, and its own sector holds struct inode_disk byte for byte. |
| `Files.WrittenInForm` | a3/fs/inode.h:19-29 | An inode with a well-formed tree is written with the sectors it owns in their places, zero past them. |
| `Files.InodeOpen` | a3/fs/inode.c:130-160 | Takes the fields from the bytes of the sector, whatever it holds. |
| `Files.OpenAtRest` | a3/fs/inode.c:130-160 | Recovers an inode's in-memory structure from its sector. |
| `Files.InodeRemove` | a3/fs/inode.c:171-189 | Closing a removed inode frees exactly its own sector and every sector it owns. |
| `FileTable.WriteStep` | a3/fs/inode.c:253-327 | After a write that may have grown one file, no two files share a sector, the other files hold what they held, and no sector is lost. |
| `FileTable.RemoveStep` | a3/fs/inode.c:171-189 | After a removal the other files are untouched, still disjoint, and no sector is lost. |
| `FileTable.DropStep` | a3/fs/inode.c:264-270 | A failed or truncating write to one file leaves all others as they were. |
| `FileSystem.FileSystem.Create` | a3/fs/filesys.c:65-77 | Inode sector and tree are exactly the first free sectors; the new file is zeros, all other files are unchanged, and success has an exact condition. On refusal the inode's sector is given back, and the free sectors left and the fate of sector 0 are exact. |
| `FileSystem.FileSystem.CreateAt` | a3/fs/directory.c:52-57 | The same for an inode whose sector is already in use, as the root directory's is. |
| `FileSystem.FileSystem.Remove` | a3/fs/inode.c:171-199 | Exactly the file disappears and exactly its sectors become free. |
| `FileSystem.FileSystem.Abandon` | a3/fs/filesys.c:83-84 | Exactly the inode's own sector is freed; the file is gone but its tree's sectors stay in use. |
| `FileSystem.FileSystem.GiveBack` | a3/fs/free-map.c:44-48 | Exactly the one sector becomes free, and no file, nor sector 0, changes. |
| `FileSystem.FileSystem.Read` | a3/fs/inode.c:201-247 | Returns the slice of the file's contents and changes no file. |
| `FileSystem.FileSystem.Write` | a3/fs/inode.c:253-327 | Either the file's contents become the splice, sectors moving only from the free list to it, or the write does not happen in full: then every other file is unchanged, and so is this one if no more than one data sector was missing; in any case its inode and bytes are still on the disk, and the free sectors left and the fate of sector 0 are exact. |
| `FileSystem.FileSystem.DataSectors` | a3/fs/inode.c:510-579 | The data sectors of a live file, in order. |
| `FileSystem.RoomToWrite` | a3/fs/inode.c:263-274 | For a file that owns what its length needs, a write has room exactly when it does not extend the file, or the longer file is within the capacity and costs no more than the old one and the free sectors together. |
| `FileSystem.FileSectors` | a3/fs/inode.c:406-508 | A live file's sectors, all in use, number what creating it took. |
| `FileSystem.InodeLaidOut` | a3/fs/inode.h:19-29 | In every reachable state each live file's inode is in its sector byte for byte, with the sectors the file owns and its length, and its index blocks word for word. |
| `FileSystem.ClearCount` | a3/fs/free-map.c:44-48 | Freeing sectors in use adds exactly their number to the free ones. |
| `FileSystem.Remount` | a3/fs/filesys.c:20-50 | Writing the cache back and mounting the device afresh recovers every file, its place, the free map and whether sectors are lost, as long as sector 0 has not been wiped; the result can be mounted again. |
| `FileSystem.ReopenMap` | a3/fs/free-map.c:51-61 | Closing the free-map file and opening it again, as formatting does, restores the bitmap and its file, and moves no file. |
| `FileSystem.MountWiped` | a3/fs/filesys.c:20-38 | Mounting a disk whose sector 0 was wiped reports the failure and goes on with a free map in which only the first two sectors are in use, and with a free-map file of length 0 open. |
| `Runs.Run` | a3/fs/inode.c:103-508 | Any sequence of creations, writes and removals acts as the same operations on byte strings, up to the first that does not get its sectors; which one that is follows from the number of free sectors and the lengths alone. Files that were there before are untouched. The failed operation changes no file but the one it would have written to, and if none fails no sector is lost. |
| `MapFile.FreeMapCreate` | a3/fs/free-map.c:64-77 | Creates the free-map file on the disk it describes, exactly when it fits, with its inode, not a directory, in sector 0 byte for byte and its sectors first off the free list. |
| `MapFile.BitmapRead` | a3/fs/bitmap.c:288-296 | Succeeds exactly when the file is long enough; in every case bit i of the map is bit i % 8 of the file's byte i / 8 if it has that byte, and as it was if not. |
| `MapFile.FreeMapOpen` | a3/fs/free-map.c:51-57 | On a disk whose free-map file holds a bitmap, opening it restores every bit and every word and changes no sector. |
| `MapFile.OpenWipedMap` | a3/fs/free-map.c:51-57 | On a disk whose sector 0 holds zeros, opening the free map fails, leaves the bitmap unchanged, and leaves a free-map file of length 0 without sectors open. |
| `MapFile.WipedMapInode` | a3/fs/inode.c:380-384 | A zeroed sector 0 reads as a free-map inode of length 0 without sectors. |
| `Runs.Perform` | a3/fs/inode.c:103-508 | One operation on the files so far: takes place exactly when the pure account of lengths and free sectors says so, and leaves exactly the free sectors that the account says. |
| `Space.BranchIsMost` | a3/fs/fsutil2.c:368-396 | Each branch of the closed form allows exactly the greatest number of data sectors that fits with its inode and index blocks. |
| `Space.CopyableIsOptimal` | a3/fs/fsutil2.c:360-397 | For a size of at least 1 the result is positive exactly with two free sectors or more, and its sector count is the lesser of what is asked for and the most that fits. |
| `Space.NothingCopyable` | a3/fs/fsutil2.c:368-372 | With at most one free sector the result is negative. |
| `Space.CopyInFits` | a3/fs/fsutil2.c:45-57 | For a positive result a file of that size can be created, and one byte more needs no further sector. |
| `Space.IsFragmented` | a3/fs/fsutil2.c:180-189 | Finds out exactly whether some data sector comes before its predecessor or more than 3 after it, wrap-around of 32-bit numbers included. |
| `Space.InSteps` | a3/fs/fsutil2.c:183-189 | For sector numbers from 1 to 2^32 - 3 a file is unfragmented exactly if each data sector comes at most 3 after its predecessor, and not before it. |
| `Space.GapWraps` | a3/fs/fsutil2.c:183-189 | A step back from sector 2^32 - 1 to sector 0 is not counted. |
| `Space.ConsecutiveIsUnfragmented` | a3/fs/fsutil2.c:183-189 | A file laid out on consecutive sectors, index blocks included, is never counted as fragmented. |
| `Space.ThresholdIsTight` | a3/fs/fsutil2.c:183-189 | On consecutive sectors a gap of exactly 3 occurs if and only if the file has more than 251 data sectors. |
| `Directory.StringRoundTrip` | a3/fs/directory.c:293-296 | A name of 1 to 30 characters copied into the padded name field reads back as itself. |
| `Directory.NamesThatFit` | a3/fs/directory.c:247-262 | The names accepted are exactly the nonempty strings that the 31-byte field can hold with their terminator. |
| `Directory.EntryRoundTrip` | a3/fs/directory.h:21-25 | A directory entry's 36 bytes determine it. |
| `Directory.EntryBytes` | a3/fs/directory.h:21-25 | The bytes of an entry: the sector number at 0, 31 characters from 4, in_use at 35. |
| `Directory.SlotBytes` | a3/fs/directory.h:21-25 | Where the fields of the i-th slot are in a directory's bytes. |
| `Directory.SlotsAfterWrite` | a3/fs/directory.c:293-296 | Writing an entry at a slot's offset, or just past the last slot, changes or adds exactly that slot. |
| `Directory.LookupIsBinding` | a3/fs/directory.c:179-198 | The search finds a name exactly when the directory's map binds it, and to the same sector. |
| `Directory.AddBinds` | a3/fs/directory.c:286-296 | Filling the first free slot adds exactly one binding, keeps names unique, and never touches slot 0. |
| `Directory.RemoveUnbinds` | a3/fs/directory.c:334-338 | Marking the found slot unused removes exactly that binding. |
| `Directory.ListingExact` | a3/fs/directory.c:351-362 | Reading the directory from its start returns the name of every binding exactly once. |
| `Directory.ListingInOrder` | a3/fs/directory.c:351-362 | Names are returned in the order of their slots. |
| `Directory.EmptyIsNoBinding` | a3/fs/directory.c:201-212 | The scan finds no entry in use exactly when the map is empty. |
| `Dirs.Dir.ReadEntry` | a3/fs/directory.c:187-189 | Reading at a slot's offset gives that slot, and is short exactly at the end. |
| `Dirs.Dir.Lookup` | a3/fs/directory.c:179-198 | Stops at the first slot in use for the name, or finds none. |
| `Dirs.Dir.WriteEntry` | a3/fs/directory.c:293-296 | Stores one slot, exactly when it exists or one more can be afforded; rewriting an existing slot moves no sector. A directory that cannot grow keeps its slots, and no file changes. |
| `Dirs.Dir.Add` | a3/fs/directory.c:247-300 | Succeeds exactly when the name has 1 to 30 characters, is not bound, and a slot exists or can be afforded; then it adds exactly that binding; otherwise the directory and all files are as they were, and the free sectors left are exact. |
| `Dirs.Dir.FindFree` | a3/fs/directory.c:286-290 | Finds the first unused slot, or the end. |
| `Dirs.Dir.IsEmpty` | a3/fs/directory.c:201-212 | True exactly when nothing is bound. |
| `Dirs.Dir.ReadDir` | a3/fs/directory.c:351-362 | Returns the next name in use and moves past it, or reports that none is left. |
| `Filesys.MadeThenNamed` | a3/fs/filesys.c:65-77 | Creating an inode and binding a name to it adds exactly one named file of zeros and moves no other file. |
| `Filesys.MadeThenUnmade` | a3/fs/filesys.c:83-84 | Giving up on a made file loses exactly the sectors of its tree. |
| `Filesys.NamesAndHoles` | a3/fs/directory.c:286-290 | A well-formed directory has one slot for the parent, one for each name, and the rest empty. |
| `Filesys.UnboundThenReleased` | a3/fs/directory.c:334-345 | Erasing an entry and releasing its inode removes exactly one named file and frees what creating it took. |
| `Filesys.FileNameOf` | a3/fs/directory.c:17-49 | Whatever directory part comes before it and however many slashes after it, the file name found in a path is its last component. |
| `Filesys.Create` | a3/fs/filesys.c:54-88 | Exact success condition and effect on the map from names to contents; the entry goes to the first empty slot. A creation that fails changes no file and no name, whichever step fails; the sectors it loses are exact: the tree when the name is refused or the directory cannot grow, and in that case what the directory took. So is the fate of sector 0. |
| `Filesys.CreatePath` | a3/fs/filesys.c:54-88 | Given a path, the file created is the one named by its last component, whatever the directory part. |
| `Filesys.Remove` | a3/fs/directory.c:305-346 | Succeeds exactly when the name is bound; then exactly that file is gone, its sectors are free, and its slot alone has changed, to unused. |
| `Filesys.Open` | a3/fs/directory.c:218-238 | Finds the inode bound to a name; "." and ".." are the directory and its parent. |
| `Filesys.OpenPath` | a3/fs/filesys.c:95-122 | Given a path, the file opened is the one bound to its last component; a path of slashes alone is the root directory, and the empty path is nothing. |
| `OpenFiles.ConsecutiveWrites` | a3/fs/file.c:133-138 | A second write starts on the last character of the first, so that character and the terminator are overwritten. |
| `OpenFiles.WriteKeepsTerminated` | a3/fs/file.c:133-138 | A file that is empty or ends in NUL ends in NUL after file_write, at any position. |
| `OpenFiles.File.Read` | a3/fs/file.c:109-113 | Reads the slice at the position and advances by the bytes read. |
| `OpenFiles.File.Write` | a3/fs/file.c:133-138 | The last byte given becomes NUL, in the caller's buffer too; the position advances by the bytes written minus 2. |
| `Fsutil.ReadWhole` | a3/fs/fsutil2.c:220-232 | Returns all of a named file's contents and changes nothing. |
| `Fsutil.WriteOpen` | a3/fs/file.c:133-138 | On an open file: the contents become the splice of the sealed buffer at the position, exactly when there is room, and the position advances by the bytes written minus 2. |
| `Fsutil.Rewrite` | a3/fs/fsutil2.c:262-265 | Replaces a named file's contents by the sealed buffer, in place: no sector moves. |
| `Commands.EffectIsTame` | a3/fs/fsutil.c:71-94 | Over any run of creations, removals and fsutil_write, every file stays empty or ending in NUL. |
| `Commands.EffectMayBeUntame` | a3/fs/file.c:147-150 | A creation and one file_write_at leave a file that does not end in NUL. |
| `Commands.ReachFollows` | a3/fs/fsutil.c:71-94 | Wherever a run stops, the lengths in its account are those of the files that its commands so far have left. |
| `Commands.MoreRoom` | a3/fs/free-map.c:31-41 | With more free sectors every run gets at least as far. |
| `Commands.DropUndoesMake` | a3/fs/inode.c:475-508 | Removing a file gives back all that creating and writing it took, however far the writes got; only the slots the directory gained stay. |
| `Sessions.WriteNamed` | a3/fs/fsutil.c:84-94 | fsutil_write with the open file at a given position: the named file's contents become the splice of the sealed buffer, exactly when the write has room. |
| `Sessions.WriteNamedAt` | a3/fs/file.c:147-150 | file_write_at on a named file: the contents become the splice of the buffer as it is, exactly when the write has room. |
| `Sessions.OthersNamed` | a3/fs/inode.c:264-270 | After a write without room every other name holds what it held, and this one too if no more than one data sector was missing. |
| `Sessions.StalledNames` | a3/fs/filesys.c:54-88 | A command that is not possible leaves every other name with its contents; a creation leaves all of them. |
| `Sessions.PossibleIsAffordable` | a3/fs/filesys.c:54-88 | Whether a command takes place on a disk depends only on the lengths of the files, the number of directory slots and the number of free sectors. |
| `Sessions.Perform` | a3/fs/fsutil.c:71-94 | One creation, removal, fsutil_write or file_write_at by name: exactly when it takes place, that it then acts as on a map from names to byte strings and leaves the free sectors its account says, and what it leaves when it does not. |
| `Sessions.Session` | a3/fs/fsutil.c:71-94 | Any sequence of these acts, on the bytes of directory and files, as on a map from names to byte strings up to the first one that is not possible, which follows from the account of the start; the free-map inode stays on the disk, and the directory in place unless it grows. The command that is not possible leaves the other names alone. |
| `CopyIn.CopyIn` | a3/fs/fsutil2.c:35-69 | Nothing happens exactly with one free sector or none. Otherwise, for any name, the file is stored if and only if the name is new and valid and the directory has a slot or can grow; it then holds all of the host file and a NUL if these fit into the most data sectors a new file can have, else as many bytes as fit and a NUL, and the write takes no further sector. Over an existing name the creation loses the tree's sectors and the same bytes are spliced into the old file, or, when they find no room, every other file stays as it was. Otherwise no file is stored and all are unchanged. |
| `CopyIn.ImageIsCopied` | a3/fs/fsutil2.c:45-57 | The size rule and the closed form together keep exactly the bytes that fit: none is lost while the most data sectors a file can have hold the host file and a NUL. |
| `CopyIn.DirectoryMayNotGrow` | a3/fs/fsutil2.c:45-57 | A full directory of 1009 slots and two free sectors: one byte is found to fit, yet the file cannot be created. |
| `Fragmentation.FragmentationDegree` | a3/fs/fsutil2.c:154-203 | Returns the number of files of more than 512 bytes, and the number of files of which some data sector comes before its predecessor or more than 3 after it. |
| `Fragmentation.NoneFragmented` | a3/fs/fsutil2.c:183-189 | The count is zero exactly when no listed file is fragmented. |
| `Fragmentation.CountsOfAll` | a3/fs/fsutil2.c:164-203 | Counting along the listing counts every file of the directory once. |
| `Fragmentation.NoneCounted` | a3/fs/fsutil2.c:164-203 | The second count is zero exactly when no file of the directory is fragmented. |
| `Defrag.Collect` | a3/fs/fsutil2.c:218-247 | Saves every named file once, in the order of the listing, with all its contents, and changes nothing. |
| `Defrag.RemoveAll` | a3/fs/fsutil2.c:250-256 | Every file is removed, and the free sectors grow by exactly what creating the files took. |
| `Defrag.RebuildAll` | a3/fs/fsutil2.c:258-271 | Every file is created and written again, in the order saved, always with room: the files fill the slots after the first without a hole, and each takes the next sectors of the free list, inode first. |
| `Defrag.OrderKept` | a3/fs/fsutil2.c:258-271 | Popping the saved files in the order in which they were pushed brings every one back to its place in the listing and on the disk. |
| `Defrag.OnlyBaseLeft` | a3/fs/fsutil2.c:250-256 | With the files gone, no leaks, and the free-map file and root directory first on the disk, the free sectors are consecutive from the first one past those. |
| `Defrag.TerminatedIsKept` | a3/fs/file.c:133-138 | Rewriting nonempty files changes none exactly when each ends in NUL. |
| `Defrag.Defragment` | a3/fs/fsutil2.c:209-273 | The same names afterwards hold the same contents with a final NUL, hence the same contents exactly when all ended in NUL; as many sectors are free; the directory does not move, lists the names in the same order and has no hole among them. On a disk whose free-map file and root directory come first, the inode of each listed file is at the first sector past these plus what the files listed before it take, no file is fragmented and the free sectors are consecutive. |
| `Format.NewDirectory` | a3/fs/directory.c:52-75 | A directory made of zeros with its parent's slot stored has itself as its parent, is well formed, binds nothing and has every other slot empty. |
| `Format.Format` | a3/fs/filesys.c:155-162 | Formatting succeeds exactly when the free-map file and the root directory fit; the result, its free map written, closed and opened again, is a fresh file system with no named file, the root its own parent, no lost sector, those two first on the disk, all sectors after them free, and the free-map inode on disk. |
| `Lifecycle.Reopen` | a3/fs/filesys.c:20-50 | filesys_done and filesys_init give back the directory with every name, byte, sector and free sector as it was. |
| `Lifecycle.Run` | a3/fs/filesys.c:20-50 | A run on a freshly formatted disk goes through exactly when its account, which the number of sectors determines, says so, and otherwise stops where it says; up to there the disk holds exactly the effect of the commands, no sector is lost, and the free-map file and the directory come first unless the directory grew. |
| `Lifecycle.SmallDisks` | a3/fs/filesys.c:155-162 | A disk of at most 4097 sectors can be formatted exactly from 75 sectors on, and has all but 75 free. |
| `Lifecycle.RoomierDisk` | a3/fs/filesys.c:155-162 | A disk that formatting leaves no fewer free sectors takes every run that the other takes. |
| `Lifecycle.LargerDiskMayHoldLess` | a3/fs/free-map.c:64-77 | A disk of 503810 sectors has one free sector less, once formatted, than one of 503809. |
| `Lifecycle.LetterFits` | a3/fs/filesys.c:54-88 | Creating a one-byte file and writing a letter to it goes through exactly when formatting leaves two sectors free. |
| `Lifecycle.LoseLastByte` | a3/fs/file.c:133-138 | On every disk with two sectors left by formatting, the run of `Commands.EffectMayBeUntame` leaves a file with the one letter, and defragmenting turns it into a NUL. |
| `Lifecycle.RunAndReopen` | a3/fs/filesys.c:20-50 | Format, any run, unmount, mount: exactly when the account of the run says that it goes through, the names then hold exactly the effect of the commands. |
| `Lifecycle.RunAndDefragment` | a3/fs/fsutil2.c:154-273 | Format, any run of creations, removals and fsutil_write that leaves no empty file, defragment: it goes through exactly when the account of the run says so; every file then holds what it held, and unless the directory grew fragmentation_degree finds no fragmented file. |
| `Scatter.ScatterFile` | a3/fs/fsutil2.c:154-203 | On every disk with six sectors left by formatting, two creations and a write leave the first file fragmented and the second not. |
| `Scatter.ScatterAndDefragment` | a3/fs/fsutil2.c:154-273 | After that run fragmentation_degree counts two files and one fragmented; after defragment none is, and both hold what they held. |
| `Sorting.MergeSorted` | a3/fs/list.c:323-340 | Merging two sorted sequences gives a sorted one. |
| `Sorting.MergeTies` | a3/fs/list.c:323-340 | Elements that tie keep their order, those of the first run first. |
| `Sorting.RunEndInOrder` | a3/fs/list.c:304-316 | Nothing in a run comes before its predecessor in the order, and what follows the run does. |
| `Sorting.PassCountHalves` | a3/fs/list.c:359-375 | A pass counts half the maximal runs of its input, rounded up. |
| `Sorting.PassRuns` | a3/fs/list.c:345-376 | A pass leaves no more maximal runs than it counted. |
| `Sorting.PassTies` | a3/fs/list.c:345-376 | A pass keeps ties in order. |
| `Sorting.InsertAllCorrect` | a3/fs/list.c:381-393 | Inserting one by one in order sorts, permutes, and keeps ties in order. |
| `Sorting.SortedStableUnique` | a3/fs/list.c:345-376 | There is only one sorted arrangement that keeps ties in order. |
| `Sorting.UniqueElements` | a3/fs/list.c:399-417 | Elements kept and elements taken out are together those of the input. |
| `Sorting.UniqueStrict` | a3/fs/list.c:399-417 | On a sorted list the elements kept increase strictly and each element ties with one of them. |
| `Sorting.UniqueNeighbours` | a3/fs/list.c:399-417 | On any list, neighbours that are kept never tie. |
| `Sorting.DroppedTies` | a3/fs/list.c:399-417 | On any list, every element taken out ties, both ways, with the element kept before it, and they are taken out in order. |
| `LinkedList.ListInsert` | a3/fs/list.c:144-152 | The chain, both directions, has the element just before the given one. |
| `LinkedList.ListRemove` | a3/fs/list.c:216-221 | The chain closes around the element, and its successor is returned. |
| `LinkedList.ListSplice` | a3/fs/list.c:157-176 | The range moves to just before the given element of the same list, toward the head or toward the tail, all links well formed. |
| `LinkedList.List.FindEndOfRun` | a3/fs/list.c:304-316 | Returns the end of the maximal run that starts at the element. |
| `LinkedList.List.InplaceMerge` | a3/fs/list.c:323-340 | The two ranges become their stable merge where they stand; the rest of the list, and the set of elements, are unchanged. |
| `LinkedList.List.SortPass` | a3/fs/list.c:356-374 | One pass merges adjacent runs in pairs and counts them. |
| `LinkedList.List.Sort` | a3/fs/list.c:345-376 | For any strict weak order, terminates with the same elements relinked as inserting them one by one in order would arrange them: sorted, and stable. |
| `LinkedList.List.InsertInOrder` | a3/fs/list.c:381-393 | The element goes before the first one it is less than, on any list. |
| `LinkedList.List.Reverse` | a3/fs/list.c:277-286 | The same elements in reverse order, links well formed. |
| `LinkedList.List.RemoveTies` | a3/fs/list.c:399-417 | Of each stretch of ties the first stays; the others go, in order, to the end of the duplicates list if there is one. |
| `LinkedList.List.PushFront` | a3/fs/list.c:180-182 | The element becomes the first; the others keep their order. |
| `LinkedList.List.PushBack` | a3/fs/list.c:186-188 | The element becomes the last; the others keep their order. |
| `LinkedList.List.PopFront` | a3/fs/list.c:225-229 | Removes and returns the first element. |
| `LinkedList.List.PopBack` | a3/fs/list.c:233-237 | Removes and returns the last element. |
| `LinkedList.List.Size` | a3/fs/list.c:255-262 | The number of elements. |
| `LinkedList.RelinkedChain` | a3/fs/list.c:167-175 | The six link assignments of a splice make a well-formed chain of the moved sequence. |

## Left out

- The table of open inodes and `open_cnt`: `inode_reopen` counts nothing, so nothing is claimed about reference counts. Each file-system operation opens the inode afresh from its sector; removing and closing are one step.
- Offsets near the limit of a 32-bit `offset_t`: lengths and offsets are taken up to 2^31 - 512, so that rounding up to sectors does not overflow.
- Failures of `malloc`, and the assertions of `debug.h`, which only print: what the code asserts is a precondition or is proved.
- Files.WriteAt: after a write that lacks more than one data sector the partly grown index blocks of that one file are not described; the source does not roll it back. FileSystem.FileSystem.Write drops such a file from the table, though its inode and bytes are shown to be still on the disk. With at most one data sector missing the file is shown to be whole.
- Runs.Run: stops at the first operation that does not get its sectors, and Sessions.Session at the first that is not possible, for the same reason.
- FileSystem.Remount: needs the on-disk inode in sector 0 to be current, which a reservation that runs out on an index block destroys; FileSystem.MountWiped is the other case, up to the free map it starts from.
- Filesys.Remove: plain files only, without the emptiness check of a directory. Nested directories and the sharing of `cwd` are not modelled; filesys_create and filesys_open go to the root directory whatever the path (Filesys.CreatePath, Filesys.OpenPath), and the path that filesys_remove follows is a single component here.
- Dirs.Dir.Add: plain files only, without the entry that dir_add writes for the parent into a new directory.
- Filesys.OpenPath: says which inode is found; reading a directory as a file is not modelled.
- Filesys.Create: the name holds no slash, as the one that split_path_filename finds in a path never does; Sessions.Session, Lifecycle.Run and CopyIn.CopyIn take such names instead of paths.
- CopyIn.CopyIn: the names "." and "..", under which the write would go to a directory, are not modelled, nor is the null dereference that follows a creation that failed. Reading the host file is replaced by its bytes.
- Defrag.Defragment: files are nonempty, as `file_write` of zero bytes writes before its buffer, and none is called "." or "..", which `dir_lookup` does not look up. The table of open files, whose entries are closed and whose positions are restored, is not modelled; the saved files are a sequence of values instead of list elements.
- Fragmentation.FragmentationDegree: returns the two counts; the printed percentage is left out.
- OpenFiles.File.Write: the position must not be negative, which a failed write at position 0 or 1 makes it; the offset arithmetic of the write that follows is then undefined.
- Sessions.Session: the table of open files is not modelled; a command says at which position the open file stands.
- LinkedList.ListSplice: splicing from another list is not modelled; no caller in the repository does it.
- InodeIO.WriteChunks: the caller's buffer is a sequence of bytes; that it could alias the cache is not modelled. The branch that clears the bounce buffer is never taken and has no effect on the contract.
- Volume.Volume.Allocate: `block_sector_t` is unbounded; the device has fewer than 2^32 - 1 sectors.
- `bitmap_create_in_buf`, `bitmap_create_from_buf`, `bitmap_any`, `bitmap_none`, `bitmap_dump`, `list_max`, `list_min`, the reverse iterators: they would add easy members only.
- `recover`, `find_file`, `copy_out`, `fsutil_ls`, `fsutil_cat`, `hex_dump`: printing and host files.
- The device layer (`block.c`, `ide.c`, `partition.c`): a device is an array of sectors and always works.
- The shells and interpreters of a1, a2 and a3, paging and scheduling.
