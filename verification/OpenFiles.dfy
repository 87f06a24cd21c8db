/** Open files (file.c): a position in an inode's bytes, and a write that always ends in NUL. */
module OpenFiles {
  import opened Sector
  import opened FileBytes
  import opened Reserve
  import opened Files
  import opened MapFile
  import opened FileSystem

  /** `buf` as file_write leaves it: the final byte becomes the null terminator. */
  function Sealed(buf: seq<byte>): (b: seq<byte>)
    ensures |b| == |buf| && (b != [] ==> b[|b| - 1] == 0)
    ensures forall i :: 0 <= i < |buf| - 1 ==> b[i] == buf[i]
  {
    if buf == [] then [] else buf[|buf| - 1 := 0]
  }

  /** Sealing changes nothing exactly when the last byte is already NUL. */
  lemma SealedWhenTerminated(buf: seq<byte>)
    requires buf != []
    ensures Sealed(buf) == buf <==> buf[|buf| - 1] == 0
  {
  }

  /** The last byte is NUL. */
  ghost predicate Terminated(bytes: seq<byte>) {
    bytes != [] && bytes[|bytes| - 1] == 0
  }

  /** file_write keeps a file that ends in NUL, or is empty, ending in NUL. */
  lemma WriteKeepsTerminated(contents: seq<byte>, p: nat, buf: seq<byte>)
    requires buf != [] && (contents == [] || Terminated(contents))
    ensures Terminated(Splice(contents, p, Sealed(buf)))
  {
  }

  /** Two writes in a row from position `p`: the second starts on the first one's last character
      before its terminator, so that character and the terminator are both overwritten. */
  lemma ConsecutiveWrites(contents: seq<byte>, p: nat, a: seq<byte>, b: seq<byte>)
    requires 2 <= |a| && 2 <= |b| && p + |a| >= |contents|
    ensures var once := Splice(contents, p, Sealed(a));
            var twice := Splice(once, p + |a| - 2, Sealed(b));
            |twice| == p + |a| + |b| - 2 && twice[p..] == a[..|a| - 2] + Sealed(b)
  {
  }

  /** struct file. */
  class File {
    const fs: FileSystem
    const inode: nat
    var pos: int

    /** file_open. */
    constructor (fs: FileSystem, inode: nat)
      ensures this.fs == fs && this.inode == inode && pos == 0
    {
      this.fs := fs;
      this.inode := inode;
      pos := 0;
    }

    /** file_read. */
    method Read(buffer: array<byte>, size: nat) returns (bytesRead: nat)
      requires fs.Inv() && inode in fs.files && 0 <= pos
      requires size <= buffer.Length && buffer as object !in fs.vol.Repr()
      modifies `pos, fs.vol.cache`clock, fs.vol.cache.device, fs.vol.cache.slots, buffer
      ensures fs.Inv() && fs.Data() == old(fs.Data()) && inode in fs.Data() && pos == old(pos) + bytesRead
      ensures Delivers(fs.Data()[inode], old(pos), size, buffer[..], bytesRead)
      ensures bytesRead <= size && buffer[bytesRead..] == old(buffer[bytesRead..])
    {
      hide FileSystem.Inv;
      bytesRead := fs.Read(inode, buffer, size, pos);
      assert this as object !in fs.vol.Repr();
      pos := pos + bytesRead;
    }

    /** file_write. A write that does not take place moves the position back by two bytes. */
    method Write(buffer: array<byte>, size: nat) returns (bytesWritten: nat)
      requires fs.Inv() && inode in fs.files && 0 <= pos && pos + size <= OFFSET_LIMIT
      requires 0 < size <= buffer.Length && buffer as object !in fs.vol.Repr()
      modifies `pos, fs, fs.vol.Repr(), buffer
      ensures fs.Inv() && buffer[..] == old(buffer[..])[size - 1 := 0] && pos == old(pos) + bytesWritten - 2
      ensures var c := CaseOf(false, old(fs.files[inode].d.length), old(pos), size,
                            |old(fs.files[inode].own)|, |old(fs.FreeSectors())|);
              && bytesWritten == (if c == Splices then size else 0)
              && (c == Splices ==>
                    && inode in fs.files && fs.files == old(fs.files)[inode := fs.files[inode]]
                    && fs.files[inode].d.isDir == old(fs.files)[inode].d.isDir
                    && fs.Data() == old(fs.Data())
                                   [inode := Splice(old(fs.Data())[inode], old(pos), Sealed(old(buffer[..size])))]
                    && fs.files[inode].own + fs.FreeSectors() == old(fs.files[inode].own + fs.FreeSectors())
                    && (old(fs.NoLeaks()) ==> fs.NoLeaks()))
              && (c != Splices ==>
                    var lost := if Nearly(old(pos) + size, |old(fs.files[inode].own)|) then {} else {inode};
                    fs.files == old(fs.files) - lost && fs.Data() == old(fs.Data()) - lost)
              && MapInodeAfter(fs.vol, old(MapInodeOnDisk(fs.vol)),
                               c == NoRoom && Wipes(old(pos) + size, |old(fs.files[inode].own)|,
                                                    |old(fs.FreeSectors())|))
    {
      hide FileSystem.Inv, Splice, MapInodeOnDisk, Wipes, Nearly;
      assert buffer as object !in fs.vol.Repr();
      ghost var image := buffer[..];
      FileFacts(fs, inode);
      Seal(buffer, size);
      bytesWritten := fs.Write(inode, buffer[..size], pos);
      assert this as object !in fs.vol.Repr();
      pos := pos + bytesWritten - 2;
    }

    method Seal(buffer: array<byte>, size: nat)
      requires fs.Inv() && 0 < size <= buffer.Length && buffer as object !in fs.vol.Repr()
      modifies buffer
      ensures fs.Inv() && fs.Data() == old(fs.Data()) && fs.FreeSectors() == old(fs.FreeSectors())
      ensures fs.NoLeaks() == old(fs.NoLeaks()) && MapInodeOnDisk(fs.vol) == old(MapInodeOnDisk(fs.vol))
      ensures buffer[..] == old(buffer[..])[size - 1 := 0] && buffer[..size] == Sealed(old(buffer[..size]))
    {
      hide FileSystem.Inv;
      ghost var image := buffer[..];
      assert image[..size][size - 1 := 0] == image[size - 1 := 0][..size];
      buffer[size - 1] := 0;
      assert buffer[..] == image[size - 1 := 0];
    }

    /** file_seek. */
    method Seek(newPos: nat)
      modifies `pos
      ensures pos == newPos
    {
      pos := newPos;
    }
  }
}
