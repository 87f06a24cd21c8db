/** Whole runs: any sequence of file creations, writes and removals acts on the disk as on a list of
    byte strings, up to the first that does not find the sectors it needs. Which one that is follows
    from the number of free sectors. */
module Runs {
  import opened Sector
  import opened Geometry
  import opened FreeList
  import opened FileBytes
  import opened Files
  import opened MapFile
  import opened FileSystem

  /** A file is named by its place in the order of creation. */
  datatype Op =
    | Make(length: nat, isDir: bool)
    | Put(file: nat, ofs: nat, buf: seq<byte>)
    | Drop(file: nat)

  datatype FileState = Gone | Live(contents: seq<byte>)

  /** The offsets the source's arithmetic covers; writes are of at least one byte. */
  predicate Allowed(op: Op) {
    match op
    case Make(length, _) => length <= OFFSET_LIMIT
    case Put(_, ofs, buf) => 0 < |buf| && ofs + |buf| <= OFFSET_LIMIT
    case Drop(_) => true
  }

  predicate IsLive(state: seq<FileState>, file: nat) {
    file < |state| && state[file].Live?
  }

  function Step(state: seq<FileState>, op: Op): seq<FileState> {
    match op
    case Make(length, _) => state + [Live(Zeros(length))]
    case Put(file, ofs, buf) =>
      if IsLive(state, file) then state[file := Live(Splice(state[file].contents, ofs, buf))] else state
    case Drop(file) => if IsLive(state, file) then state[file := Gone] else state
  }

  function Outcome(ops: seq<Op>): seq<FileState> {
    if ops == [] then [] else Step(Outcome(ops[..|ops| - 1]), ops[|ops| - 1])
  }

  /** An operation finds its sectors, with so many free. */
  predicate Affords(state: seq<FileState>, free: nat, op: Op) {
    match op
    case Make(length, _) => Sectors(length) <= CAPACITY && CreationCost(length) <= free
    case Put(file, ofs, buf) => IsLive(state, file) ==> RoomFor(|state[file].contents|, ofs + |buf|, free)
    case Drop(_) => true
  }

  /** The sectors free after it. */
  function Spend(state: seq<FileState>, free: nat, op: Op): nat
    requires Affords(state, free, op)
  {
    match op
    case Make(length, _) => free - CreationCost(length)
    case Put(file, ofs, buf) =>
      if IsLive(state, file) then LeftByWrite(|state[file].contents|, ofs + |buf|, free) else free
    case Drop(file) => if IsLive(state, file) then free + CreationCost(|state[file].contents|) else free
  }

  /** How far a run gets from its operation `i` on. */
  function Reach(state: seq<FileState>, free: nat, ops: seq<Op>, i: nat): (r: nat)
    requires i <= |ops|
    ensures i <= r <= |ops|
    decreases |ops| - i
  {
    if i == |ops| || !Affords(state, free, ops[i]) then i
    else Reach(Step(state, ops[i]), Spend(state, free, ops[i]), ops, i + 1)
  }

  /** The disk holds the files of `state`, each at its own inode sector, next to the files
      of `base`, which are as they were. */
  ghost predicate Represents(data: map<nat, seq<byte>>, base: map<nat, seq<byte>>, state: seq<FileState>,
      handles: seq<nat>) {
    && |handles| == |state|
    && (forall k :: 0 <= k < |state| && state[k].Live? ==>
          handles[k] in data && data[handles[k]] == state[k].contents && handles[k] !in base)
    && (forall j, k :: 0 <= j < k < |state| && state[j].Live? && state[k].Live? ==> handles[j] != handles[k])
    && (forall s :: s in base ==> s in data && data[s] == base[s])
    && (forall s :: s in data ==> s in base || exists k :: 0 <= k < |state| && state[k].Live? && handles[k] == s)
  }

  lemma RepresentsMake(data: map<nat, seq<byte>>, base: map<nat, seq<byte>>, state: seq<FileState>, handles: seq<nat>,
      sector: nat, bytes: seq<byte>)
    requires Represents(data, base, state, handles) && sector !in data
    ensures Represents(data[sector := bytes], base, state + [Live(bytes)], handles + [sector])
  {
    var state', handles' := state + [Live(bytes)], handles + [sector];
    forall s | s in data[sector := bytes]
      ensures s in base || exists k :: 0 <= k < |state'| && state'[k].Live? && handles'[k] == s
    {
      if s == sector {
        assert handles'[|state|] == s && state'[|state|].Live?;
      } else if s !in base {
        var k :| 0 <= k < |state| && state[k].Live? && handles[k] == s;
        assert state'[k].Live? && handles'[k] == s;
      }
    }
  }

  lemma RepresentsPut(data: map<nat, seq<byte>>, base: map<nat, seq<byte>>, state: seq<FileState>, handles: seq<nat>,
      file: nat, bytes: seq<byte>)
    requires Represents(data, base, state, handles) && IsLive(state, file)
    ensures Represents(data[handles[file] := bytes], base, state[file := Live(bytes)], handles)
  {
    var state' := state[file := Live(bytes)];
    forall s | s in data[handles[file] := bytes]
      ensures s in base || exists k :: 0 <= k < |state'| && state'[k].Live? && handles[k] == s
    {
      if s !in base {
        var k :| 0 <= k < |state| && state[k].Live? && handles[k] == s;
        assert state'[k].Live? && handles[k] == s;
      }
    }
  }

  lemma RepresentsDrop(data: map<nat, seq<byte>>, base: map<nat, seq<byte>>, state: seq<FileState>, handles: seq<nat>,
      file: nat)
    requires Represents(data, base, state, handles) && IsLive(state, file)
    ensures Represents(data - {handles[file]}, base, state[file := Gone], handles)
  {
    var state' := state[file := Gone];
    forall s | s in data - {handles[file]}
      ensures s in base || exists k :: 0 <= k < |state'| && state'[k].Live? && handles[k] == s
    {
      if s !in base {
        var k :| 0 <= k < |state| && state[k].Live? && handles[k] == s;
        assert state'[k].Live? && handles[k] == s;
      }
    }
  }

  lemma OneMore(ops: seq<Op>, i: nat)
    requires i < |ops|
    ensures Outcome(ops[..i + 1]) == Step(Outcome(ops[..i]), ops[i])
  {
    assert ops[..i + 1][..i] == ops[..i];
  }

  ghost predicate Holds(fs: FileSystem, base: map<nat, seq<byte>>, state: seq<FileState>, handles: seq<nat>)
    reads fs, fs.vol, fs.vol.Repr(), fs.vol.mapFile
  {
    fs.Inv() && Represents(fs.Data(), base, state, handles)
  }

  /** What a failed operation leaves: all files but the one it would have written to. */
  ghost predicate Remains(data: map<nat, seq<byte>>, at: map<nat, seq<byte>>, handles: seq<nat>, op: Op) {
    match op
    case Make(_, _) => data == at
    case Put(file, _, _) => file < |handles| && (data == at || data == at - {handles[file]})
    case Drop(_) => false
  }

  /** A write, with the room it needs and takes. */
  method WriteFile(fs: FileSystem, sector: nat, ofs: nat, buf: seq<byte>) returns (done: bool)
    requires fs.Inv() && sector in fs.files && sector in fs.Data() && 0 < |buf| && ofs + |buf| <= OFFSET_LIMIT
    modifies fs, fs.vol.Repr()
    ensures var bytes, free := old(fs.Data())[sector], |old(fs.FreeSectors())|;
            && fs.Inv() && done == RoomFor(|bytes|, ofs + |buf|, free)
            && (done ==>
                  && fs.Data() == old(fs.Data())[sector := Splice(bytes, ofs, buf)]
                  && |fs.FreeSectors()| + CreationCost(Max(|bytes|, ofs + |buf|)) == free + CreationCost(|bytes|)
                  && (old(fs.NoLeaks()) ==> fs.NoLeaks()))
            && (!done ==> fs.Data() == old(fs.Data()) || fs.Data() == old(fs.Data()) - {sector})
  {
    hide FileSystem.Inv, FileSystem.Data, FileSystem.NoLeaks, FileSystem.FreeSectors, MapInodeOnDisk, Wipes,
      SectorsLeft, Sectors, Total, CaseOf, RoomFor;
    ghost var length, own, free := |fs.Data()[sector]|, fs.files[sector].own, fs.FreeSectors();
    FileFacts(fs, sector);
    RoomToWrite(length, ofs, |buf|, |free|);
    var written := fs.Write(sector, buf, ofs);
    done := written == |buf|;
    if done {
      FileFacts(fs, sector);
      assert |fs.files[sector].own + fs.FreeSectors()| == |own + free|;
    }
  }

  method RemoveFile(fs: FileSystem, sector: nat)
    requires fs.Inv() && sector in fs.files && sector in fs.Data()
    modifies fs, fs.vol.Repr()
    ensures fs.Inv() && fs.Data() == old(fs.Data()) - {sector} && (old(fs.NoLeaks()) ==> fs.NoLeaks())
    ensures |fs.FreeSectors()| == |old(fs.FreeSectors())| + CreationCost(|old(fs.Data())[sector]|)
  {
    hide FileSystem.Inv, FileSystem.Data, FileSystem.NoLeaks, MapInodeOnDisk, CreationCost, Clear, SetOf, Free;
    FileSectors(fs, sector);
    ClearCount(fs.vol.freeMap.contents, {sector} + SetOf(fs.files[sector].own));
    fs.Remove(sector);
  }

  /** One operation; `live` tells which of the files so far exist. */
  method Perform(fs: FileSystem, op: Op, handles: seq<nat>, live: seq<bool>, ghost base: map<nat, seq<byte>>,
      ghost state: seq<FileState>) returns (done: bool, handles': seq<nat>, live': seq<bool>)
    requires Holds(fs, base, state, handles) && Allowed(op)
    requires |live| == |handles| && forall k :: 0 <= k < |live| ==> live[k] == IsLive(state, k)
    modifies fs, fs.vol.Repr()
    ensures fs.Inv() && done == Affords(state, |old(fs.FreeSectors())|, op)
    ensures done ==>
              Holds(fs, base, Step(state, op), handles') && |live'| == |handles'| &&
              (forall k :: 0 <= k < |live'| ==> live'[k] == IsLive(Step(state, op), k)) &&
              |fs.FreeSectors()| == Spend(state, |old(fs.FreeSectors())|, op) && (old(fs.NoLeaks()) ==> fs.NoLeaks())
    ensures !done ==> handles' == handles && Remains(fs.Data(), old(fs.Data()), handles, op)
  {
    hide FileSystem.Inv, FileSystem.Data, FileSystem.NoLeaks, FileSystem.FreeSectors, Represents, Splice, Zeros,
      CreationCost, CaseOf, RoomFor, MapInodeOnDisk, Wipes, SectorsLeft, Sectors;
    handles', live' := handles, live;
    ghost var data := fs.Data();
    SameLength(data, base, state, handles);
    done := true;
    match op {
      case Make(length, isDir) =>
        DataKeys(fs);
        var sector;
        done, sector := fs.Create(length, isDir);
        if done {
          RepresentsMake(data, base, state, handles, sector, Zeros(length));
          handles', live' := handles + [sector], live + [true];
        }
      case Put(file, ofs, buf) =>
        if file < |live| && live[file] {
          LiveFile(fs, base, state, handles, file);
          done := WriteFile(fs, handles[file], ofs, buf);
          if done {
            RepresentsPut(data, base, state, handles, file, Splice(data[handles[file]], ofs, buf));
          }
        }
      case Drop(file) =>
        if file < |live| && live[file] {
          LiveFile(fs, base, state, handles, file);
          RemoveFile(fs, handles[file]);
          RepresentsDrop(data, base, state, handles, file);
          live' := live[file := false];
        }
    }
  }

  /** Performs `ops` in order, stopping at the first that does not get its sectors; `at` is what the disk
      held then. */
  method Run(fs: FileSystem, ops: seq<Op>) returns (count: nat, handles: seq<nat>, ghost at: map<nat, seq<byte>>)
    requires fs.Inv() && forall i :: 0 <= i < |ops| ==> Allowed(ops[i])
    modifies fs, fs.vol.Repr()
    ensures fs.Inv() && count == Reach([], |old(fs.FreeSectors())|, ops, 0)
    ensures Represents(at, old(fs.Data()), Outcome(ops[..count]), handles)
    ensures if count < |ops| then Remains(fs.Data(), at, handles, ops[count]) else fs.Data() == at
    ensures count == |ops| ==>
              Represents(fs.Data(), old(fs.Data()), Outcome(ops), handles) && (old(fs.NoLeaks()) ==> fs.NoLeaks())
  {
    hide FileSystem.Inv, FileSystem.Data, FileSystem.NoLeaks, FileSystem.FreeSectors, Represents, Affords, Spend,
      Step, Remains;
    handles, count := [], 0;
    ghost var base, free := fs.Data(), |fs.FreeSectors()|;
    NoFiles(base);
    var live := [];
    while count < |ops|
      invariant 0 <= count <= |ops| && Holds(fs, base, Outcome(ops[..count]), handles) && |live| == |handles|
      invariant forall k :: 0 <= k < |live| ==> live[k] == IsLive(Outcome(ops[..count]), k)
      invariant old(fs.NoLeaks()) ==> fs.NoLeaks()
      invariant Reach([], free, ops, 0) == Reach(Outcome(ops[..count]), |fs.FreeSectors()|, ops, count)
    {
      at := fs.Data();
      OneMore(ops, count);
      var done;
      done, handles, live := Perform(fs, ops[count], handles, live, base, Outcome(ops[..count]));
      if !done {
        return;
      }
      count := count + 1;
    }
    at := fs.Data();
    assert ops[..count] == ops;
  }

  lemma DataKeys(fs: FileSystem)
    ensures fs.Data().Keys == fs.files.Keys
  {
  }

  lemma NoFiles(base: map<nat, seq<byte>>)
    ensures Represents(base, base, [], [])
  {
  }

  lemma SameLength(data: map<nat, seq<byte>>, base: map<nat, seq<byte>>, state: seq<FileState>, handles: seq<nat>)
    requires Represents(data, base, state, handles)
    ensures |state| == |handles|
  {
  }

  lemma LiveFile(fs: FileSystem, base: map<nat, seq<byte>>, state: seq<FileState>, handles: seq<nat>, file: nat)
    requires fs.Inv() && Represents(fs.Data(), base, state, handles) && IsLive(state, file)
    ensures file < |handles| && handles[file] in fs.files && handles[file] in fs.Data()
    ensures fs.Data()[handles[file]] == state[file].contents
  {
  }
}
