/** What a run of named-file operations does and whether it goes through, in terms of names, bytes
    and numbers alone. Nothing here refers to a disk. */
module Commands {
  import opened Sector
  import opened Geometry
  import opened FileBytes
  import opened Files
  import opened FileSystem
  import opened Directory
  import opened Filesys
  import opened OpenFiles

  /** Put is fsutil_write with the open file's position at `pos`; PutAt is file_write_at. */
  datatype Command =
    | Make(name: Name, length: nat)
    | Put(name: Name, pos: nat, buf: seq<byte>)
    | PutAt(name: Name, ofs: nat, buf: seq<byte>)
    | Drop(name: Name)

  predicate Permitted(c: Command) {
    match c
    case Make(name, length) => IsString(name) && SLASH !in name && length <= OFFSET_LIMIT
    case Put(name, pos, buf) => !Special(name) && 0 < |buf| && pos + |buf| <= OFFSET_LIMIT
    case PutAt(name, ofs, buf) => !Special(name) && 0 < |buf| && ofs + |buf| <= OFFSET_LIMIT
    case Drop(_) => true
  }

  /** Writing to or removing a file that does not exist does nothing. */
  function Apply(files: map<Name, seq<byte>>, c: Command): map<Name, seq<byte>> {
    match c
    case Make(name, length) => files[name := Zeros(length)]
    case Put(name, pos, buf) => if name in files then files[name := Splice(files[name], pos, Sealed(buf))] else files
    case PutAt(name, ofs, buf) => if name in files then files[name := Splice(files[name], ofs, buf)] else files
    case Drop(name) => files - {name}
  }

  function Effect(files: map<Name, seq<byte>>, cs: seq<Command>): map<Name, seq<byte>> {
    if cs == [] then files else Apply(Effect(files, cs[..|cs| - 1]), cs[|cs| - 1])
  }

  lemma EffectNext(files: map<Name, seq<byte>>, cs: seq<Command>, i: nat)
    requires i < |cs|
    ensures Effect(files, cs[..i + 1]) == Apply(Effect(files, cs[..i]), cs[i])
  {
    assert cs[..i + 1][..i] == cs[..i];
  }

  /** Every file is empty or ends in NUL. */
  ghost predicate Tame(files: map<Name, seq<byte>>) {
    forall n :: n in files ==> files[n] == [] || Terminated(files[n])
  }

  /** Created, removed and written by fsutil_write alone, files stay empty or ending in NUL. */
  lemma {:induction false} EffectIsTame(files: map<Name, seq<byte>>, cs: seq<Command>)
    requires Tame(files) && forall i :: 0 <= i < |cs| ==> Permitted(cs[i]) && !cs[i].PutAt?
    ensures Tame(Effect(files, cs))
  {
    if cs == [] {
    } else {
      var before, c := Effect(files, cs[..|cs| - 1]), cs[|cs| - 1];
      EffectIsTame(files, cs[..|cs| - 1]);
      if c.Put? && c.name in before {
        WriteKeepsTerminated(before[c.name], c.pos, c.buf);
      }
    }
  }

  /** A one-byte file, and a letter written to it by file_write_at. */
  function LetterWritten(): (cs: seq<Command>)
    ensures |cs| == 2 && Permitted(cs[0]) && Permitted(cs[1])
  {
    [Make([97], 1), PutAt([97], 0, [98])]
  }

  /** That leaves a file that does not end in NUL. */
  lemma EffectMayBeUntame()
    ensures Effect(map[], LetterWritten()) == map[[97] := [98]] && !Tame(Effect(map[], LetterWritten()))
  {
    var cs := LetterWritten();
    assert cs[..1] == [Make([97], 1)] && cs[..1][..0] == [] && cs[..2] == cs;
    EffectNext(map[], cs, 1);
    EffectNext(map[], cs, 0);
    assert Splice(Zeros(1), 0, [98]) == [98];
    assert [97] in Effect(map[], cs);
  }

  /** The length of every file, the number of directory slots and the number of free sectors. */
  datatype Account = Account(lengths: map<Name, nat>, slots: nat, free: nat)

  /** The slots of the directory once it holds one more name; slot 0 holds none. */
  function SlotsFor(a: Account): nat {
    Max(a.slots, |a.lengths| + 2)
  }

  /** Whether a command takes place. */
  predicate Affords(a: Account, c: Command) {
    match c
    case Make(name, length) =>
      && ValidName(name) && name !in a.lengths
      && Sectors(length) <= CAPACITY && CreationCost(length) <= a.free
      && RoomFor(ENTRY_BYTES * a.slots, ENTRY_BYTES * SlotsFor(a), a.free - CreationCost(length))
    case Put(name, pos, buf) => name in a.lengths ==> RoomFor(a.lengths[name], pos + |buf|, a.free)
    case PutAt(name, ofs, buf) => name in a.lengths ==> RoomFor(a.lengths[name], ofs + |buf|, a.free)
    case Drop(_) => true
  }

  /** The account once a file, if it exists, has been written up to `end`. */
  function Written(a: Account, name: Name, end: nat): Account
    requires name in a.lengths ==> RoomFor(a.lengths[name], end, a.free)
  {
    if name !in a.lengths then a else
      a.(lengths := a.lengths[name := Max(a.lengths[name], end)], free := LeftByWrite(a.lengths[name], end, a.free))
  }

  /** The account after a command that takes place. */
  function Spend(a: Account, c: Command): Account
    requires Affords(a, c)
  {
    hide CreationCost, Sectors;
    match c
    case Make(name, length) =>
      Account(a.lengths[name := length], SlotsFor(a),
              LeftByWrite(ENTRY_BYTES * a.slots, ENTRY_BYTES * SlotsFor(a), a.free - CreationCost(length)))
    case Put(name, pos, buf) => Written(a, name, pos + |buf|)
    case PutAt(name, ofs, buf) => Written(a, name, ofs + |buf|)
    case Drop(name) =>
      if name in a.lengths then
        a.(lengths := a.lengths - {name}, free := a.free + CreationCost(a.lengths[name]))
      else a
  }

  /** How far a run gets from its command `i` on, and the account there. */
  function Reach(a: Account, cs: seq<Command>, i: nat): (r: (nat, Account))
    requires i <= |cs|
    ensures i <= r.0 <= |cs| && (r.0 < |cs| ==> !Affords(r.1, cs[r.0]))
    decreases |cs| - i
  {
    if i == |cs| || !Affords(a, cs[i]) then (i, a) else Reach(Spend(a, cs[i]), cs, i + 1)
  }

  /** A run goes through in full. */
  predicate GoesThrough(a: Account, cs: seq<Command>) {
    Reach(a, cs, 0).0 == |cs|
  }

  function Lengths(files: map<Name, seq<byte>>): map<Name, nat> {
    map n | n in files :: |files[n]|
  }

  /** The account follows the lengths of the files it speaks of. */
  lemma SpendFollows(a: Account, files: map<Name, seq<byte>>, c: Command)
    requires a.lengths == Lengths(files) && Affords(a, c)
    ensures Spend(a, c).lengths == Lengths(Apply(files, c))
  {
    hide CreationCost, Sectors, RoomFor, Lengths, ValidName;
    LengthsKeys(files);
    match c {
      case Make(name, length) => LengthsAfter(files, name, Zeros(length));
      case Put(name, pos, buf) =>
        if name in files {
          LengthsAfter(files, name, Splice(files[name], pos, Sealed(buf)));
        }
      case PutAt(name, ofs, buf) =>
        if name in files {
          LengthsAfter(files, name, Splice(files[name], ofs, buf));
        }
      case Drop(name) => LengthsWithout(files, name);
    }
  }

  lemma LengthsKeys(files: map<Name, seq<byte>>)
    ensures Lengths(files).Keys == files.Keys && forall n :: n in files ==> Lengths(files)[n] == |files[n]|
  {
  }

  lemma LengthsAfter(files: map<Name, seq<byte>>, name: Name, bytes: seq<byte>)
    ensures Lengths(files[name := bytes]) == Lengths(files)[name := |bytes|]
  {
  }

  lemma LengthsWithout(files: map<Name, seq<byte>>, name: Name)
    ensures Lengths(files - {name}) == Lengths(files) - {name}
    ensures name !in files ==> files - {name} == files
  {
  }

  /** Wherever a run stops, the account there is that of the files the commands so far have left. */
  lemma {:induction false} ReachFollows(a: Account, files: map<Name, seq<byte>>, cs: seq<Command>, i: nat)
    requires i <= |cs| && a.lengths == Lengths(Effect(files, cs[..i]))
    ensures var r := Reach(a, cs, i); r.1.lengths == Lengths(Effect(files, cs[..r.0]))
    decreases |cs| - i
  {
    if i == |cs| || !Affords(a, cs[i]) {
    } else {
      EffectNext(files, cs, i);
      SpendFollows(a, Effect(files, cs[..i]), cs[i]);
      ReachFollows(Spend(a, cs[i]), files, cs, i + 1);
    }
  }

  /** With `extra` more free sectors a run gets at least as far. */
  lemma {:induction false} MoreRoom(a: Account, extra: nat, cs: seq<Command>, i: nat)
    requires i <= |cs|
    ensures Reach(a, cs, i).0 <= Reach(a.(free := a.free + extra), cs, i).0
    decreases |cs| - i
  {
    hide Affords, Spend;
    if i == |cs| || !Affords(a, cs[i]) {
    } else {
      MoreToSpend(a, extra, cs[i]);
      MoreRoom(Spend(a, cs[i]), extra, cs, i + 1);
    }
  }

  lemma MoreToSpend(a: Account, extra: nat, c: Command)
    requires Affords(a, c)
    ensures var b := a.(free := a.free + extra);
            Affords(b, c) && Spend(b, c) == Spend(a, c).(free := Spend(a, c).free + extra)
  {
    hide CreationCost, Sectors;
  }

  /** Removing a file undoes its creation, whatever has been written to it since: all its sectors come
      back, the ones the directory took stay with it. */
  lemma DropUndoesMake(a: Account, name: Name, length: nat, writes: seq<Command>)
    requires Affords(a, Make(name, length))
    requires forall i :: 0 <= i < |writes| ==> (writes[i].Put? || writes[i].PutAt?) && writes[i].name == name
    ensures var r := Reach(Spend(a, Make(name, length)), writes, 0);
            var b := Spend(r.1, Drop(name));
            && b.lengths == a.lengths
            && b.free + CreationCost(ENTRY_BYTES * b.slots) == a.free + CreationCost(ENTRY_BYTES * a.slots)
  {
    hide CreationCost, Sectors;
    var made := Spend(a, Make(name, length));
    WritesConserve(made, name, writes, 0);
    var r := Reach(made, writes, 0);
    assert r.1.lengths - {name} == a.lengths;
  }

  lemma {:induction false} WritesConserve(a: Account, name: Name, writes: seq<Command>, i: nat)
    requires i <= |writes| && name in a.lengths
    requires forall i :: 0 <= i < |writes| ==> (writes[i].Put? || writes[i].PutAt?) && writes[i].name == name
    ensures var b := Reach(a, writes, i).1;
            && name in b.lengths && b.slots == a.slots && b.lengths - {name} == a.lengths - {name}
            && b.free + CreationCost(b.lengths[name]) == a.free + CreationCost(a.lengths[name])
    decreases |writes| - i
  {
    hide CreationCost, Sectors;
    if i == |writes| || !Affords(a, writes[i]) {
    } else {
      WritesConserve(Spend(a, writes[i]), name, writes, i + 1);
    }
  }

  lemma LetterGoesThrough(a: Account)
    requires a.lengths == map[] && a.slots >= 2
    ensures GoesThrough(a, LetterWritten()) <==> a.free >= 2
  {
    hide CreationCost, Sectors;
    OneByteCost();
    var cs := LetterWritten();
    if a.free >= 2 {
      var b := Spend(a, cs[0]);
      assert b.lengths[[97]] == 1;
    }
  }

  lemma OneByteCost()
    ensures Sectors(1) == 1 && CreationCost(1) == 2
  {
  }
}
