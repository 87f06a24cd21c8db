/** A directory's contents as slots, and the finite map from names to inode sectors that the
    slots stand for (directory.c). */
module Directory {
  import opened Sector
  import opened FileBytes

  const ENTRY_BYTES := 36
  const NAME_MAX := 30
  const NAME_BYTES := 31

  /** A C string without its terminator. */
  type Name = seq<byte>

  predicate IsString(n: Name) {
    forall i :: 0 <= i < |n| ==> n[i] != 0
  }

  /** The names dir_add accepts. */
  predicate ValidName(n: Name) {
    IsString(n) && 1 <= |n| <= NAME_MAX
  }

  /** The string that starts a character array. */
  function StringIn(b: seq<byte>): (n: Name)
    ensures IsString(n) && |n| <= |b|
    ensures |n| < |b| ==> b[|n|] == 0
    ensures forall i :: 0 <= i < |n| ==> n[i] == b[i]
  {
    if b == [] || b[0] == 0 then [] else [b[0]] + StringIn(b[1..])
  }

  /** strncpy into an array of NAME_BYTES characters. */
  function Padded(n: Name): (b: seq<byte>)
    requires |n| <= NAME_MAX
    ensures |b| == NAME_BYTES && forall i :: 0 <= i < NAME_BYTES ==> b[i] == if i < |n| then n[i] else 0
  {
    n + seq(NAME_BYTES - |n|, _ => 0)
  }

  lemma {:induction false} StringUnique(b: seq<byte>, n: Name)
    requires IsString(n) && |n| < |b| && b[|n|] == 0 && forall i :: 0 <= i < |n| ==> n[i] == b[i]
    ensures StringIn(b) == n
  {
    if n == [] {
    } else {
      assert b[0] == n[0] != 0;
      StringUnique(b[1..], n[1..]);
    }
  }

  lemma StringRoundTrip(n: Name)
    requires ValidName(n)
    ensures StringIn(Padded(n)) == n
  {
    StringUnique(Padded(n), n);
  }

  /** The names dir_add accepts are those that the name field can hold with their terminator. */
  lemma NamesThatFit(n: Name)
    ensures ValidName(n) <==> n != [] && exists b: seq<byte> :: |b| == 31 && b[30] == 0 && StringIn(b) == n
  {
    if ValidName(n) {
      StringRoundTrip(n);
      assert Padded(n)[30] == 0;
    }
  }

  /** struct dir_entry. */
  datatype Entry = Entry(sector: nat, name: seq<byte>, inUse: bool)

  function DecodeEntry(b: seq<byte>): (e: Entry)
    requires |b| == ENTRY_BYTES
    ensures |e.name| == NAME_BYTES
  {
    Entry(WordAt(b, 0), b[4..35], b[35] != 0)
  }

  function EncodeEntry(e: Entry): (b: seq<byte>)
    requires |e.name| == NAME_BYTES
    ensures |b| == ENTRY_BYTES
  {
    EncodeWords([e.sector]) + e.name + [if e.inUse then 1 else 0]
  }

  lemma EntryRoundTrip(e: Entry)
    requires |e.name| == NAME_BYTES && e.sector < WORD_LIMIT
    ensures DecodeEntry(EncodeEntry(e)) == e
  {
    var b := EncodeEntry(e);
    EncodedWordAt([e.sector], 0);
    assert b[..4] == EncodeWords([e.sector]) && b[4..35] == e.name;
    assert forall k :: 0 <= k < 4 ==> b[k] == b[..4][k];
  }

  /** The bytes of struct dir_entry: a sector number, 31 characters and a bool. */
  lemma EntryBytes(e: Entry)
    requires |e.name| == NAME_BYTES && e.sector < WORD_LIMIT
    ensures var b := EncodeEntry(e);
            && WordAt(b, 0) == e.sector && (forall k :: 0 <= k < 31 ==> b[4 + k] == e.name[k])
            && b[35] == if e.inUse then 1 else 0
  {
    hide WordByte;
    var b := EncodeEntry(e);
    forall k | 0 <= k < 4 ensures b[k] == WordByte(e.sector, k) {
    }
    WordRoundTrip(e.sector, b, 0);
  }

  /** The entries a directory's bytes hold, the parent's first. */
  function Slots(data: seq<byte>): (slots: seq<Entry>)
    ensures |slots| == |data| / ENTRY_BYTES
  {
    seq(|data| / ENTRY_BYTES, i requires 0 <= i < |data| / ENTRY_BYTES =>
      DecodeEntry(data[ENTRY_BYTES * i..ENTRY_BYTES * i + ENTRY_BYTES]))
  }

  /** Where the fields of slot `i` are in a directory's bytes. */
  lemma SlotBytes(data: seq<byte>, i: nat)
    requires i < |data| / 36
    ensures var e := Slots(data)[i];
            && e.sector == WordAt(data, 36 * i) && |e.name| == 31
            && (forall k :: 0 <= k < 31 ==> e.name[k] == data[36 * i + 4 + k])
            && e.inUse == (data[36 * i + 35] != 0)
  {
    var b := data[36 * i..36 * i + 36];
    assert b[0] == data[36 * i] && b[1] == data[36 * i + 1] && b[2] == data[36 * i + 2] && b[3] == data[36 * i + 3];
  }

  /** `slots` with `e` at position `i`, which may be one past the last. */
  function Put(slots: seq<Entry>, i: nat, e: Entry): seq<Entry>
    requires i <= |slots|
  {
    if i < |slots| then slots[i := e] else slots + [e]
  }

  /** Writing an encoded entry at a slot's offset changes that slot only. */
  lemma SlotsAfterWrite(data: seq<byte>, i: nat, e: Entry)
    requires |data| % ENTRY_BYTES == 0 && i <= |Slots(data)| && |e.name| == NAME_BYTES && e.sector < WORD_LIMIT
    ensures Slots(Splice(data, ENTRY_BYTES * i, EncodeEntry(e))) == Put(Slots(data), i, e)
    ensures |Splice(data, ENTRY_BYTES * i, EncodeEntry(e))| % ENTRY_BYTES == 0
  {
    hide EncodeEntry, DecodeEntry;
    var b := EncodeEntry(e);
    var after := Splice(data, ENTRY_BYTES * i, b);
    var n := |data| / ENTRY_BYTES;
    assert |data| == ENTRY_BYTES * n;
    assert |after| == ENTRY_BYTES * (if i < n then n else n + 1);
    EntryRoundTrip(e);
    forall k | 0 <= k < |Slots(after)| ensures Slots(after)[k] == Put(Slots(data), i, e)[k] {
      var at := ENTRY_BYTES * k;
      if k == i {
        assert after[at..at + ENTRY_BYTES] == b;
      } else {
        assert k < n;
        assert after[at..at + ENTRY_BYTES] == data[at..at + ENTRY_BYTES];
      }
    }
  }

  /** Slot `e` is in use for a file called `name`. */
  predicate IsFor(e: Entry, name: Name) {
    e.inUse && StringIn(e.name) == name
  }

  /** The first slot from `i` on for `name`, or the number of slots. */
  function Find(slots: seq<Entry>, name: Name, i: nat): (j: nat)
    requires i <= |slots|
    ensures i <= j <= |slots| && (j < |slots| ==> IsFor(slots[j], name))
    decreases |slots| - i
  {
    if i == |slots| || IsFor(slots[i], name) then i else Find(slots, name, i + 1)
  }

  lemma {:induction false} FindFirst(slots: seq<Entry>, name: Name, i: nat)
    requires i <= |slots|
    ensures forall k :: i <= k < Find(slots, name, i) ==> !IsFor(slots[k], name)
    decreases |slots| - i
  {
    if i == |slots| {
    } else {
      FindFirst(slots, name, i + 1);
    }
  }

  /** The first slot from `i` on not in use, or the number of slots. */
  function FreeSlot(slots: seq<Entry>, i: nat): (j: nat)
    requires i <= |slots|
    ensures i <= j <= |slots| && (j < |slots| ==> !slots[j].inUse)
    ensures forall k :: i <= k < j ==> slots[k].inUse
    decreases |slots| - i
  {
    if i == |slots| || !slots[i].inUse then i else FreeSlot(slots, i + 1)
  }

  /** Slot 0 is the parent's; every other slot in use has a name of its own. */
  ghost predicate WellFormed(slots: seq<Entry>) {
    && |slots| > 0 && slots[0].inUse
    && (forall i :: 1 <= i < |slots| && slots[i].inUse ==> ValidName(StringIn(slots[i].name)))
    && (forall i, j :: 1 <= i < j < |slots| && slots[i].inUse && slots[j].inUse ==>
          StringIn(slots[i].name) != StringIn(slots[j].name))
  }

  /** The directory as a finite map. */
  ghost function Bindings(slots: seq<Entry>): map<Name, nat>
    requires |slots| > 0
  {
    map n | n in Names(slots) :: slots[Find(slots, n, 1)].sector
  }

  ghost function Names(slots: seq<Entry>): (ns: set<Name>)
    requires |slots| > 0
    ensures forall n :: n in ns <==> Find(slots, n, 1) < |slots|
  {
    var ns := set i | 1 <= i < |slots| && slots[i].inUse :: StringIn(slots[i].name);
    NamesFound(slots, ns);
    ns
  }

  lemma NamesFound(slots: seq<Entry>, ns: set<Name>)
    requires |slots| > 0 && ns == set i | 1 <= i < |slots| && slots[i].inUse :: StringIn(slots[i].name)
    ensures forall n :: n in ns <==> Find(slots, n, 1) < |slots|
  {
    forall n ensures n in ns <==> Find(slots, n, 1) < |slots| {
      FindFirst(slots, n, 1);
      if n in ns {
        var i :| 1 <= i < |slots| && slots[i].inUse && StringIn(slots[i].name) == n;
        assert IsFor(slots[i], n);
      }
    }
  }

  /** In a well-formed directory the only slot for a name is the one the search finds. */
  lemma OnlySlot(slots: seq<Entry>, name: Name, i: nat)
    requires WellFormed(slots) && 1 <= i < |slots| && IsFor(slots[i], name)
    ensures Find(slots, name, 1) == i && name in Bindings(slots) && Bindings(slots)[name] == slots[i].sector
  {
    var j := Find(slots, name, 1);
    FindFirst(slots, name, 1);
    assert j < |slots| && IsFor(slots[j], name);
  }

  /** lookup answers as the map does. */
  lemma LookupIsBinding(slots: seq<Entry>, name: Name)
    requires WellFormed(slots)
    ensures name in Bindings(slots) <==> Find(slots, name, 1) < |slots|
    ensures name in Bindings(slots) ==> Bindings(slots)[name] == slots[Find(slots, name, 1)].sector && ValidName(name)
  {
    var j := Find(slots, name, 1);
    assert j < |slots| ==> IsFor(slots[j], name);
  }

  /** Filling the free slot that dir_add finds adds exactly one binding; slot 0 is never it. */
  lemma AddBinds(slots: seq<Entry>, name: Name, sector: nat)
    requires WellFormed(slots) && ValidName(name) && name !in Bindings(slots)
    ensures var i := FreeSlot(slots, 0);
            var after := Put(slots, i, Entry(sector, Padded(name), true));
            && i > 0 && WellFormed(after) && after[0] == slots[0]
            && Bindings(after) == Bindings(slots)[name := sector]
  {
    hide Padded, Bindings;
    var i := FreeSlot(slots, 0);
    var e := Entry(sector, Padded(name), true);
    var after := Put(slots, i, e);
    StringRoundTrip(name);
    LookupIsBinding(slots, name);
    FindFirst(slots, name, 1);
    forall k | 1 <= k < |after| && after[k].inUse && k != i
      ensures k < |slots| && slots[k] == after[k] && StringIn(after[k].name) != name
    {
      assert !IsFor(slots[k], name);
    }
    assert WellFormed(after);
    forall n ensures n in Bindings(after) <==> n in Bindings(slots) || n == name
             ensures n in Bindings(after) ==> Bindings(after)[n] == if n == name then sector else Bindings(slots)[n]
    {
      SlotsAgree(slots, after, i, n);
    }
    assert Bindings(after) == Bindings(slots)[name := sector];
  }

  /** Two well-formed directories that differ only in slot `i` agree on every name but the
      names in that slot. */
  lemma SlotsAgree(slots: seq<Entry>, after: seq<Entry>, i: nat, n: Name)
    requires WellFormed(slots) && WellFormed(after) && 1 <= i < |after| && |slots| <= |after| <= |slots| + 1
    requires forall k :: 0 <= k < |after| && k != i ==> k < |slots| && after[k] == slots[k]
    ensures n in Bindings(after) <==>
              IsFor(after[i], n) || (n in Bindings(slots) && !(i < |slots| && IsFor(slots[i], n)))
    ensures n in Bindings(after) ==>
              Bindings(after)[n] == if IsFor(after[i], n) then after[i].sector
                                    else if n in Bindings(slots) then Bindings(slots)[n] else 0
  {
    hide Bindings, WellFormed;
    LookupIsBinding(slots, n);
    LookupIsBinding(after, n);
    FindFirst(slots, n, 1);
    FindFirst(after, n, 1);
    var j, k := Find(slots, n, 1), Find(after, n, 1);
    if IsFor(after[i], n) {
      OnlySlot(after, n, i);
    } else if k < |after| {
      assert k < |slots| && IsFor(slots[k], n);
      OnlySlot(slots, n, k);
      if i < |slots| && IsFor(slots[i], n) {
        OnlySlot(slots, n, i);
      }
    } else if j < |slots| {
      assert !IsFor(after[j], n);
    }
  }

  /** Taking the slot that lookup finds out of use removes exactly that binding. */
  lemma RemoveUnbinds(slots: seq<Entry>, name: Name)
    requires WellFormed(slots) && name in Bindings(slots)
    ensures var i := Find(slots, name, 1);
            var after := slots[i := slots[i].(inUse := false)];
            && WellFormed(after) && after[0] == slots[0] && Bindings(after) == Bindings(slots) - {name}
  {
    hide Bindings, WellFormed, Find, IsFor;
    LookupIsBinding(slots, name);
    var i := Find(slots, name, 1);
    var after := slots[i := slots[i].(inUse := false)];
    EmptyingKeepsForm(slots, i);
    forall n ensures n in Bindings(after) <==> n in Bindings(slots) && n != name
             ensures n in Bindings(after) ==> Bindings(after)[n] == Bindings(slots)[n]
    {
      FoundOnly(slots, name, n);
      SlotsAgree(slots, after, i, n);
    }
    assert Bindings(after) == Bindings(slots) - {name};
  }

  lemma EmptyingKeepsForm(slots: seq<Entry>, i: nat)
    requires WellFormed(slots) && 1 <= i < |slots|
    ensures WellFormed(slots[i := slots[i].(inUse := false)])
  {
  }

  lemma FoundOnly(slots: seq<Entry>, name: Name, n: Name)
    requires WellFormed(slots) && Find(slots, name, 1) < |slots|
    ensures var i := Find(slots, name, 1);
            1 <= i && (IsFor(slots[i], n) <==> n == name) && !IsFor(slots[i].(inUse := false), n)
  {
  }

  /** The names dir_readdir returns from slot `i` on, one call after another. */
  function Listing(slots: seq<Entry>, i: nat): (ns: seq<Name>)
    requires i <= |slots|
    decreases |slots| - i
  {
    if i == |slots| then []
    else if slots[i].inUse then [StringIn(slots[i].name)] + Listing(slots, i + 1)
    else Listing(slots, i + 1)
  }

  /** The first slot in use from `i` on, or the number of slots. */
  function UsedSlot(slots: seq<Entry>, i: nat): (j: nat)
    requires i <= |slots|
    ensures i <= j <= |slots| && (j < |slots| ==> slots[j].inUse)
    ensures forall k :: i <= k < j ==> !slots[k].inUse
    decreases |slots| - i
  {
    if i == |slots| || slots[i].inUse then i else UsedSlot(slots, i + 1)
  }

  lemma {:induction false} ListingMember(slots: seq<Entry>, i: nat, n: Name)
    requires i <= |slots|
    ensures n in Listing(slots, i) <==> Find(slots, n, i) < |slots|
    decreases |slots| - i
  {
    if i == |slots| {
    } else {
      ListingMember(slots, i + 1, n);
    }
  }

  /** Reading a directory from its start returns each binding's name once. */
  lemma ListingExact(slots: seq<Entry>)
    requires WellFormed(slots)
    ensures forall n :: n in Listing(slots, 1) <==> n in Bindings(slots)
    ensures forall i, j :: 0 <= i < j < |Listing(slots, 1)| ==> Listing(slots, 1)[i] != Listing(slots, 1)[j]
  {
    forall n ensures n in Listing(slots, 1) <==> n in Bindings(slots) {
      ListingMember(slots, 1, n);
      LookupIsBinding(slots, n);
    }
    ListingDistinct(slots, 1);
  }

  lemma {:induction false} ListingDistinct(slots: seq<Entry>, i: nat)
    requires WellFormed(slots) && 1 <= i <= |slots|
    ensures forall j, k :: 0 <= j < k < |Listing(slots, i)| ==> Listing(slots, i)[j] != Listing(slots, i)[k]
    decreases |slots| - i
  {
    if i == |slots| {
    } else {
      ListingDistinct(slots, i + 1);
      if slots[i].inUse {
        var n, rest := StringIn(slots[i].name), Listing(slots, i + 1);
        ListingMember(slots, i + 1, n);
        forall k | 0 <= k < |rest| ensures rest[k] != n {
          assert rest[k] in rest;
        }
      }
    }
  }

  /** The slots in which `names` are found come one after another, from `i` on. */
  ghost predicate InSlotOrder(slots: seq<Entry>, names: seq<Name>, i: nat)
    requires |slots| > 0
  {
    && (forall k :: 0 <= k < |names| ==> i <= Find(slots, names[k], 1) < |slots|)
    && (forall j, k :: 0 <= j < k < |names| ==> Find(slots, names[j], 1) < Find(slots, names[k], 1))
  }

  lemma OneBefore(slots: seq<Entry>, name: Name, names: seq<Name>, i: nat)
    requires 0 < i < |slots| && Find(slots, name, 1) == i && InSlotOrder(slots, names, i + 1)
    ensures InSlotOrder(slots, [name] + names, i)
  {
    hide Find;
    var all := [name] + names;
    forall k | 0 <= k < |all| ensures i <= Find(slots, all[k], 1) < |slots| && (k > 0 ==> all[k] == names[k - 1]) {
    }
    forall j, k | 0 <= j < k < |all| ensures Find(slots, all[j], 1) < Find(slots, all[k], 1) {
      assert all[k] == names[k - 1];
      assert j > 0 ==> all[j] == names[j - 1];
    }
  }

  lemma Later(slots: seq<Entry>, names: seq<Name>, i: nat)
    requires |slots| > 0 && InSlotOrder(slots, names, i + 1)
    ensures InSlotOrder(slots, names, i)
  {
    hide Find;
  }

  /** Names are listed in the order of their slots. */
  lemma {:induction false} ListingInOrder(slots: seq<Entry>, i: nat)
    requires WellFormed(slots) && 1 <= i <= |slots|
    ensures InSlotOrder(slots, Listing(slots, i), i)
    decreases |slots| - i
  {
    hide WellFormed, StringIn, Find;
    if i == |slots| {
    } else {
      hide InSlotOrder;
      ListingInOrder(slots, i + 1);
      if slots[i].inUse {
        OnlySlot(slots, StringIn(slots[i].name), i);
        OneBefore(slots, StringIn(slots[i].name), Listing(slots, i + 1), i);
      } else {
        Later(slots, Listing(slots, i + 1), i);
      }
    }
  }

  /** The slots after the first hold `names`, in order and without a hole before the last. */
  ghost predicate Compact(slots: seq<Entry>, names: seq<Name>) {
    && |names| < |slots| && slots[0].inUse
    && (forall k :: 0 <= k < |names| ==> slots[k + 1].inUse && StringIn(slots[k + 1].name) == names[k])
    && (forall k :: |names| < k < |slots| ==> !slots[k].inUse)
  }

  lemma NothingIsCompact(slots: seq<Entry>)
    requires WellFormed(slots) && Bindings(slots) == map[]
    ensures Compact(slots, [])
  {
    hide Bindings;
    EmptyIsNoBinding(slots);
  }

  /** The next name goes to the slot after the last. */
  lemma CompactNext(slots: seq<Entry>, names: seq<Name>, name: Name, sector: nat)
    requires Compact(slots, names) && ValidName(name) && FreeSlot(slots, 0) < |slots|
    ensures Compact(Put(slots, FreeSlot(slots, 0), Entry(sector, Padded(name), true)), names + [name])
  {
    hide Padded, StringIn, FreeSlot;
    var i := FreeSlot(slots, 0);
    StringRoundTrip(name);
    NextSlot(slots, names);
    var e := Entry(sector, Padded(name), true);
    var after := slots[i := e];
    forall k | 0 <= k < |names| + 1 ensures after[k + 1].inUse && StringIn(after[k + 1].name) == (names + [name])[k] {
      if k < |names| {
        assert slots[k + 1].inUse && StringIn(slots[k + 1].name) == names[k];
      }
    }
  }

  lemma NextSlot(slots: seq<Entry>, names: seq<Name>)
    requires Compact(slots, names) && FreeSlot(slots, 0) < |slots|
    ensures FreeSlot(slots, 0) == |names| + 1
  {
    hide StringIn;
    var j := FreeSlot(slots, 0);
    forall k | 0 < k <= |names| ensures slots[k].inUse {
      assert names[k - 1] == StringIn(slots[k].name);
    }
    assert |names| + 1 < |slots| ==> !slots[|names| + 1].inUse;
  }

  /** What such a directory lists. */
  lemma {:induction false} CompactListing(slots: seq<Entry>, names: seq<Name>, i: nat)
    requires Compact(slots, names) && 1 <= i <= |slots|
    ensures Listing(slots, i) == if i <= |names| then names[i - 1..] else []
    decreases |slots| - i
  {
    if i == |slots| {
    } else {
      CompactListing(slots, names, i + 1);
      assert i <= |names| ==> names[i - 1] == StringIn(slots[i].name);
    }
  }

  /** One dir_readdir call: it skips to the next slot in use. */
  lemma {:induction false} ListingStep(slots: seq<Entry>, i: nat)
    requires i <= |slots|
    ensures var j := UsedSlot(slots, i);
            Listing(slots, i) == if j < |slots| then [StringIn(slots[j].name)] + Listing(slots, j + 1) else []
    decreases |slots| - i
  {
    if i == |slots| || slots[i].inUse {
    } else {
      ListingStep(slots, i + 1);
    }
  }

  /** dir_is_empty's scan finds nothing exactly when the map is empty. */
  lemma EmptyIsNoBinding(slots: seq<Entry>)
    requires WellFormed(slots)
    ensures UsedSlot(slots, 1) == |slots| <==> Bindings(slots) == map[]
  {
    var j := UsedSlot(slots, 1);
    if j < |slots| {
      OnlySlot(slots, StringIn(slots[j].name), j);
    } else {
      assert forall n :: Find(slots, n, 1) == |slots|;
    }
  }
}
