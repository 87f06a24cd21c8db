/** The write-back buffer cache (cache.c): 64 slots in front of the block device,
    with clock eviction. Its clients see only `view`, the contents each sector would
    have if there were no cache. */
module Cache {
  import opened Sector

  const CACHE_SIZE := 64

  /** struct buffer_cache_entry_t. */
  datatype Slot = Slot(occupied: bool, sector: nat, buffer: Block, dirty: bool, access: bool)

  ghost predicate Absent(slots: seq<Slot>, s: nat) {
    forall i :: 0 <= i < |slots| && slots[i].occupied ==> slots[i].sector != s
  }

  /** `view` is what the slots and the device determine: a sector's slot if it has one,
      else the device. No sector has two slots, and a clean slot equals the device. */
  ghost predicate Coherent(slots: seq<Slot>, device: seq<Block>, view: seq<Block>) {
    && |view| == |device|
    && (forall i :: 0 <= i < |slots| && slots[i].occupied ==>
          slots[i].sector < |view| && view[slots[i].sector] == slots[i].buffer)
    && (forall i :: 0 <= i < |slots| && slots[i].occupied && !slots[i].dirty ==>
          slots[i].sector < |device| && device[slots[i].sector] == slots[i].buffer)
    && (forall i, j :: 0 <= i < j < |slots| && slots[i].occupied && slots[j].occupied ==>
          slots[i].sector != slots[j].sector)
    && (forall s :: 0 <= s < |view| && Absent(slots, s) ==> view[s] == device[s])
  }

  /** The view is a function of slots and device: nothing else can be read through the cache. */
  lemma ViewIsDetermined(slots: seq<Slot>, device: seq<Block>, v: seq<Block>, w: seq<Block>)
    requires Coherent(slots, device, v) && Coherent(slots, device, w)
    ensures v == w
  {
    forall s | 0 <= s < |v| ensures v[s] == w[s] {
      if !Absent(slots, s) {
        var i :| 0 <= i < |slots| && slots[i].occupied && slots[i].sector == s;
      }
    }
  }

  /** Changing slot `i` without changing which sector it holds keeps every sector's absence. */
  lemma SameHolder(slots: seq<Slot>, i: nat, x: Slot)
    requires i < |slots| && x.occupied == slots[i].occupied && x.sector == slots[i].sector
    ensures forall s :: Absent(slots[i := x], s) ==> Absent(slots, s)
  {
    forall s | Absent(slots[i := x], s) ensures Absent(slots, s) {
      forall j | 0 <= j < |slots| && slots[j].occupied ensures slots[j].sector != s {
        assert slots[i := x][j].occupied;
      }
    }
  }

  lemma TouchKeepsCoherent(slots: seq<Slot>, device: seq<Block>, view: seq<Block>, i: nat, access: bool)
    requires Coherent(slots, device, view) && i < |slots|
    ensures Coherent(slots[i := slots[i].(access := access)], device, view)
  {
    SameHolder(slots, i, slots[i].(access := access));
  }

  lemma FlushKeepsCoherent(slots: seq<Slot>, device: seq<Block>, view: seq<Block>, i: nat)
    requires Coherent(slots, device, view) && i < |slots| && slots[i].occupied
    ensures Coherent(slots[i := slots[i].(dirty := false)], device[slots[i].sector := slots[i].buffer], view)
  {
    SameHolder(slots, i, slots[i].(dirty := false));
  }

  lemma VacateKeepsCoherent(slots: seq<Slot>, device: seq<Block>, view: seq<Block>, i: nat)
    requires Coherent(slots, device, view) && i < |slots| && slots[i].occupied && !slots[i].dirty
    ensures Coherent(slots[i := slots[i].(occupied := false)], device, view)
    ensures slots[i].sector < |device| && |view| == |device| && device[slots[i].sector] == view[slots[i].sector]
  {
    var after := slots[i := slots[i].(occupied := false)];
    forall s | 0 <= s < |view| && Absent(after, s) ensures view[s] == device[s] {
      if s != slots[i].sector {
        forall j | 0 <= j < |slots| && slots[j].occupied ensures slots[j].sector != s {
          assert j != i ==> after[j].occupied;
        }
        assert Absent(slots, s);
      }
    }
  }

  lemma OccupyKeepsCoherent(slots: seq<Slot>, device: seq<Block>, view: seq<Block>, i: nat, sector: nat, access: bool)
    requires Coherent(slots, device, view) && i < |slots| && !slots[i].occupied
    requires sector < |device| && Absent(slots, sector)
    ensures Coherent(slots[i := Slot(true, sector, device[sector], false, access)], device, view)
  {
    var after := slots[i := Slot(true, sector, device[sector], false, access)];
    forall s | 0 <= s < |view| && Absent(after, s) ensures view[s] == device[s] {
      forall j | 0 <= j < |slots| && slots[j].occupied ensures slots[j].sector != s {
        assert after[j].occupied;
      }
      assert Absent(slots, s);
    }
  }

  lemma StoreKeepsCoherent(slots: seq<Slot>, device: seq<Block>, view: seq<Block>, i: nat, source: Block)
    requires Coherent(slots, device, view) && i < |slots| && slots[i].occupied
    ensures Coherent(slots[i := slots[i].(access := true, dirty := true, buffer := source)],
                     device, view[slots[i].sector := source])
  {
    SameHolder(slots, i, slots[i].(access := true, dirty := true, buffer := source));
    var after := slots[i := slots[i].(access := true, dirty := true, buffer := source)];
    assert after[i].occupied;
  }

  /** The number of slots from the clock's position on to slot `j`. */
  function Distance(clock: nat, j: nat): int {
    if clock <= j then j - clock else j + CACHE_SIZE - clock
  }

  /** The clock gives a slot a second chance. */
  predicate Referenced(slot: Slot) {
    slot.occupied && slot.access
  }

  ghost predicate AllReferenced(slots: seq<Slot>) {
    forall j :: 0 <= j < |slots| ==> Referenced(slots[j])
  }

  /** The slot the clock stops at: the first from its position on that is vacant or not referenced. If there
      is none, the one it started from, having gone round. */
  ghost predicate StopsAt(slots: seq<Slot>, clock: nat, i: nat)
    requires |slots| == CACHE_SIZE
  {
    && i < CACHE_SIZE
    && if AllReferenced(slots) then i == clock
       else !Referenced(slots[i]) &&
            forall j :: 0 <= j < CACHE_SIZE && Distance(clock, j) < Distance(clock, i) ==> Referenced(slots[j])
  }

  /** The slots once the clock has stopped at `i`: those passed over have lost their reference bit. */
  ghost function Swept(slots: seq<Slot>, clock: nat, i: nat): (swept: seq<Slot>)
    ensures |swept| == |slots|
  {
    seq(|slots|, j requires 0 <= j < |slots| =>
      if AllReferenced(slots) || Distance(clock, j) < Distance(clock, i) then slots[j].(access := false) else slots[j])
  }

  /** The slots and the device once slot `i` has been written back if dirty, and vacated. */
  function Vacated(slots: seq<Slot>, i: nat): (after: seq<Slot>)
    requires i < |slots|
    ensures |after| == |slots|
  {
    if slots[i].occupied then slots[i := slots[i].(occupied := false, dirty := false)] else slots
  }

  function WrittenBack(slots: seq<Slot>, device: seq<Block>, i: nat): seq<Block>
    requires i < |slots|
  {
    if slots[i].occupied && slots[i].dirty && slots[i].sector < |device| then device[slots[i].sector := slots[i].buffer]
    else device
  }

  /** What one access does. A hit touches the sector's slot only. A miss replaces the slot the clock stops at. */
  ghost predicate Accesses(before: seq<Slot>, clock: nat, device: seq<Block>, after: seq<Slot>, clock': nat,
      device': seq<Block>, sector: nat, buffer: Block, write: bool)
    requires |before| == CACHE_SIZE
  {
    if Absent(before, sector) then
      && StopsAt(before, clock, clock') && device' == WrittenBack(before, device, clock')
      && after == Vacated(Swept(before, clock, clock'), clock')[clock' := Slot(true, sector, buffer, write, true)]
    else
      && clock' == clock && device' == device
      && exists i :: 0 <= i < CACHE_SIZE && before[i].occupied && before[i].sector == sector &&
                     after == before[i := Slot(true, sector, buffer, write || before[i].dirty, true)]
  }

  /** So far `k` sectors have been asked for: they are in the first `k` slots. */
  ghost predicate Filling(slots: seq<Slot>, clock: nat, k: nat) {
    && k <= |slots| == CACHE_SIZE && (forall i :: 0 <= i < k ==> slots[i].occupied)
    && (forall i :: k <= i < CACHE_SIZE ==> !slots[i].occupied)
    && if k == 0 then clock == 0 else clock == k - 1 && slots[k - 1].access
  }

  /** Nothing is evicted as long as no more than 64 sectors are asked for, in any order and any number of times. */
  lemma FillsBeforeEvicting(before: seq<Slot>, clock: nat, device: seq<Block>, after: seq<Slot>, clock': nat,
      device': seq<Block>, sector: nat, buffer: Block, write: bool, k: nat)
    requires Filling(before, clock, k) && Accesses(before, clock, device, after, clock', device', sector, buffer, write)
    requires Absent(before, sector) ==> k < CACHE_SIZE
    ensures Filling(after, clock', if Absent(before, sector) then k + 1 else k) && device' == device
    ensures forall i :: 0 <= i < k ==> after[i].sector == before[i].sector
  {
    if Absent(before, sector) {
      StopsAtVacant(before, clock, clock', k);
    }
  }

  lemma StopsAtVacant(slots: seq<Slot>, clock: nat, i: nat, k: nat)
    requires Filling(slots, clock, k) && k < CACHE_SIZE && StopsAt(slots, clock, i)
    ensures i == k
  {
    assert !Referenced(slots[k]);
    assert k > 0 ==> Referenced(slots[k - 1]) && Distance(clock, k) == 1;
  }

  class BufferCache {
    const device: array<Block>
    const slots: array<Slot>
    var clock: nat
    ghost var view: seq<Block>

    ghost function Repr(): set<object> {
      {this, device, slots}
    }

    ghost predicate Valid()
      reads Repr()
    {
      slots.Length == CACHE_SIZE && clock < CACHE_SIZE && Coherent(slots[..], device[..], view)
    }

    /** buffer_cache_init, over a device already holding data. */
    constructor (device: array<Block>)
      ensures Valid() && this.device == device && fresh(slots)
      ensures view == device[..] && Filling(slots[..], clock, 0)
    {
      this.device := device;
      slots := new Slot[CACHE_SIZE](_ => Slot(false, 0, ZEROS, false, false));
      clock := 0;
      view := device[..];
    }

    method Flush(i: nat)
      requires Valid() && i < CACHE_SIZE && slots[i].occupied
      modifies device, slots
      ensures Valid()
      ensures slots[..] == old(slots[..])[i := old(slots[i]).(dirty := false)]
      ensures device[..] ==
                if old(slots[i].dirty) then old(device[..])[slots[i].sector := slots[i].buffer] else old(device[..])
    {
      if slots[i].dirty {
        FlushKeepsCoherent(slots[..], device[..], view, i);
        device[slots[i].sector] := slots[i].buffer;
        slots[i] := slots[i].(dirty := false);
      }
    }

    method Close()
      requires Valid()
      modifies device, slots
      ensures Valid() && device[..] == view
      ensures forall i :: 0 <= i < CACHE_SIZE ==>
                slots[i] == if old(slots[i].occupied) then old(slots[i]).(dirty := false) else old(slots[i])
    {
      var i := 0;
      while i < CACHE_SIZE
        invariant 0 <= i <= CACHE_SIZE && Valid()
        invariant forall j :: 0 <= j < CACHE_SIZE ==>
                    slots[j] ==
                    if j < i && old(slots[j].occupied) then old(slots[j]).(dirty := false) else old(slots[j])
      {
        if slots[i].occupied {
          Flush(i);
        }
        i := i + 1;
      }
      forall s | 0 <= s < device.Length ensures device[s] == view[s] {
        if !Absent(slots[..], s) {
          var k :| 0 <= k < CACHE_SIZE && slots[..][k].occupied && slots[..][k].sector == s;
        }
      }
    }

    method Lookup(sector: nat) returns (i: int)
      requires Valid()
      ensures -1 <= i < CACHE_SIZE
      ensures i >= 0 ==> slots[i].occupied && slots[i].sector == sector
      ensures i < 0 ==> Absent(slots[..], sector)
    {
      i := 0;
      while i < CACHE_SIZE
        invariant 0 <= i <= CACHE_SIZE
        invariant forall j :: 0 <= j < i && slots[j].occupied ==> slots[j].sector != sector
      {
        if slots[i].occupied && slots[i].sector == sector {
          return;
        }
        i := i + 1;
      }
      i := -1;
    }

    /** The clock sweep; `steps` counts the slots inspected. */
    method Sweep() returns (ghost steps: nat)
      requires Valid()
      modifies this`clock, slots
      ensures Valid() && StopsAt(old(slots[..]), old(clock), clock)
      ensures steps == 1 + if AllReferenced(old(slots[..])) then CACHE_SIZE else Distance(old(clock), clock)
      ensures slots[..] == Swept(old(slots[..]), old(clock), clock)
      ensures !Referenced(slots[clock])
    {
      hide Coherent;
      ghost var before, start, passed := slots[..], clock, 0;
      while slots[clock].occupied && slots[clock].access
        invariant Valid() && 0 <= passed <= CACHE_SIZE
        invariant passed < CACHE_SIZE ==> Distance(start, clock) == passed
        invariant passed == CACHE_SIZE ==> clock == start
        invariant forall j :: 0 <= j < CACHE_SIZE && Distance(start, j) < passed ==>
                    Referenced(before[j]) && slots[j] == before[j].(access := false)
        invariant forall j :: 0 <= j < CACHE_SIZE && passed <= Distance(start, j) ==> slots[j] == before[j]
        decreases CACHE_SIZE - passed
      {
        TouchKeepsCoherent(slots[..], device[..], view, clock, false);
        slots[clock] := slots[clock].(access := false);
        clock := (clock + 1) % CACHE_SIZE;
        passed := passed + 1;
      }
      steps := passed + 1;
    }

    /** The clock sweep, and the eviction of the slot it stops at. */
    method Evict() returns (i: nat, ghost steps: nat)
      requires Valid()
      modifies this`clock, device, slots
      ensures Valid() && clock == i && StopsAt(old(slots[..]), old(clock), i)
      ensures 1 <= steps <= CACHE_SIZE + 1
      ensures old(slots[i].occupied) ==>
                old(slots[i].sector) < |view| && |view| == device.Length &&
                device[old(slots[i].sector)] == view[old(slots[i].sector)]
      ensures slots[..] == Vacated(Swept(old(slots[..]), old(clock), i), i) && !slots[i].occupied
      ensures device[..] == WrittenBack(old(slots[..]), old(device[..]), i)
    {
      hide Coherent;
      steps := Sweep();
      i := clock;
      if slots[i].occupied {
        if slots[i].dirty {
          Flush(i);
        }
        VacateKeepsCoherent(slots[..], device[..], view, i);
        slots[i] := slots[i].(occupied := false);
      }
    }

    /** The miss path shared by read and write: evict a slot and fill it from the device. */
    method Fill(sector: nat) returns (i: nat)
      requires Valid() && sector < |view| && Absent(slots[..], sector)
      modifies this`clock, device, slots
      ensures Valid() && clock == i && StopsAt(old(slots[..]), old(clock), i)
      ensures slots[i] == Slot(true, sector, view[sector], false, slots[i].access)
      ensures slots[..] == Vacated(Swept(old(slots[..]), old(clock), i), i)
                           [i := Slot(true, sector, view[sector], false, slots[i].access)]
      ensures device[..] == WrittenBack(old(slots[..]), old(device[..]), i)
    {
      ghost var before := slots[..];
      ghost var steps;
      i, steps := Evict();
      StillAbsent(before, old(clock), i, sector);
      OccupyKeepsCoherent(slots[..], device[..], view, i, sector, slots[i].access);
      slots[i] := Slot(true, sector, device[sector], false, slots[i].access);
    }

    /** The slot that holds a sector, after a miss the one it has been put in. */
    method Fetch(sector: nat) returns (i: nat)
      requires Valid() && sector < |view|
      modifies this`clock, device, slots
      ensures Valid() && i < CACHE_SIZE
      ensures slots[i].occupied && slots[i].sector == sector && slots[i].buffer == view[sector]
      ensures Fetches(old(slots[..]), old(clock), old(device[..]), slots[..], clock, device[..], sector, i)
    {
      hide StopsAt, Swept, Vacated, WrittenBack;
      var hit := Lookup(sector);
      if hit < 0 {
        i := Fill(sector);
      } else {
        i := hit;
        assert slots[..][i].occupied;
      }
    }

    method Read(sector: nat) returns (target: Block)
      requires Valid() && sector < |view|
      modifies this`clock, device, slots
      ensures Valid() && target == view[sector]
      ensures Accesses(old(slots[..]), old(clock), old(device[..]), slots[..], clock, device[..], sector, target, false)
    {
      hide Coherent, Fetches, Accesses;
      var i := Fetch(sector);
      TouchKeepsCoherent(slots[..], device[..], view, i, true);
      FetchedThenTouched(old(slots[..]), old(clock), old(device[..]), slots[..], clock, device[..], sector, i);
      slots[i] := slots[i].(access := true);
      target := slots[i].buffer;
    }

    method Write(sector: nat, source: Block)
      requires Valid() && sector < |view|
      modifies this, device, slots
      ensures Valid() && view == old(view)[sector := source]
      ensures Accesses(old(slots[..]), old(clock), old(device[..]), slots[..], clock, device[..], sector, source, true)
    {
      hide Coherent, Fetches, Accesses;
      var i := Fetch(sector);
      StoreKeepsCoherent(slots[..], device[..], view, i, source);
      FetchedThenStored(old(slots[..]), old(clock), old(device[..]), slots[..], clock, device[..], sector, i, source);
      slots[i] := slots[i].(access := true, dirty := true, buffer := source);
      view := view[sector := source];
    }
  }

  /** What an access has done before it touches the slot `i`. */
  ghost predicate Fetches(before: seq<Slot>, clock: nat, device: seq<Block>, after: seq<Slot>, clock': nat,
      device': seq<Block>, sector: nat, i: nat)
    requires |before| == CACHE_SIZE
  {
    if Absent(before, sector) then
      && i < |after| && StopsAt(before, clock, i) && clock' == i && device' == WrittenBack(before, device, i)
      && after == Vacated(Swept(before, clock, i), i)[i := Slot(true, sector, after[i].buffer, false, after[i].access)]
    else
      && clock' == clock && device' == device && after == before
      && i < |before| && before[i].occupied && before[i].sector == sector
  }

  lemma FetchedThenTouched(before: seq<Slot>, clock: nat, device: seq<Block>, after: seq<Slot>, clock': nat,
      device': seq<Block>, sector: nat, i: nat)
    requires |before| == CACHE_SIZE && Fetches(before, clock, device, after, clock', device', sector, i)
    ensures i < |after|
    ensures var touched := after[i := after[i].(access := true)];
            Accesses(before, clock, device, touched, clock', device', sector, after[i].buffer, false)
  {
    hide Absent, AllReferenced, WrittenBack, Swept, Vacated;
    var touched := after[i := after[i].(access := true)];
    if Absent(before, sector) {
      assert touched == Vacated(Swept(before, clock, i), i)[i := Slot(true, sector, after[i].buffer, false, true)];
    } else {
      assert touched == before[i := Slot(true, sector, after[i].buffer, before[i].dirty, true)];
    }
  }

  lemma FetchedThenStored(before: seq<Slot>, clock: nat, device: seq<Block>, after: seq<Slot>, clock': nat,
      device': seq<Block>, sector: nat, i: nat, source: Block)
    requires |before| == CACHE_SIZE && Fetches(before, clock, device, after, clock', device', sector, i)
    ensures i < |after|
    ensures var stored := after[i := after[i].(access := true, dirty := true, buffer := source)];
            Accesses(before, clock, device, stored, clock', device', sector, source, true)
  {
    hide Absent, AllReferenced, WrittenBack, Swept, Vacated;
    var stored := after[i := after[i].(access := true, dirty := true, buffer := source)];
    if Absent(before, sector) {
      assert stored == Vacated(Swept(before, clock, i), i)[i := Slot(true, sector, source, true, true)];
    } else {
      assert stored == before[i := Slot(true, sector, source, true, true)];
    }
  }

  lemma StillAbsent(slots: seq<Slot>, clock: nat, i: nat, sector: nat)
    requires i < |slots| && Absent(slots, sector)
    ensures Absent(Vacated(Swept(slots, clock, i), i), sector)
  {
  }
}
