/** The free map seen as a sequence of booleans (true = sector in use), and the list of
    its free sectors in increasing order, which is the order first-fit hands them out. */
module FreeList {
  /** The indices below `n` whose bit equals `value`, in increasing order. */
  function Positions(bits: seq<bool>, value: bool, n: nat): (ps: seq<nat>)
    requires n <= |bits|
  {
    if n == 0 then []
    else Positions(bits, value, n - 1) + (if bits[n - 1] == value then [n - 1] else [])
  }

  function Free(bits: seq<bool>): seq<nat> {
    Positions(bits, false, |bits|)
  }

  ghost predicate Increasing(s: seq<nat>) {
    forall i, j :: 0 <= i < j < |s| ==> s[i] < s[j]
  }

  lemma {:induction false} PositionsExact(bits: seq<bool>, value: bool, n: nat)
    requires n <= |bits|
    ensures Increasing(Positions(bits, value, n))
    ensures forall x :: x in Positions(bits, value, n) <==> 0 <= x < n && bits[x] == value
    ensures |Positions(bits, value, n)| <= n
  {
    if n == 0 {
    } else {
      hide Increasing;
      PositionsExact(bits, value, n - 1);
      AppendIncreasing(Positions(bits, value, n - 1), n - 1);
    }
  }

  lemma AppendIncreasing(s: seq<nat>, x: nat)
    requires Increasing(s) && forall y :: y in s ==> y < x
    ensures Increasing(s + [x]) && forall y :: y in s + [x] <==> y in s || y == x
  {
    forall i | 0 <= i < |s| ensures s[i] < x {
      assert s[i] in s;
    }
  }

  lemma FreeExact(bits: seq<bool>)
    ensures Increasing(Free(bits))
    ensures forall x :: x in Free(bits) <==> 0 <= x < |bits| && !bits[x]
  {
    PositionsExact(bits, false, |bits|);
  }

  /** Filling the lowest free sector removes exactly the head of the free list. */
  lemma TakeLowest(bits: seq<bool>, f: nat)
    requires f < |bits| && !bits[f] && forall i :: 0 <= i < f ==> bits[i]
    ensures Free(bits) == [f] + Free(bits[f := true])
  {
    TakeLowestUpTo(bits, f, |bits|);
  }

  lemma {:induction false} TakeLowestUpTo(bits: seq<bool>, f: nat, n: nat)
    requires f < |bits| && !bits[f] && forall i :: 0 <= i < f ==> bits[i]
    requires n <= |bits|
    ensures Positions(bits, false, n) == (if f < n then [f] else []) + Positions(bits[f := true], false, n)
  {
    if n == 0 {
    } else {
      TakeLowestUpTo(bits, f, n - 1);
      if n - 1 <= f {
        NoPositions(bits[f := true], false, n - 1);
      }
    }
  }

  lemma {:induction false} NoPositions(bits: seq<bool>, value: bool, n: nat)
    requires n <= |bits| && forall i :: 0 <= i < n ==> bits[i] != value
    ensures Positions(bits, value, n) == []
  {
    if n == 0 {
    } else {
      NoPositions(bits, value, n - 1);
    }
  }

  /** The head of the free list is the lowest free sector. */
  lemma HeadIsLowest(bits: seq<bool>)
    requires |Free(bits)| > 0
    ensures Free(bits)[0] < |bits| && !bits[Free(bits)[0]]
    ensures forall i :: 0 <= i < Free(bits)[0] ==> bits[i]
  {
    FreeExact(bits);
    assert Free(bits)[0] in Free(bits);
    var f := Free(bits)[0];
    assert forall i :: 0 <= i < f ==> i !in Free(bits);
  }

  /** Marks every sector of `s`. */
  function Mark(bits: seq<bool>, s: set<nat>): (r: seq<bool>)
    ensures |r| == |bits|
  {
    seq(|bits|, i requires 0 <= i < |bits| => bits[i] || i in s)
  }

  function Clear(bits: seq<bool>, s: set<nat>): (r: seq<bool>)
    ensures |r| == |bits|
  {
    seq(|bits|, i requires 0 <= i < |bits| => bits[i] && i !in s)
  }

  ghost function SetOf(s: seq<nat>): set<nat> {
    set x | x in s
  }

  /** Handing out the first `k` free sectors leaves the rest of the free list. */
  lemma {:induction false} TakeMany(bits: seq<bool>, k: nat)
    requires k <= |Free(bits)|
    ensures Free(Mark(bits, SetOf(Free(bits)[..k]))) == Free(bits)[k..]
  {
    var s := SetOf(Free(bits)[..k]);
    if k == 0 {
      assert Mark(bits, s) == bits;
    } else {
      TakeMany(bits, k - 1);
      var before := Mark(bits, SetOf(Free(bits)[..k - 1]));
      var f := Free(bits)[k - 1];
      assert Free(before)[0] == f;
      HeadIsLowest(before);
      TakeLowest(before, f);
      assert Free(bits)[..k] == Free(bits)[..k - 1] + [f];
      assert Mark(bits, s) == before[f := true];
    }
  }

  /** When exactly the sectors from `start` on are free, the free list counts up from `start`. */
  lemma CompactFree(bits: seq<bool>, start: nat)
    requires start <= |bits| && forall i :: 0 <= i < |bits| ==> bits[i] == (i < start)
    ensures Free(bits) == seq(|bits| - start, i => start + i)
  {
    CompactUpTo(bits, start, |bits|);
  }

  lemma {:induction false} CompactUpTo(bits: seq<bool>, start: nat, n: nat)
    requires start <= |bits| && forall i :: 0 <= i < |bits| ==> bits[i] == (i < start)
    requires n <= |bits|
    ensures Positions(bits, false, n) == if n <= start then [] else seq(n - start, i => start + i)
  {
    if n == 0 {
    } else {
      CompactUpTo(bits, start, n - 1);
    }
  }

  /** When no sector in use lies above a free one, the free list counts up by ones. */
  lemma PackedFree(bits: seq<bool>)
    requires forall x, y :: 0 <= y < x < |bits| && bits[x] ==> bits[y]
    ensures forall j, k :: 0 <= j <= k < |Free(bits)| ==> Free(bits)[k] == Free(bits)[j] + (k - j)
  {
    if Free(bits) != [] {
      HeadIsLowest(bits);
      CompactFree(bits, Free(bits)[0]);
    }
  }
}
