/** The sequence operations behind list.c's ordered-list functions, and what they promise
    for any strict weak order. */
module Sorting {
  type Less<!T> = (T, T) -> bool

  /** `less` is a strict weak order on the elements of `u`. */
  ghost predicate StrictWeak<T>(less: Less<T>, u: set<T>) {
    && (forall x :: x in u ==> !less(x, x))
    && (forall x, y, z :: x in u && y in u && z in u && less(x, y) && less(y, z) ==> less(x, z))
    && (forall x, y, z :: x in u && y in u && z in u && !less(x, y) && !less(y, z) ==> !less(x, z))
  }

  ghost predicate Within<T>(s: seq<T>, u: set<T>) {
    forall i :: 0 <= i < |s| ==> s[i] in u
  }

  ghost predicate Sorted<T>(less: Less<T>, s: seq<T>) {
    forall i, j :: 0 <= i < j < |s| ==> !less(s[j], s[i])
  }

  /** The elements of `s` that tie with `x`, in order. */
  ghost function Ties<T>(less: Less<T>, x: T, s: seq<T>): seq<T> {
    if s == [] then [] else Tie(less, x, s[0]) + Ties(less, x, s[1..])
  }

  function Tie<T>(less: Less<T>, x: T, y: T): seq<T> {
    if !less(x, y) && !less(y, x) then [y] else []
  }

  /** `t` holds the elements of `s`, with ties in the order they have in `s`. */
  ghost predicate Stable<T>(less: Less<T>, s: seq<T>, t: seq<T>) {
    multiset(s) == multiset(t) && forall x :: x in s ==> Ties(less, x, t) == Ties(less, x, s)
  }

  /** inplace_merge: on a tie the element of the first run goes first. */
  ghost function Merge<T>(less: Less<T>, a: seq<T>, b: seq<T>): seq<T> {
    if a == [] then b
    else if b == [] then a
    else if !less(b[0], a[0]) then [a[0]] + Merge(less, a[1..], b)
    else [b[0]] + Merge(less, a, b[1..])
  }

  /** find_end_of_run from position `i`: one past the last element of the run. */
  function RunEnd<T>(less: Less<T>, s: seq<T>, i: nat): (j: nat)
    requires i < |s|
    ensures i < j <= |s|
    decreases |s| - i
  {
    if i + 1 == |s| || less(s[i + 1], s[i]) then i + 1 else RunEnd(less, s, i + 1)
  }

  /** One pass of list_sort: adjacent runs merged in pairs. */
  ghost function Pass<T>(less: Less<T>, s: seq<T>): (t: seq<T>)
    decreases |s|
  {
    if s == [] then []
    else
      var j := RunEnd(less, s, 0);
      if j == |s| then s
      else
        var k := RunEnd(less, s, j);
        Merge(less, s[..j], s[j..k]) + Pass(less, s[k..])
  }

  /** The number of output runs the pass counts. */
  ghost function PassCount<T>(less: Less<T>, s: seq<T>): nat
    decreases |s|
  {
    if s == [] then 0
    else
      var j := RunEnd(less, s, 0);
      if j == |s| then 1 else 1 + PassCount(less, s[RunEnd(less, s, j)..])
  }

  /** The number of maximal runs. */
  ghost function Runs<T>(less: Less<T>, s: seq<T>): nat
    decreases |s|
  {
    if s == [] then 0 else 1 + Runs(less, s[RunEnd(less, s, 0)..])
  }

  /** list_insert_ordered: before the first element that `x` is less than. */
  ghost function InsertOrdered<T>(less: Less<T>, s: seq<T>, x: T): seq<T> {
    if s == [] then [x]
    else if less(x, s[0]) then [x] + s
    else [s[0]] + InsertOrdered(less, s[1..], x)
  }

  /** Inserting the elements of `s` one after another into an empty list. */
  ghost function InsertAll<T>(less: Less<T>, s: seq<T>): seq<T> {
    if s == [] then [] else InsertOrdered(less, InsertAll(less, s[..|s| - 1]), s[|s| - 1])
  }

  // ---- ties -------------------------------------------------------------------

  lemma Associates<T>(a: seq<T>, b: seq<T>, c: seq<T>)
    ensures a + (b + c) == a + b + c
  {
  }

  lemma {:induction false} TiesConcat<T>(less: Less<T>, x: T, s: seq<T>, t: seq<T>)
    ensures Ties(less, x, s + t) == Ties(less, x, s) + Ties(less, x, t)
  {
    if s == [] {
      assert s + t == t;
    } else {
      hide Tie;
      TiesConcat(less, x, s[1..], t);
      assert (s + t)[1..] == s[1..] + t && (s + t)[0] == s[0];
      Associates(Tie(less, x, s[0]), Ties(less, x, s[1..]), Ties(less, x, t));
    }
  }

  /** Nothing in a sorted sequence ties with an element less than its first. */
  lemma {:induction false} NoTies<T>(less: Less<T>, u: set<T>, x: T, y: T, s: seq<T>)
    requires StrictWeak(less, u) && Within(s, u) && x in u && y in u
    requires !less(x, y) && !less(y, x)
    requires forall i :: 0 <= i < |s| ==> less(y, s[i])
    ensures Ties(less, x, s) == []
  {
    if s == [] {
    } else {
      assert less(y, s[0]);
      NoTies(less, u, x, y, s[1..]);
    }
  }

  lemma InTail<T>(s: seq<T>, y: T)
    requires s != []
    ensures y in s[1..] ==> y in s
    ensures multiset(s) == multiset{s[0]} + multiset(s[1..])
  {
    assert s == [s[0]] + s[1..];
  }

  lemma MultisetSplit<T>(s: seq<T>, j: nat)
    requires j <= |s|
    ensures multiset(s) == multiset(s[..j]) + multiset(s[j..])
  {
    assert s == s[..j] + s[j..];
  }

  // ---- merging ----------------------------------------------------------------

  lemma {:induction false} MergeElements<T>(less: Less<T>, a: seq<T>, b: seq<T>)
    ensures multiset(Merge(less, a, b)) == multiset(a) + multiset(b)
    ensures |Merge(less, a, b)| == |a| + |b|
    decreases |a| + |b|
  {
    if a == [] || b == [] {
    } else {
      if !less(b[0], a[0]) {
        MergeElements(less, a[1..], b);
        InTail(a, a[0]);
      } else {
        MergeElements(less, a, b[1..]);
        InTail(b, b[0]);
      }
    }
  }

  lemma InMerge<T>(less: Less<T>, a: seq<T>, b: seq<T>, x: T)
    requires x in Merge(less, a, b)
    ensures x in a || x in b
  {
    MergeElements(less, a, b);
    assert x in multiset(Merge(less, a, b));
  }

  lemma {:induction false} MergeSorted<T>(less: Less<T>, u: set<T>, a: seq<T>, b: seq<T>)
    requires StrictWeak(less, u) && Within(a, u) && Within(b, u)
    requires Sorted(less, a) && Sorted(less, b)
    ensures Sorted(less, Merge(less, a, b))
    decreases |a| + |b|
  {
    if a == [] || b == [] {
    } else {
      if !less(b[0], a[0]) {
        MergeSorted(less, u, a[1..], b);
        forall y | y in Merge(less, a[1..], b) ensures y in a || y in b {
          InMerge(less, a[1..], b, y);
          InTail(a, y);
        }
        SortedCons(less, u, a[0], Merge(less, a[1..], b), a, b);
      } else {
        MergeSorted(less, u, a, b[1..]);
        forall y | y in Merge(less, a, b[1..]) ensures y in a || y in b {
          InMerge(less, a, b[1..], y);
          InTail(b, y);
        }
        SortedCons(less, u, b[0], Merge(less, a, b[1..]), a, b);
      }
    }
  }

  /** A first element that is not greater than the heads of both sources. */
  lemma SortedCons<T>(less: Less<T>, u: set<T>, x: T, m: seq<T>, a: seq<T>, b: seq<T>)
    requires StrictWeak(less, u) && Within(a, u) && Within(b, u) && x in u && a != [] && b != []
    requires Sorted(less, a) && Sorted(less, b) && Sorted(less, m)
    requires !less(a[0], x) && !less(b[0], x)
    requires forall y :: y in m ==> y in a || y in b
    ensures Sorted(less, [x] + m)
  {
    forall j | 0 <= j < |m| ensures !less(m[j], x) {
      assert m[j] in m;
      if m[j] in a {
        var i :| 0 <= i < |a| && a[i] == m[j];
        assert i > 0 ==> !less(a[i], a[0]);
      } else {
        var i :| 0 <= i < |b| && b[i] == m[j];
        assert i > 0 ==> !less(b[i], b[0]);
      }
    }
  }

  lemma {:induction false} MergeTies<T>(less: Less<T>, u: set<T>, x: T, a: seq<T>, b: seq<T>)
    requires StrictWeak(less, u) && Within(a, u) && Within(b, u) && x in u
    requires Sorted(less, a)
    ensures Ties(less, x, Merge(less, a, b)) == Ties(less, x, a) + Ties(less, x, b)
    decreases |a| + |b|
  {
    if a == [] || b == [] {
    } else {
      if !less(b[0], a[0]) {
        MergeTies(less, u, x, a[1..], b);
        var m := Merge(less, a[1..], b);
        assert ([a[0]] + m)[1..] == m;
      } else {
        MergeTies(less, u, x, a, b[1..]);
        var m := Merge(less, a, b[1..]);
        assert ([b[0]] + m)[1..] == m;
        if !less(x, b[0]) && !less(b[0], x) {
          forall i | 0 <= i < |a| ensures less(b[0], a[i]) {
            assert i > 0 ==> !less(a[i], a[0]);
          }
          NoTies(less, u, x, b[0], a);
        }
      }
    }
  }

  // ---- runs and passes --------------------------------------------------------

  /** Neighbours in order make the whole range sorted. */
  lemma {:induction false} AdjacentSorted<T>(less: Less<T>, u: set<T>, s: seq<T>)
    requires StrictWeak(less, u) && Within(s, u)
    requires forall i :: 0 <= i < |s| - 1 ==> !less(s[i + 1], s[i])
    ensures Sorted(less, s)
  {
    if |s| <= 1 {
    } else {
      var t := s[..|s| - 1];
      AdjacentSorted(less, u, t);
      forall i | 0 <= i < |t| ensures !less(s[|s| - 1], s[i]) {
        assert !less(s[|s| - 2 + 1], s[|s| - 2]);
        assert i < |s| - 2 ==> !less(t[|t| - 1], t[i]);
      }
      assert s == t + [s[|s| - 1]];
    }
  }

  lemma {:induction false} RunEndInOrder<T>(less: Less<T>, s: seq<T>, i: nat)
    requires i < |s|
    ensures forall k :: i <= k < RunEnd(less, s, i) - 1 ==> !less(s[k + 1], s[k])
    ensures RunEnd(less, s, i) < |s| ==> less(s[RunEnd(less, s, i)], s[RunEnd(less, s, i) - 1])
    decreases |s| - i
  {
    if i + 1 == |s| || less(s[i + 1], s[i]) {
    } else {
      RunEndInOrder(less, s, i + 1);
    }
  }

  lemma RunSorted<T>(less: Less<T>, u: set<T>, s: seq<T>, i: nat)
    requires StrictWeak(less, u) && Within(s, u) && i < |s|
    ensures Sorted(less, s[i..RunEnd(less, s, i)])
  {
    RunEndInOrder(less, s, i);
    var run := s[i..RunEnd(less, s, i)];
    forall k | 0 <= k < |run| - 1 ensures !less(run[k + 1], run[k]) {
      assert !less(s[i + k + 1], s[i + k]);
    }
    AdjacentSorted(less, u, run);
  }

  lemma {:induction false} RunEndShift<T>(less: Less<T>, s: seq<T>, i: nat, d: nat)
    requires d <= i < |s|
    ensures RunEnd(less, s[d..], i - d) == RunEnd(less, s, i) - d
    decreases |s| - i
  {
    if i + 1 == |s| || less(s[i + 1], s[i]) {
    } else {
      RunEndShift(less, s, i + 1, d);
    }
  }

  lemma Pieces<T>(s: seq<T>, j: nat, k: nat, u: set<T>)
    requires j <= k <= |s| && Within(s, u)
    ensures s == s[..j] + s[j..k] + s[k..] && s[0..j] == s[..j]
    ensures Within(s[..j], u) && Within(s[j..k], u) && Within(s[k..], u)
  {
  }

  /** When the input has two runs or more, the pass merges the first two and goes on. */
  lemma PassUnfold<T>(less: Less<T>, s: seq<T>)
    requires s != [] && RunEnd(less, s, 0) < |s|
    ensures var j := RunEnd(less, s, 0);
            var k := RunEnd(less, s, j);
            Pass(less, s) == Merge(less, s[..j], s[j..k]) + Pass(less, s[k..])
  {
  }

  lemma {:induction false} PassElements<T>(less: Less<T>, s: seq<T>)
    ensures multiset(Pass(less, s)) == multiset(s)
    decreases |s|
  {
    if s == [] || RunEnd(less, s, 0) == |s| {
    } else {
      hide Pass, Merge;
      var j := RunEnd(less, s, 0);
      var k := RunEnd(less, s, j);
      PassUnfold(less, s);
      PassElements(less, s[k..]);
      MergeElements(less, s[..j], s[j..k]);
      MultisetSplit(s, k);
      MultisetSplit(s[..k], j);
      assert s[..k][..j] == s[..j] && s[..k][j..] == s[j..k];
    }
  }

  /** A pass moves elements only within pairs of adjacent runs, keeping ties in order. */
  lemma {:induction false} PassTies<T>(less: Less<T>, u: set<T>, x: T, s: seq<T>)
    requires StrictWeak(less, u) && Within(s, u) && x in u
    ensures Ties(less, x, Pass(less, s)) == Ties(less, x, s)
    decreases |s|
  {
    if s == [] || RunEnd(less, s, 0) == |s| {
    } else {
      hide Pass, Ties, Merge, StrictWeak, Sorted, Within, RunEnd;
      var j := RunEnd(less, s, 0);
      var k := RunEnd(less, s, j);
      var a, b, c := s[..j], s[j..k], s[k..];
      Pieces(s, j, k, u);
      PassUnfold(less, s);
      PassTies(less, u, x, c);
      RunSorted(less, u, s, 0);
      MergeTies(less, u, x, a, b);
      TiesConcat(less, x, Merge(less, a, b), Pass(less, c));
      TiesConcat(less, x, a, b);
      TiesConcat(less, x, a + b, c);
    }
  }

  /** The pass counts half the runs of its input, rounded up. */
  lemma {:induction false} PassCountHalves<T>(less: Less<T>, s: seq<T>)
    ensures PassCount(less, s) == (Runs(less, s) + 1) / 2
    decreases |s|
  {
    if s == [] || RunEnd(less, s, 0) == |s| {
    } else {
      hide RunEnd;
      var j := RunEnd(less, s, 0);
      RunEndShift(less, s, j, j);
      var k := RunEnd(less, s, j);
      PassCountHalves(less, s[k..]);
      assert s[j..][k - j..] == s[k..];
      assert Runs(less, s) == 1 + Runs(less, s[j..]) == 2 + Runs(less, s[k..]);
    }
  }

  lemma {:induction false} RunEndConcat<T>(less: Less<T>, m: seq<T>, t: seq<T>, i: nat)
    requires i < |m| && forall k :: 0 <= k < |m| - 1 ==> !less(m[k + 1], m[k])
    ensures RunEnd(less, m + t, i) ==
            if t == [] || less(t[0], m[|m| - 1]) then |m| else |m| + RunEnd(less, t, 0)
    decreases |m| - i
  {
    var s := m + t;
    if i + 1 < |m| {
      assert !less(m[i + 1], m[i]);
      RunEndConcat(less, m, t, i + 1);
    } else if t != [] && !less(t[0], m[i]) {
      RunEndShift(less, s, |m|, |m|);
      assert s[|m|..] == t;
    }
  }

  lemma SortedRunJoins<T>(less: Less<T>, m: seq<T>, t: seq<T>)
    requires m != [] && Sorted(less, m)
    ensures Runs(less, m + t) <= 1 + Runs(less, t)
  {
    hide Runs;
    forall k | 0 <= k < |m| - 1 ensures !less(m[k + 1], m[k]) {
    }
    RunEndConcat(less, m, t, 0);
    var e := RunEnd(less, m + t, 0);
    RunsUnfold(less, m + t);
    assert (m + t)[e..] == t[e - |m|..];
    if e == |m| {
      assert t[0..] == t;
    } else {
      RunsUnfold(less, t);
    }
  }

  lemma RunsUnfold<T>(less: Less<T>, s: seq<T>)
    requires s != []
    ensures Runs(less, s) == 1 + Runs(less, s[RunEnd(less, s, 0)..])
    ensures RunEnd(less, s, 0) < |s| ==> Runs(less, s) >= 2
  {
  }

  /** The output of a pass has no more runs than the pass counted. */
  lemma {:induction false} PassRuns<T>(less: Less<T>, u: set<T>, s: seq<T>)
    requires StrictWeak(less, u) && Within(s, u)
    ensures Runs(less, Pass(less, s)) <= PassCount(less, s)
    decreases |s|
  {
    if s == [] {
    } else {
      var j := RunEnd(less, s, 0);
      if j < |s| {
        var k := RunEnd(less, s, j);
        PassRuns(less, u, s[k..]);
        RunSorted(less, u, s, 0);
        RunSorted(less, u, s, j);
        assert s[0..j] == s[..j];
        MergeSorted(less, u, s[..j], s[j..k]);
        MergeElements(less, s[..j], s[j..k]);
        SortedRunJoins(less, Merge(less, s[..j], s[j..k]), Pass(less, s[k..]));
      }
    }
  }

  lemma OneRunSorted<T>(less: Less<T>, u: set<T>, s: seq<T>)
    requires StrictWeak(less, u) && Within(s, u) && Runs(less, s) <= 1
    ensures Sorted(less, s)
  {
    if s != [] {
      var j := RunEnd(less, s, 0);
      RunsUnfold(less, s);
      RunSorted(less, u, s, 0);
      assert s[0..|s|] == s;
    }
  }

  // ---- ordered insertion ------------------------------------------------------

  lemma {:induction false} InsertElements<T>(less: Less<T>, s: seq<T>, x: T)
    ensures multiset(InsertOrdered(less, s, x)) == multiset(s) + multiset{x}
  {
    if s == [] || less(x, s[0]) {
    } else {
      InsertElements(less, s[1..], x);
      assert s == [s[0]] + s[1..];
    }
  }

  lemma {:induction false} InsertSorted<T>(less: Less<T>, u: set<T>, s: seq<T>, x: T)
    requires StrictWeak(less, u) && Within(s, u) && x in u && Sorted(less, s)
    ensures Sorted(less, InsertOrdered(less, s, x))
  {
    if s == [] {
    } else {
      if less(x, s[0]) {
        forall i | 0 <= i < |s| ensures !less(s[i], x) {
          assert i > 0 ==> !less(s[i], s[0]);
        }
      } else {
        InsertSorted(less, u, s[1..], x);
        InsertElements(less, s[1..], x);
        InsertHead(less, u, s, x);
      }
    }
  }

  /** On a tie the inserted element goes last. */
  lemma {:induction false} InsertTies<T>(less: Less<T>, u: set<T>, y: T, s: seq<T>, x: T)
    requires StrictWeak(less, u) && Within(s, u) && x in u && y in u && Sorted(less, s)
    ensures Ties(less, y, InsertOrdered(less, s, x)) == Ties(less, y, s) + Tie(less, y, x)
  {
    if s == [] {
    } else {
      if less(x, s[0]) {
        assert ([x] + s)[1..] == s;
        if !less(y, x) && !less(x, y) {
          forall i | 0 <= i < |s| ensures less(x, s[i]) {
            assert i > 0 ==> !less(s[i], s[0]);
          }
          NoTies(less, u, y, x, s);
        }
      } else {
        InsertTies(less, u, y, s[1..], x);
        var r := InsertOrdered(less, s[1..], x);
        assert ([s[0]] + r)[1..] == r;
        Associates(Tie(less, y, s[0]), Ties(less, y, s[1..]), Tie(less, y, x));
      }
    }
  }

  lemma InsertHead<T>(less: Less<T>, u: set<T>, s: seq<T>, x: T)
    requires StrictWeak(less, u) && Within(s, u) && x in u && Sorted(less, s) && s != [] && !less(x, s[0])
    requires Sorted(less, InsertOrdered(less, s[1..], x))
    requires multiset(InsertOrdered(less, s[1..], x)) == multiset(s[1..]) + multiset{x}
    ensures Sorted(less, InsertOrdered(less, s, x))
  {
    var m := InsertOrdered(less, s[1..], x);
    forall j | 0 <= j < |m| ensures !less(m[j], s[0]) {
      assert m[j] in multiset(m);
      if m[j] != x {
        assert m[j] in s[1..];
        var i :| 0 <= i < |s| - 1 && s[1..][i] == m[j];
        assert !less(s[i + 1], s[0]);
      }
    }
  }

  /** Inserting one by one sorts, and keeps ties in their original order. */
  lemma {:induction false} InsertAllCorrect<T>(less: Less<T>, u: set<T>, x: T, s: seq<T>)
    requires StrictWeak(less, u) && Within(s, u) && x in u
    ensures Sorted(less, InsertAll(less, s))
    ensures multiset(InsertAll(less, s)) == multiset(s)
    ensures Ties(less, x, InsertAll(less, s)) == Ties(less, x, s)
  {
    if s != [] {
      hide InsertOrdered, Ties, StrictWeak, Sorted;
      var t, y := s[..|s| - 1], s[|s| - 1];
      InsertAllCorrect(less, u, x, t);
      var r := InsertAll(less, t);
      assert s == t + [y];
      WithinPermutation(t, r, u);
      InsertElements(less, r, y);
      InsertSorted(less, u, r, y);
      InsertTies(less, u, x, r, y);
      TiesConcat(less, x, t, [y]);
      TieAlone(less, x, y);
    } else {
      NothingSorted(less, x, s);
    }
  }

  lemma TieAlone<T>(less: Less<T>, x: T, y: T)
    ensures Ties(less, x, [y]) == Tie(less, x, y)
  {
  }

  lemma NothingSorted<T>(less: Less<T>, x: T, s: seq<T>)
    requires s == []
    ensures Sorted(less, s)
  {
  }

  lemma WithinPermutation<T>(s: seq<T>, t: seq<T>, u: set<T>)
    requires Within(s, u) && multiset(s) == multiset(t)
    ensures Within(t, u)
  {
    forall i | 0 <= i < |t| ensures t[i] in u {
      assert t[i] in multiset(t);
      assert t[i] in s;
    }
  }

  lemma {:induction false} TiesMember<T>(less: Less<T>, x: T, y: T, s: seq<T>)
    ensures y in Ties(less, x, s) <==> y in s && !less(x, y) && !less(y, x)
  {
    if s == [] {
    } else {
      TiesMember(less, x, y, s[1..]);
      assert s == [s[0]] + s[1..];
    }
  }

  lemma SameEnd<T>(less: Less<T>, u: set<T>, s: seq<T>, t: seq<T>)
    requires StrictWeak(less, u) && Within(s, u) && Within(t, u)
    requires forall x :: x in u ==> Ties(less, x, s) == Ties(less, x, t)
    ensures s == [] <==> t == []
  {
    if s != [] {
      SharedTie(less, u, s[0], s, t);
    }
    if t != [] {
      SharedTie(less, u, t[0], t, s);
    }
  }

  /** There is only one sorted arrangement that keeps ties in order. */
  lemma {:induction false} SortedStableUnique<T>(less: Less<T>, u: set<T>, s: seq<T>, t: seq<T>)
    requires StrictWeak(less, u) && Within(s, u) && Within(t, u)
    requires Sorted(less, s) && Sorted(less, t)
    requires forall x :: x in u ==> Ties(less, x, s) == Ties(less, x, t)
    ensures s == t
  {
    SameEnd(less, u, s, t);
    if s == [] {
    } else {
      SharedTie(less, u, s[0], s, t);
      SharedTie(less, u, t[0], t, s);
      FirstTies(less, u, s, t);
      forall x | x in u ensures Ties(less, x, s[1..]) == Ties(less, x, t[1..]) {
        assert Ties(less, x, s) == Ties(less, x, t);
        DropTie(less, x, s);
        DropTie(less, x, t);
      }
      SortedStableUnique(less, u, s[1..], t[1..]);
    }
  }

  lemma SharedTie<T>(less: Less<T>, u: set<T>, x: T, s: seq<T>, t: seq<T>)
    requires StrictWeak(less, u) && x in u && x in s && Ties(less, x, s) == Ties(less, x, t)
    ensures x in t
  {
    TiesMember(less, x, x, s);
    TiesMember(less, x, x, t);
  }

  lemma FirstTies<T>(less: Less<T>, u: set<T>, s: seq<T>, t: seq<T>)
    requires StrictWeak(less, u) && Within(s, u) && Within(t, u) && s != [] && t != []
    requires Sorted(less, s) && Sorted(less, t) && s[0] in t && t[0] in s
    requires Ties(less, s[0], s) == Ties(less, s[0], t)
    ensures s[0] == t[0]
  {
    var i :| 0 <= i < |t| && t[i] == s[0];
    var j :| 0 <= j < |s| && s[j] == t[0];
    assert i > 0 ==> !less(t[i], t[0]);
    assert j > 0 ==> !less(s[j], s[0]);
    assert Ties(less, s[0], s)[0] == s[0] && Ties(less, s[0], t)[0] == t[0];
  }

  lemma DropTie<T>(less: Less<T>, x: T, s: seq<T>)
    requires s != []
    ensures Ties(less, x, s[1..]) ==
            if !less(x, s[0]) && !less(s[0], x) then Ties(less, x, s)[1..] else Ties(less, x, s)
  {
  }

  // ---- removing adjacent ties -------------------------------------------------

  predicate Tied<T>(less: Less<T>, x: T, y: T) {
    !less(x, y) && !less(y, x)
  }

  /** list_unique: of each stretch of elements that tie with its first, only the first stays. */
  ghost function Unique<T>(less: Less<T>, s: seq<T>): seq<T>
    decreases |s|
  {
    if |s| <= 1 then s
    else if Tied(less, s[0], s[1]) then Unique(less, [s[0]] + s[2..])
    else [s[0]] + Unique(less, s[1..])
  }

  /** The elements list_unique takes out, in order. */
  ghost function Dropped<T>(less: Less<T>, s: seq<T>): seq<T>
    decreases |s|
  {
    if |s| <= 1 then []
    else if Tied(less, s[0], s[1]) then [s[1]] + Dropped(less, [s[0]] + s[2..])
    else Dropped(less, s[1..])
  }

  /** Nothing is lost: what is not kept is among the duplicates. */
  lemma {:induction false} UniqueElements<T>(less: Less<T>, s: seq<T>)
    ensures multiset(Unique(less, s)) + multiset(Dropped(less, s)) == multiset(s)
    decreases |s|
  {
    hide Tied;
    if |s| <= 1 {
    } else {
      InTail(s, s[0]);
      if Tied(less, s[0], s[1]) {
        var t := [s[0]] + s[2..];
        UniqueElements(less, t);
        InTail(s[1..], s[1]);
        InTail(t, s[0]);
        assert s[1..][1..] == s[2..] && t[1..] == s[2..];
        Apart(Unique(less, t), Dropped(less, t), s[1]);
      } else {
        UniqueElements(less, s[1..]);
        Apart(Dropped(less, s[1..]), Unique(less, s[1..]), s[0]);
      }
    }
  }

  lemma Apart<T>(s: seq<T>, t: seq<T>, x: T)
    ensures multiset(s) + multiset([x] + t) == multiset{x} + (multiset(s) + multiset(t))
  {
  }

  /** On a sorted sequence the elements kept increase strictly, and each element ties with one
      that was kept. */
  lemma {:induction false} UniqueStrict<T>(less: Less<T>, u: set<T>, s: seq<T>)
    requires StrictWeak(less, u) && Within(s, u) && Sorted(less, s)
    ensures Within(Unique(less, s), u) && (s != [] ==> Unique(less, s) != [] && Unique(less, s)[0] == s[0])
    ensures forall i, j :: 0 <= i < j < |Unique(less, s)| ==> less(Unique(less, s)[i], Unique(less, s)[j])
    ensures forall x :: x in s ==> exists y :: y in Unique(less, s) && Tied(less, x, y)
    decreases |s|
  {
    if |s| > 1 {
      if Tied(less, s[0], s[1]) {
        var t := [s[0]] + s[2..];
        UniqueStrict(less, u, t);
        forall x | x in s ensures exists y :: y in Unique(less, s) && Tied(less, x, y) {
          if x == s[1] {
            assert Tied(less, x, Unique(less, t)[0]);
          } else {
            assert x in t;
          }
        }
      } else {
        var r := Unique(less, s[1..]);
        UniqueStrict(less, u, s[1..]);
        forall j | 0 <= j < |r| ensures less(s[0], r[j]) {
          assert less(s[0], s[1]) && r[0] == s[1];
          assert j > 0 ==> less(r[0], r[j]);
        }
        forall x | x in s ensures exists y :: y in Unique(less, s) && Tied(less, x, y) {
          if x == s[0] {
            assert Tied(less, x, Unique(less, s)[0]);
          } else {
            assert x in s[1..];
            var y :| y in r && Tied(less, x, y);
            assert y in Unique(less, s);
          }
        }
      }
    } else if |s| == 1 {
      assert Tied(less, s[0], Unique(less, s)[0]);
    }
  }

  function Shifted(ps: seq<nat>): (qs: seq<nat>)
    ensures |qs| == |ps| && forall i :: 0 <= i < |ps| ==> qs[i] == ps[i] + 1
  {
    seq(|ps|, i requires 0 <= i < |ps| => ps[i] + 1)
  }

  /** The positions of the elements kept. */
  ghost function Kept<T>(less: Less<T>, s: seq<T>): seq<nat>
    decreases |s|
  {
    if s == [] then []
    else if |s| == 1 then [0]
    else if Tied(less, s[0], s[1]) then
      var rest := Kept(less, [s[0]] + s[2..]);
      if rest == [] then [] else [0] + Shifted(rest[1..])
    else [0] + Shifted(Kept(less, s[1..]))
  }

  /** Position `q` comes after the `i`-th kept one and before the next. */
  predicate Between(ps: seq<nat>, n: nat, i: nat, q: nat) {
    i < |ps| && ps[i] < q < (if i + 1 < |ps| then ps[i + 1] else n)
  }

  lemma {:induction false} KeptPositions<T>(less: Less<T>, s: seq<T>)
    ensures var ps, r := Kept(less, s), Unique(less, s);
            && |ps| == |r| && |Dropped(less, s)| == |s| - |ps| && (s != [] ==> ps != [] && ps[0] == 0)
            && (forall i :: 0 <= i < |ps| ==> ps[i] < |s| && r[i] == s[ps[i]])
            && (forall i :: 0 <= i < |ps| - 1 ==> ps[i] < ps[i + 1])
    decreases |s|
  {
    hide Tied;
    if |s| <= 1 {
    } else if Tied(less, s[0], s[1]) {
      KeptPositions(less, [s[0]] + s[2..]);
    } else {
      KeptPositions(less, s[1..]);
    }
  }

  /** For any list and any `less`, neighbours that are kept never tie. */
  lemma {:induction false} UniqueNeighbours<T>(less: Less<T>, s: seq<T>)
    ensures forall i :: 0 <= i < |Unique(less, s)| - 1 ==>
              less(Unique(less, s)[i], Unique(less, s)[i + 1]) || less(Unique(less, s)[i + 1], Unique(less, s)[i])
    decreases |s|
  {
    if |s| <= 1 {
    } else if Tied(less, s[0], s[1]) {
      UniqueNeighbours(less, [s[0]] + s[2..]);
    } else {
      UniqueNeighbours(less, s[1..]);
      KeptPositions(less, s[1..]);
    }
  }

  /** What the first comparison does to the positions. */
  lemma KeptStep<T>(less: Less<T>, s: seq<T>)
    requires |s| > 1
    ensures var tied, t := Tied(less, s[0], s[1]), if Tied(less, s[0], s[1]) then [s[0]] + s[2..] else s[1..];
            var ps, rest := Kept(less, s), Kept(less, t);
            && |t| == |s| - 1 && (forall q :: 2 <= q < |s| ==> t[q - 1] == s[q])
            && |ps| > 0 && |rest| > 0 && ps[0] == 0 && rest[0] == 0
            && Unique(less, s) == (if tied then Unique(less, t) else [s[0]] + Unique(less, t))
            && Dropped(less, s) == (if tied then [s[1]] + Dropped(less, t) else Dropped(less, t))
            && |ps| == |rest| + (if tied then 0 else 1)
            && forall i :: 1 <= i < |ps| ==> ps[i] == rest[if tied then i else i - 1] + 1
  {
    hide Tied;
    KeptPositions(less, s);
    KeptPositions(less, if Tied(less, s[0], s[1]) then [s[0]] + s[2..] else s[1..]);
  }

  /** And everything taken out ties, both ways, with the element kept before it. */
  lemma {:induction false} DroppedTies<T>(less: Less<T>, s: seq<T>, i: nat, q: nat)
    requires Between(Kept(less, s), |s|, i, q) && q < |s|
    ensures i < |Unique(less, s)| && 0 <= q - i - 1 < |Dropped(less, s)|
    ensures Dropped(less, s)[q - i - 1] == s[q]
    ensures !less(Unique(less, s)[i], s[q]) && !less(s[q], Unique(less, s)[i])
    decreases |s|
  {
    hide Kept, Unique, Dropped;
    KeptPositions(less, s);
    if |s| <= 1 {
    } else {
      KeptStep(less, s);
      if Tied(less, s[0], s[1]) {
        if q > 1 {
          DroppedTies(less, [s[0]] + s[2..], i, q - 1);
        }
      } else {
        DroppedTies(less, s[1..], i - 1, q - 1);
      }
    }
  }
}
