/** The intrusive doubly linked list (list.c). A chain is the sequence of a list's elements
    from its head sentinel to its tail sentinel; the functions rewrite links in place. */
module LinkedList {
  import opened Sorting

  /** struct list_elem. */
  class Elem {
    var prev: Elem?
    var next: Elem?

    constructor ()
      ensures prev == null && next == null
    {
      prev := null;
      next := null;
    }
  }

  ghost predicate Distinct(s: seq<Elem>) {
    forall i, j :: 0 <= i < j < |s| ==> s[i] != s[j]
  }

  /** The elements of `s` are linked to one another in both directions. */
  ghost predicate Chain(s: seq<Elem>)
    reads s
  {
    && Distinct(s)
    && (forall i :: 0 <= i < |s| - 1 ==> s[i].next == s[i + 1])
    && (forall i :: 1 <= i < |s| ==> s[i].prev == s[i - 1])
  }

  /** list_insert, with `before` at position `i` of its chain. */
  method ListInsert(before: Elem, elem: Elem, ghost s: seq<Elem>, ghost i: nat)
    requires Chain(s) && 1 <= i < |s| && s[i] == before && elem !in s
    modifies elem, before, s[i - 1]
    ensures Chain(s[..i] + [elem] + s[i..])
    ensures s[0].prev == old(s[0].prev) && s[|s| - 1].next == old(s[|s| - 1].next)
  {
    elem.prev := before.prev;
    elem.next := before;
    before.prev.next := elem;
    before.prev := elem;
  }

  /** list_remove: returns the element that followed. */
  method ListRemove(elem: Elem, ghost s: seq<Elem>, ghost i: nat) returns (following: Elem)
    requires Chain(s) && 1 <= i < |s| - 1 && s[i] == elem
    modifies s[i - 1], s[i + 1]
    ensures Chain(s[..i] + s[i + 1..]) && following == s[i + 1]
    ensures s[0].prev == old(s[0].prev) && s[|s| - 1].next == old(s[|s| - 1].next)
  {
    elem.prev.next := elem.next;
    elem.next.prev := elem.prev;
    following := elem.next;
  }

  /** `s` with positions f .. l - 1 moved to just before position `b`. */
  ghost function Moved(s: seq<Elem>, b: nat, f: nat, l: nat): seq<Elem>
    requires b <= f <= l <= |s|
  {
    s[..b] + s[f..l] + s[b..f] + s[l..]
  }

  /** The position in `s` of the element at position `k` after the move. */
  function Source(b: nat, f: nat, l: nat, k: int): int {
    if k < b then k else if k < b + (l - f) then f + (k - b) else if k < l then k - (l - f) else k
  }

  lemma MovedAt(s: seq<Elem>, b: nat, f: nat, l: nat)
    requires b <= f <= l <= |s|
    ensures |Moved(s, b, f, l)| == |s|
    ensures forall k :: 0 <= k < |s| ==> 0 <= Source(b, f, l, k) < |s| && Moved(s, b, f, l)[k] == s[Source(b, f, l, k)]
  {
  }

  lemma MovedDistinct(s: seq<Elem>, b: nat, f: nat, l: nat)
    requires b <= f <= l <= |s| && Distinct(s)
    ensures Distinct(Moved(s, b, f, l))
  {
    MovedAt(s, b, f, l);
  }

  /** `s` with positions f .. l - 1 moved to just before the element at position `b`, which is not
      one of them: moving a range toward the tail is moving what follows it toward the head. */
  ghost function Spliced(s: seq<Elem>, b: nat, f: nat, l: nat): seq<Elem>
    requires f <= l <= |s| && b <= |s| && (b < f || l <= b || f == l)
  {
    if f == l then s else if b < f then Moved(s, b, f, l) else Moved(s, f, l, b)
  }

  /** list_splice within one list. */
  method ListSplice(before: Elem, first: Elem, last: Elem, ghost s: seq<Elem>, ghost b: nat, ghost f: nat, ghost l: nat)
    requires Chain(s) && 1 <= f <= l < |s| && 1 <= b < |s| && (b < f || l <= b || f == l)
    requires s[b] == before && s[f] == first && s[l] == last
    modifies s
    ensures Chain(Spliced(s, b, f, l))
    ensures s[0].prev == old(s[0].prev) && s[|s| - 1].next == old(s[|s| - 1].next)
  {
    hide Moved, Spliced, NextOf, PrevOf, Relinked;
    SamePlace(s, b, f, l);
    if first == last {
      return;
    }
    assert s[l].prev == s[l - 1];
    var end := last.prev;
    Detach(first, end, s, f, l);
    Attach(before, first, end, s, b, f, l);
    SplicedChain(s, b, f, l);
  }

  lemma SamePlace(s: seq<Elem>, b: nat, f: nat, l: nat)
    requires f <= l < |s| && b < |s| && (b < f || l <= b || f == l) && Distinct(s)
    ensures s[f] == s[l] ==> f == l && Spliced(s, b, f, l) == s
  {
  }

  lemma SplicedChain(s: seq<Elem>, b: nat, f: nat, l: nat)
    requires Distinct(s) && 1 <= f < l < |s| && 1 <= b < |s| && (b < f || l <= b)
    requires forall i :: 0 <= i < |s| - 1 ==> s[i].next == s[NextOf(b, f, l, i)]
    requires forall i :: 1 <= i < |s| ==> s[i].prev == s[PrevOf(b, f, l, i)]
    ensures Chain(Spliced(s, b, f, l))
  {
    hide Moved, Chain, NextOf, PrevOf, Relinked, Distinct;
    LinksMoved(s, b, f, l);
    if b < f {
      RelinkedChain(s, b, f, l);
    } else if l < b {
      RelinkedChain(s, f, l, b);
    } else {
      NothingMoved(s, f, l);
    }
  }

  lemma NothingMoved(s: seq<Elem>, f: nat, l: nat)
    requires f <= l <= |s|
    ensures Moved(s, f, l, l) == s
  {
  }

  /** The first half of list_splice: closes the gap that positions f .. l - 1 leave. */
  method Detach(first: Elem, end: Elem, ghost s: seq<Elem>, ghost f: nat, ghost l: nat)
    requires Chain(s) && 1 <= f < l < |s| && s[f] == first && s[l - 1] == end
    modifies s[f - 1], s[l]
    ensures s[0].prev == old(s[0].prev) && s[|s| - 1].next == old(s[|s| - 1].next)
    ensures forall i :: 0 <= i < |s| - 1 ==> s[i].next == if i == f - 1 then s[l] else s[i + 1]
    ensures forall i :: 1 <= i < |s| ==> s[i].prev == if i == l then s[f - 1] else s[i - 1]
  {
    assert s[l - 1].next == s[l] && s[f].prev == s[f - 1];
    first.prev.next := end.next;
    end.next.prev := first.prev;
  }

  /** The position of the element before the one at `b`, once positions f .. l - 1 are detached. */
  function Previous(b: nat, f: nat, l: nat): int {
    if b == l then f - 1 else b - 1
  }

  /** The positions of the elements that `next` and `prev` of the one at `i` lead to after the splice. */
  function NextOf(b: nat, f: nat, l: nat, i: int): int {
    if i == l - 1 then b else if i == Previous(b, f, l) then f else if i == f - 1 then l else i + 1
  }

  function PrevOf(b: nat, f: nat, l: nat, i: int): int {
    if i == b then l - 1 else if i == f then Previous(b, f, l) else if i == l then f - 1 else i - 1
  }

  /** The second half: links the detached elements in before position `b`. */
  method Attach(before: Elem, first: Elem, end: Elem, ghost s: seq<Elem>, ghost b: nat, ghost f: nat, ghost l: nat)
    requires Distinct(s) && 1 <= f < l < |s| && 1 <= b < |s| && (b < f || l <= b)
    requires s[b] == before && s[f] == first && s[l - 1] == end
    requires forall i :: 0 <= i < |s| - 1 ==> s[i].next == if i == f - 1 then s[l] else s[i + 1]
    requires forall i :: 1 <= i < |s| ==> s[i].prev == if i == l then s[f - 1] else s[i - 1]
    modifies s[f], s[l - 1], s[Previous(b, f, l)], s[b]
    ensures s[0].prev == old(s[0].prev) && s[|s| - 1].next == old(s[|s| - 1].next)
    ensures forall i :: 0 <= i < |s| - 1 ==> s[i].next == s[NextOf(b, f, l, i)]
    ensures forall i :: 1 <= i < |s| ==> s[i].prev == s[PrevOf(b, f, l, i)]
  {
    ghost var q := Previous(b, f, l);
    assert s[b].prev == s[q];
    first.prev := before.prev;
    end.next := before;
    before.prev.next := first;
    before.prev := end;
  }

  lemma LinksMoved(s: seq<Elem>, b: nat, f: nat, l: nat)
    requires 1 <= f < l < |s| && 1 <= b < |s| && (b < f || l <= b)
    requires forall i :: 0 <= i < |s| - 1 ==> s[i].next == s[NextOf(b, f, l, i)]
    requires forall i :: 1 <= i < |s| ==> s[i].prev == s[PrevOf(b, f, l, i)]
    ensures b < f ==> Relinked(s, b, f, l)
    ensures l < b ==> Relinked(s, f, l, b)
    ensures b == l && Distinct(s) ==> Chain(s)
  {
    hide Distinct;
    forall i: int
      ensures b < f ==> NextOf(b, f, l, i) == After(b, f, l, i) && PrevOf(b, f, l, i) == Before(b, f, l, i)
      ensures l < b ==> NextOf(b, f, l, i) == After(f, l, b, i) && PrevOf(b, f, l, i) == Before(f, l, b, i)
      ensures b == l ==> NextOf(b, f, l, i) == i + 1 && PrevOf(b, f, l, i) == i - 1
    {
    }
  }

  /** The positions in `s` of the elements that follow and precede the one at `i` after the move. */
  function After(b: nat, f: nat, l: nat, i: int): int {
    if i == b - 1 then f else if i == f - 1 then l else if i == l - 1 then b else i + 1
  }

  function Before(b: nat, f: nat, l: nat, i: int): int {
    if i == b then l - 1 else if i == f then b - 1 else if i == l then f - 1 else i - 1
  }

  ghost predicate Relinked(s: seq<Elem>, b: nat, f: nat, l: nat)
    requires 1 <= b < f < l < |s|
    reads s
  {
    && (forall i :: 0 <= i < |s| - 1 ==> s[i].next == s[After(b, f, l, i)])
    && (forall i :: 1 <= i < |s| ==> s[i].prev == s[Before(b, f, l, i)])
  }

  lemma SourceStep(b: nat, f: nat, l: nat, k: nat, n: nat)
    requires 1 <= b < f < l < n && k < n
    ensures After(b, f, l, Source(b, f, l, k)) == Source(b, f, l, k + 1)
    ensures Before(b, f, l, Source(b, f, l, k + 1)) == Source(b, f, l, k)
    ensures 0 <= Source(b, f, l, k) < n
  {
  }

  lemma RelinkedChain(s: seq<Elem>, b: nat, f: nat, l: nat)
    requires 1 <= b < f < l < |s| && Distinct(s) && Relinked(s, b, f, l)
    ensures Chain(Moved(s, b, f, l))
  {
    hide Moved, Distinct;
    var t := Moved(s, b, f, l);
    MovedAt(s, b, f, l);
    MovedDistinct(s, b, f, l);
    forall k | 0 <= k < |t| - 1 ensures t[k].next == t[k + 1] && t[k + 1].prev == t[k] {
      SourceStep(b, f, l, k, |s|);
      var q, r := Source(b, f, l, k), Source(b, f, l, k + 1);
      assert t[k] == s[q] && t[k + 1] == s[r];
      assert 0 <= q < |s| - 1 && 1 <= r < |s|;
    }
    forall k | 1 <= k < |t| ensures t[k].prev == t[k - 1] {
      assert t[k - 1 + 1].prev == t[k - 1];
    }
  }

  /** struct list: its sentinels, and the elements between them. */
  class List {
    const head: Elem
    const tail: Elem
    ghost var elems: seq<Elem>

    /** The elements from the head sentinel to the tail sentinel. */
    ghost function Whole(): (s: seq<Elem>)
      reads this
      ensures |s| == |elems| + 2 && s[0] == head && s[|s| - 1] == tail
      ensures forall i :: 0 <= i < |elems| ==> s[i + 1] == elems[i]
    {
      [head] + elems + [tail]
    }

    ghost function Nodes(): (u: set<Elem>)
      reads this
      ensures head in u && tail in u
      ensures forall i :: 0 <= i < |Whole()| ==> Whole()[i] in u
    {
      Members(Whole())
    }

    /** The element at position `i`, the tail sentinel after the last. */
    ghost function At(i: nat): (e: Elem)
      requires i <= |elems|
      reads this
      ensures e == Whole()[i + 1] && e == if i < |elems| then elems[i] else tail
    {
      if i < |elems| then elems[i] else tail
    }

    ghost predicate Valid()
      reads this, Nodes()
    {
      Chain(Whole()) && head.prev == null && tail.next == null
    }

    /** llist_init. */
    constructor ()
      ensures Valid() && elems == [] && fresh(head) && fresh(tail)
    {
      head := new Elem();
      tail := new Elem();
      elems := [];
      new;
      head.next := tail;
      tail.prev := head;
    }

    /** list_begin. */
    function Begin(): (e: Elem)
      requires Valid()
      reads this, Nodes()
      ensures e == At(0)
    {
      assert Whole()[0].next == Whole()[1];
      head.next
    }

    function Empty(): (b: bool)
      requires Valid()
      reads this, Nodes()
      ensures b == (elems == [])
    {
      assert Whole()[1] == if elems == [] then tail else elems[0];
      assert elems != [] ==> Whole()[|elems| + 1] == tail;
      Begin() == tail
    }

    /** list_insert into this list, before the element at position `i`, which may be the tail. */
    method InsertAt(before: Elem, elem: Elem, ghost i: nat)
      requires Valid() && i <= |elems| && before == At(i) && elem !in Nodes()
      modifies this, Nodes(), elem
      ensures Valid() && elems == old(elems)[..i] + [elem] + old(elems)[i..]
      ensures Nodes() == old(Nodes()) + {elem}
    {
      hide Members, Distinct, Chain;
      ghost var s := Whole();
      ListInsert(before, elem, s, i + 1);
      WholeInserted(head, elems, tail, i, elem);
      WholeWith(head, elems, tail, i, elem);
      elems := elems[..i] + [elem] + elems[i..];
    }

    method PushFront(elem: Elem)
      requires Valid() && elem !in Nodes()
      modifies this, Nodes(), elem
      ensures Valid() && elems == [elem] + old(elems)
    {
      hide Chain;
      WholeInserted(head, elems, tail, 0, elem);
      var before := Begin();
      InsertAt(before, elem, 0);
    }

    method PushBack(elem: Elem)
      requires Valid() && elem !in Nodes()
      modifies this, Nodes(), elem
      ensures Valid() && elems == old(elems) + [elem] && Nodes() == old(Nodes()) + {elem}
    {
      hide Chain;
      WholeInserted(head, elems, tail, |elems|, elem);
      InsertAt(tail, elem, |elems|);
    }

    method PopFront() returns (front: Elem)
      requires Valid() && elems != []
      modifies this, Nodes()
      ensures Valid() && front == old(elems)[0] && elems == old(elems)[1..]
    {
      hide Members, Distinct, Chain, Nodes;
      front := Begin();
      RemoveAt(front, 0);
    }

    method PopBack() returns (back: Elem)
      requires Valid() && elems != []
      modifies this, Nodes()
      ensures Valid() && back == old(elems)[|old(elems)| - 1] && elems == old(elems)[..|old(elems)| - 1]
    {
      hide Members, Distinct, Nodes;
      LastPrevious();
      back := tail.prev;
      RemoveAt(back, |elems| - 1);
    }

    lemma LastPrevious()
      requires Valid() && elems != []
      ensures tail.prev == elems[|elems| - 1]
    {
      assert Whole()[|elems| + 1].prev == Whole()[|elems|];
    }

    lemma NodesRemoved(i: nat)
      requires Valid() && i < |elems|
      ensures Members([head] + (elems[..i] + elems[i + 1..]) + [tail]) == Nodes() - {elems[i]}
    {
      hide Members;
      WholeWithout(head, elems, tail, i);
    }

    /** list_remove of the element at position `i`. */
    method RemoveAt(elem: Elem, ghost i: nat)
      requires Valid() && i < |elems| && elem == elems[i]
      modifies this, Nodes()
      ensures Valid() && elems == old(elems)[..i] + old(elems)[i + 1..]
      ensures Nodes() == old(Nodes()) - {elem}
    {
      hide Distinct, Members, Chain;
      ghost var s := Whole();
      NodesRemoved(i);
      var following := ListRemove(elem, s, i + 1);
      WholeRemoved(head, elems, tail, i);
      elems := elems[..i] + elems[i + 1..];
    }

    method Size() returns (n: nat)
      requires Valid()
      ensures n == |elems|
    {
      n := 0;
      var e := Begin();
      while e != tail
        invariant n <= |elems| && e == At(n)
        decreases |elems| - n
      {
        e := Next(e, n);
        n := n + 1;
      }
    }

    /** The search loop of list_insert_ordered. */
    method FirstGreater(elem: Elem, less: (Elem, Elem) -> bool) returns (e: Elem, ghost i: nat)
      requires Valid()
      ensures i <= |elems| && e == At(i)
      ensures forall k :: 0 <= k < i ==> !less(elem, elems[k])
      ensures i < |elems| ==> less(elem, elems[i])
    {
      i := 0;
      e := Begin();
      while e != tail && !less(elem, e)
        invariant i <= |elems| && e == At(i)
        invariant forall k :: 0 <= k < i ==> !less(elem, elems[k])
        decreases |elems| - i
      {
        e := Next(e, i);
        i := i + 1;
      }
    }

    /** find_end_of_run from the element at position `i` to the end of the list. */
    method FindEndOfRun(a: Elem, less: (Elem, Elem) -> bool, ghost i: nat) returns (e: Elem, ghost j: nat)
      requires Valid() && i < |elems| && a == elems[i]
      ensures i < j <= |elems| && e == At(j)
      ensures j == RunEnd(less, elems, i) && (e == tail ==> j == |elems|)
      ensures Valid()
    {
      hide Chain, Distinct;
      e := Next(a, i);
      j := i + 1;
      while e != tail && !LessThanPrev(e, less, j)
        invariant i < j <= |elems| && e == At(j)
        invariant RunEnd(less, elems, j - 1) == RunEnd(less, elems, i)
        decreases |elems| - j
      {
        e := Next(e, j);
        j := j + 1;
      }
      if e == tail {
        SamePosition(j, |elems|);
      }
    }

    function LessThanPrev(e: Elem, less: (Elem, Elem) -> bool, ghost j: nat): (b: bool)
      requires Valid() && 1 <= j < |elems| && e == elems[j]
      reads this, Nodes()
      ensures b == less(elems[j], elems[j - 1])
    {
      assert Whole()[j + 1].prev == Whole()[j];
      less(e, e.prev)
    }

    /** inplace_merge of the sorted ranges i .. j - 1 and j .. k - 1. */
    method InplaceMerge(a0: Elem, a1b0: Elem, b1: Elem, less: (Elem, Elem) -> bool, ghost i: nat, ghost j: nat,
        ghost k: nat)
      requires Valid() && i < j <= k <= |elems|
      requires a0 == elems[i] && a1b0 == At(j) && b1 == At(k)
      modifies this, Nodes()
      ensures Valid() && |elems| == |old(elems)|
      ensures multiset(elems) == multiset(old(elems)) && Nodes() == old(Nodes())
      ensures elems == Merged(less, old(elems), i, j, k) && elems[k..] == old(elems)[k..]
      ensures At(k) == old(At(k))
    {
      hide *;
      var a, m := a0, a1b0;
      ghost var p, q := i, j;
      MergeBegins(less, elems, i, j, k);
      while a != m && m != b1
        invariant Valid() && i <= p <= q <= k <= |elems| == |old(elems)|
        invariant a == At(p) && m == At(q) && b1 == At(k)
        invariant Merging(less, old(elems), i, j, k, elems, p, q) && Nodes() == old(Nodes())
        decreases k - p
      {
        if !less(m, a) {
          a := Next(a, p);
          MergeAdvances(less, old(elems), i, j, k, elems, p, q);
          p := p + 1;
        } else {
          var first := m;
          m := Next(m, q);
          MergeMoves(less, old(elems), i, j, k, elems, p, q);
          SpliceOne(a, first, m, p, q);
          p, q := p + 1, q + 1;
        }
      }
      if a == m {
        SamePosition(p, q);
      } else {
        SamePosition(q, k);
      }
      MergeDone(less, old(elems), i, j, k, elems, p, q);
    }

    lemma NodesMoved(p: nat, q: nat)
      requires p <= q < |elems|
      ensures Members([head] + MoveOne(elems, p, q) + [tail]) == Nodes()
    {
      MoveOneElements(elems, p, q);
      SameMembers(Whole(), [head] + MoveOne(elems, p, q) + [tail]);
    }

    lemma AtInNodes(i: nat)
      requires i <= |elems|
      ensures At(i) in Nodes()
    {
      assert Whole()[i + 1] in Nodes();
    }

    /** No two positions hold the same element. */
    lemma SamePosition(i: nat, j: nat)
      requires Valid() && i <= |elems| && j <= |elems| && At(i) == At(j)
      ensures i == j
    {
      assert Whole()[i + 1] == Whole()[j + 1];
    }

    /** One pass of list_sort: returns the number of runs it leaves. */
    method SortPass(less: (Elem, Elem) -> bool) returns (count: nat)
      requires Valid()
      modifies this, Nodes()
      ensures Valid() && elems == Pass(less, old(elems)) && count == PassCount(less, old(elems))
      ensures multiset(elems) == multiset(old(elems)) && Nodes() == old(Nodes())
    {
      hide Chain, Distinct, Valid, Nodes, Members, Pass, PassCount, RunEnd, Merged;
      count := 0;
      var a0 := Begin();
      ghost var p := 0;
      while a0 != tail
        invariant Valid() && p <= |elems| && a0 == At(p)
        invariant elems[..p] + Pass(less, elems[p..]) == Pass(less, old(elems))
        invariant count + PassCount(less, elems[p..]) == PassCount(less, old(elems))
        invariant multiset(elems) == multiset(old(elems))
        invariant Nodes() == old(Nodes())
        decreases |elems| - p
      {
        count := count + 1;
        var a1b0, b1;
        ghost var j, k;
        a1b0, j := FindEndOfRun(a0, less, p);
        if a1b0 == tail {
          PassLastRun(less, elems, p);
          p := |elems|;
          break;
        }
        b1, k := FindEndOfRun(a1b0, less, j);
        PassTwoRuns(less, elems, p);
        InplaceMerge(a0, a1b0, b1, less, p, j, k);
        a0, p := b1, k;
      }
      if p < |elems| {
        SamePosition(p, |elems|);
      }
      PassOver(less, elems, p);
    }

    /** list_sort. */
    method Sort(less: (Elem, Elem) -> bool)
      requires Valid() && StrictWeak(less, Members(elems))
      modifies this, Nodes()
      ensures Valid() && elems == InsertAll(less, old(elems))
      ensures Sorted(less, elems) && Stable(less, old(elems), elems)
    {
      hide Chain, Distinct;
      ghost var u := Members(elems);
      while true
        invariant Valid() && Within(elems, u) && multiset(elems) == multiset(old(elems))
        invariant forall x :: x in u ==> Ties(less, x, elems) == Ties(less, x, old(elems))
        invariant Nodes() == old(Nodes())
        decreases Runs(less, elems)
      {
        ghost var was := elems;
        var count := SortPass(less);
        PassKeeps(less, u, was);
        if count <= 1 {
          break;
        }
      }
      SortedByInsertion(less, old(elems), elems);
    }

    /** list_reverse. */
    method Reverse()
      requires Valid()
      modifies this, Nodes()
      ensures Valid() && elems == Reversed(old(elems)) && Nodes() == old(Nodes())
    {
      hide Members, Distinct, Reversed, Chain, At, Begin;
      if !Empty() {
        ghost var s := Whole();
        SwapLinks(s);
        SwapEnds(s);
        ReversedList(head, elems, tail);
        elems := Reversed(elems);
      }
    }

    /** The last two statements of list_reverse, for the chain `s` it started from. */
    method SwapEnds(ghost s: seq<Elem>)
      requires |s| >= 3 && Distinct(s) && s[0] == head && s[|s| - 1] == tail
      requires forall i :: 1 <= i < |s| - 1 ==> s[i].next == s[i - 1] && s[i].prev == s[i + 1]
      requires head.next == s[1] && tail.prev == s[|s| - 2]
      modifies s
      ensures forall i :: 2 <= i < |s| - 1 ==> s[i].next == s[i - 1]
      ensures forall i :: 1 <= i < |s| - 2 ==> s[i].prev == s[i + 1]
      ensures head.next == s[|s| - 2] && tail.prev == s[1] && head.prev == old(head.prev) && tail.next == old(tail.next)
      ensures s[|s| - 2].prev == head && s[1].next == tail
    {
      head.next, tail.prev := tail.prev, head.next;
      assert head.next == s[|s| - 2] && tail.prev == s[1];
      head.next.prev, tail.prev.next := tail.prev.next, head.next.prev;
    }

    /** The loop of list_reverse: every element's links change places. */
    method SwapLinks(ghost s: seq<Elem>)
      requires Chain(s) && |s| >= 3 && s[0] == head && s[|s| - 1] == tail
      modifies s[1..|s| - 1]
      ensures Distinct(s) && forall i :: 1 <= i < |s| - 1 ==> s[i].next == s[i - 1] && s[i].prev == s[i + 1]
      ensures head.next == s[1] && tail.prev == s[|s| - 2]
      ensures head.prev == old(head.prev) && tail.next == old(tail.next)
    {
      assert s[0].next == s[1] && s[|s| - 1].prev == s[|s| - 2];
      var e := head.next;
      ghost var i := 1;
      while e != tail
        invariant 1 <= i < |s| && e == s[i]
        invariant forall k :: 1 <= k < i ==> s[k].next == s[k - 1] && s[k].prev == s[k + 1]
        invariant forall k :: i <= k < |s| - 1 ==> s[k].prev == s[k - 1] && s[k].next == s[k + 1]
        invariant head.next == s[1] && tail.prev == s[|s| - 2]
        invariant head.prev == old(head.prev) && tail.next == old(tail.next)
        decreases |s| - i
      {
        assert e == s[1..|s| - 1][i - 1];
        e.prev, e.next := e.next, e.prev;
        e := e.prev;
        i := i + 1;
      }
    }

    /** What list_unique does with an element it takes out. */
    method Discard(elem: Elem, duplicates: List?, ghost i: nat)
      requires Valid() && i < |elems| && elem == elems[i]
      requires duplicates != null ==> duplicates.Valid() && duplicates != this && Nodes() !! duplicates.Nodes()
      modifies this, Nodes(), duplicates, if duplicates != null then duplicates.Nodes() else {}
      ensures Valid() && elems == old(elems)[..i] + old(elems)[i + 1..] && Nodes() == old(Nodes()) - {elem}
      ensures duplicates != null ==>
                && duplicates.Valid() && duplicates.elems == old(duplicates.elems) + [elem]
                && duplicates.Nodes() == old(duplicates.Nodes()) + {elem}
    {
      hide Chain, Distinct, Members;
      AtInNodes(i);
      RemoveAt(elem, i);
      if duplicates != null {
        duplicates.PushBack(elem);
      }
    }

    /** list_unique; the elements taken out go to the end of `duplicates`, if given. */
    method RemoveTies(duplicates: List?, less: (Elem, Elem) -> bool)
      requires Valid()
      requires (duplicates != null ==> duplicates.Valid() && duplicates != this && Nodes() !! duplicates.Nodes())
      modifies this, Nodes(), duplicates, if duplicates != null then duplicates.Nodes() else {}
      ensures Valid() && elems == Unique(less, old(elems))
      ensures duplicates != null ==>
                duplicates.Valid() && duplicates.elems == old(duplicates.elems) + Dropped(less, old(elems))
    {
      hide Chain, Distinct, Valid, Nodes, Members, Unique, Dropped, Uniquing;
      if Empty() {
        UniqueBegins(less, elems);
        UniqueDone(less, elems, elems, 0);
        return;
      }
      var elem := Begin();
      ghost var i := 0;
      var next := Next(elem, i);
      UniqueBegins(less, elems);
      while next != tail
        invariant Valid() && i < |elems| && elem == At(i) && next == At(i + 1)
        invariant Uniquing(less, old(elems), elems, i)
        invariant Nodes() <= old(Nodes())
        invariant duplicates != null ==> duplicates.Valid() && Nodes() !! duplicates.Nodes()
        invariant duplicates != null ==>
                    duplicates.elems + Dropped(less, elems[i..]) == old(duplicates.elems) + Dropped(less, old(elems))
        invariant duplicates != null ==> duplicates.Nodes() <= old(Nodes()) + old(duplicates.Nodes())
        decreases |elems| - i
      {
        if !less(elem, next) && !less(next, elem) {
          UniqueDrops(less, old(elems), elems, i);
          Discard(next, duplicates, i + 1);
        } else {
          UniqueKeeps(less, old(elems), elems, i);
          elem := next;
          i := i + 1;
        }
        next := Next(elem, i);
      }
      SamePosition(i + 1, |elems|);
      UniqueDone(less, old(elems), elems, i);
    }

    /** list_next of the element at position `i`. */
    function Next(e: Elem, ghost i: nat): (following: Elem)
      requires Valid() && i < |elems| && e == elems[i]
      reads this, Nodes()
      ensures following == At(i + 1)
    {
      assert Whole()[i + 1].next == Whole()[i + 2];
      e.next
    }

    /** The splice inplace_merge makes: the element at position `q` moves to position `p`. */
    method SpliceOne(before: Elem, first: Elem, last: Elem, ghost p: nat, ghost q: nat)
      requires Valid() && p < q < |elems| && before == elems[p] && first == elems[q] && last == At(q + 1)
      modifies this, Nodes()
      ensures Valid() && elems == MoveOne(old(elems), p, q)
      ensures Nodes() == old(Nodes()) && At(p + 1) == before && At(q + 1) == last
      ensures forall i :: q < i < |elems| ==> elems[i] == old(elems)[i]
    {
      hide Chain, Distinct, MoveOne, Spliced, Members;
      ListSplice(before, first, last, Whole(), p + 1, q + 1, q + 2);
      WholeMoved(head, elems, tail, p, q);
      NodesMoved(p, q);
      elems := MoveOne(elems, p, q);
    }

    /** list_insert_ordered. */
    method InsertInOrder(elem: Elem, less: (Elem, Elem) -> bool) returns (ghost i: nat)
      requires Valid() && elem !in Nodes()
      modifies this, Nodes(), elem
      ensures Valid() && elems == InsertOrdered(less, old(elems), elem)
      ensures i <= |old(elems)| && elems == old(elems)[..i] + [elem] + old(elems)[i..]
      ensures forall k :: 0 <= k < i ==> !less(elem, old(elems)[k])
      ensures i < |old(elems)| ==> less(elem, old(elems)[i])
    {
      hide InsertOrdered, Chain;
      var e;
      e, i := FirstGreater(elem, less);
      InsertPosition(less, elems, elem, i);
      InsertAt(e, elem, i);
    }
  }

  lemma WholeInserted(head: Elem, elems: seq<Elem>, tail: Elem, i: nat, elem: Elem)
    requires i <= |elems|
    ensures var s := [head] + elems + [tail];
            [head] + (elems[..i] + [elem] + elems[i..]) + [tail] == s[..i + 1] + [elem] + s[i + 1..]
    ensures i == 0 ==> elems[..i] + [elem] + elems[i..] == [elem] + elems
    ensures i == |elems| ==> elems[..i] + [elem] + elems[i..] == elems + [elem]
  {
  }

  lemma WholeRemoved(head: Elem, elems: seq<Elem>, tail: Elem, i: nat)
    requires i < |elems|
    ensures var s := [head] + elems + [tail];
            [head] + (elems[..i] + elems[i + 1..]) + [tail] == s[..i + 1] + s[i + 2..]
    ensures i == 0 ==> elems[..i] + elems[i + 1..] == elems[1..]
    ensures i == |elems| - 1 ==> elems[..i] + elems[i + 1..] == elems[..i]
  {
  }

  lemma ReversedChain(s: seq<Elem>)
    requires |s| >= 3 && Distinct(s)
    requires forall i :: 2 <= i < |s| - 1 ==> s[i].next == s[i - 1]
    requires forall i :: 1 <= i < |s| - 2 ==> s[i].prev == s[i + 1]
    requires s[0].next == s[|s| - 2] && s[|s| - 1].prev == s[1]
    requires s[|s| - 2].prev == s[0] && s[1].next == s[|s| - 1]
    ensures Chain([s[0]] + Reversed(s[1..|s| - 1]) + [s[|s| - 1]])
  {
    var t := [s[0]] + Reversed(s[1..|s| - 1]) + [s[|s| - 1]];
    forall i | 1 <= i < |s| - 1 ensures t[i] == s[|s| - 1 - i] {
      assert t[i] == Reversed(s[1..|s| - 1])[i - 1];
    }
    forall i | 0 <= i < |s| - 1 ensures t[i].next == t[i + 1] && t[i + 1].prev == t[i] {
      if 1 <= i < |s| - 2 {
        assert s[|s| - 1 - i].next == s[|s| - 1 - i - 1];
        assert s[|s| - 2 - i].prev == s[|s| - 2 - i + 1];
      }
    }
    forall i | 1 <= i < |s| ensures t[i].prev == t[i - 1] {
      assert t[i - 1 + 1].prev == t[i - 1];
    }
    forall i, j | 0 <= i < j < |s| ensures t[i] != t[j] {
      var p := if 1 <= i < |s| - 1 then |s| - 1 - i else i;
      var q := if 1 <= j < |s| - 1 then |s| - 1 - j else j;
      assert t[i] == s[p] && t[j] == s[q] && p != q;
    }
  }

  lemma ReversedList(head: Elem, elems: seq<Elem>, tail: Elem)
    requires elems != []
    requires var s := [head] + elems + [tail];
             && Distinct(s)
             && (forall i :: 2 <= i < |s| - 1 ==> s[i].next == s[i - 1])
             && (forall i :: 1 <= i < |s| - 2 ==> s[i].prev == s[i + 1])
             && s[0].next == s[|s| - 2] && s[|s| - 1].prev == s[1] && s[|s| - 2].prev == s[0] && s[1].next == s[|s| - 1]
    ensures Chain([head] + Reversed(elems) + [tail])
    ensures Members([head] + Reversed(elems) + [tail]) == Members([head] + elems + [tail])
  {
    hide Reversed, Distinct, Chain, Members;
    var s := [head] + elems + [tail];
    ReversedChain(s);
    assert s[1..|s| - 1] == elems;
    ReversedNodes(s, [head] + Reversed(elems) + [tail]);
  }

  lemma ReversedNodes<T>(s: seq<T>, t: seq<T>)
    requires |s| == |t| >= 2 && t[0] == s[0] && t[|t| - 1] == s[|s| - 1]
    requires forall i :: 1 <= i < |s| - 1 ==> t[i] == s[|s| - 1 - i]
    ensures Members(t) == Members(s)
  {
    forall i | 0 <= i < |s| ensures s[i] in t {
      assert 1 <= i < |s| - 1 ==> t[|s| - 1 - i] == s[i];
    }
  }

  function Reversed<T>(s: seq<T>): (r: seq<T>)
    ensures |r| == |s| && forall i :: 0 <= i < |s| ==> r[i] == s[|s| - 1 - i]
  {
    seq(|s|, i requires 0 <= i < |s| => s[|s| - 1 - i])
  }

  /** `s` with the element at position `q` moved to position `p`. */
  ghost function MoveOne<T>(s: seq<T>, p: nat, q: nat): (r: seq<T>)
    requires p <= q < |s|
    ensures |r| == |s| && r[p] == s[q]
    ensures forall i :: p <= i < q ==> r[i + 1] == s[i]
    ensures forall i :: q < i < |s| ==> r[i] == s[i]
  {
    s[..p] + [s[q]] + s[p..q] + s[q + 1..]
  }

  lemma WholeWithout(head: Elem, elems: seq<Elem>, tail: Elem, i: nat)
    requires i < |elems| && Distinct([head] + elems + [tail])
    ensures Members([head] + (elems[..i] + elems[i + 1..]) + [tail]) == Members([head] + elems + [tail]) - {elems[i]}
  {
    hide Members;
    var s := [head] + elems + [tail];
    WholeRemoved(head, elems, tail, i);
    assert s[i + 1] == elems[i];
    MembersWithout(s, i + 1);
  }

  lemma WholeWith(head: Elem, elems: seq<Elem>, tail: Elem, i: nat, elem: Elem)
    requires i <= |elems|
    ensures Members([head] + (elems[..i] + [elem] + elems[i..]) + [tail]) == Members([head] + elems + [tail]) + {elem}
  {
    assert elems == elems[..i] + elems[i..];
  }

  lemma MembersWithout<T>(s: seq<T>, k: nat)
    requires k < |s| && forall i, j :: 0 <= i < j < |s| ==> s[i] != s[j]
    ensures Members(s[..k] + s[k + 1..]) == Members(s) - {s[k]}
  {
    assert s == s[..k] + [s[k]] + s[k + 1..];
  }

  lemma SameMembers<T>(s: seq<T>, t: seq<T>)
    requires multiset(s) == multiset(t)
    ensures Members(s) == Members(t)
  {
    forall x ensures x in s <==> x in t {
      assert x in multiset(s) <==> x in multiset(t);
    }
  }

  lemma MoveOneElements<T>(s: seq<T>, p: nat, q: nat)
    requires p <= q < |s|
    ensures multiset(MoveOne(s, p, q)) == multiset(s)
  {
    assert s == s[..p] + s[p..q] + [s[q]] + s[q + 1..];
  }

  lemma WholeMoved(head: Elem, elems: seq<Elem>, tail: Elem, p: nat, q: nat)
    requires p < q < |elems|
    ensures [head] + MoveOne(elems, p, q) + [tail] == Spliced([head] + elems + [tail], p + 1, q + 1, q + 2)
  {
    hide MoveOne, Moved;
    MoveOneParts(elems, p, q);
    MovedParts([head] + elems + [tail], p + 1, q + 1, q + 2);
    var s := [head] + elems + [tail];
    assert s[..p + 1] == [head] + elems[..p] && s[q + 1..q + 2] == [elems[q]];
    assert s[p + 1..q + 1] == elems[p..q] && s[q + 2..] == elems[q + 1..] + [tail];
    Brackets(head, elems[..p], [elems[q]], elems[p..q], elems[q + 1..], tail);
  }

  lemma MoveOneParts<T>(s: seq<T>, p: nat, q: nat)
    requires p <= q < |s|
    ensures MoveOne(s, p, q) == s[..p] + [s[q]] + s[p..q] + s[q + 1..]
  {
  }

  lemma MovedParts(s: seq<Elem>, b: nat, f: nat, l: nat)
    requires b <= f <= l <= |s|
    ensures Moved(s, b, f, l) == s[..b] + s[f..l] + s[b..f] + s[l..]
  {
  }

  lemma Brackets<T>(x: T, a: seq<T>, b: seq<T>, c: seq<T>, d: seq<T>, y: T)
    ensures [x] + (a + b + c + d) + [y] == ([x] + a) + b + c + (d + [y])
  {
  }

  /** The adjacent ranges p .. q - 1 and q .. k - 1 of `s` merged where they stand. */
  ghost function Merged<T>(less: Less<T>, s: seq<T>, p: nat, q: nat, k: nat): seq<T>
    requires p <= q <= k <= |s|
  {
    s[..p] + Merge(less, s[p..q], s[q..k]) + s[k..]
  }

  /** Halfway through the merge of i .. j - 1 and j .. k - 1 of `was`: what is left to do on `s`
      is to merge p .. q - 1 and q .. k - 1. */
  ghost predicate Merging<T>(less: Less<T>, was: seq<T>, i: nat, j: nat, k: nat, s: seq<T>, p: nat, q: nat)
    requires i <= j <= k <= |was| && p <= q <= k <= |s|
  {
    Merged(less, s, p, q, k) == Merged(less, was, i, j, k) && s[k..] == was[k..] && multiset(s) == multiset(was)
  }

  /** A step that only moves the cursor: the first range's head is in place. */
  lemma MergeAdvances<T>(less: Less<T>, was: seq<T>, i: nat, j: nat, k: nat, s: seq<T>, p: nat, q: nat)
    requires i <= j <= k <= |was| && p < q < k <= |s| && Merging(less, was, i, j, k, s, p, q) && !less(s[q], s[p])
    ensures Merging(less, was, i, j, k, s, p + 1, q)
  {
    var m := Merge(less, s[p + 1..q], s[q..k]);
    assert s[p..q][1..] == s[p + 1..q];
    assert Merge(less, s[p..q], s[q..k]) == [s[p]] + m;
    assert s[..p + 1] == s[..p] + [s[p]];
    hide Merge;
    Associates(s[..p], [s[p]], m);
  }

  /** A step that splices the second range's head in front of the first range. */
  lemma MergeMoves<T>(less: Less<T>, was: seq<T>, i: nat, j: nat, k: nat, s: seq<T>, p: nat, q: nat)
    requires i <= j <= k <= |was| && p < q < k <= |s| && Merging(less, was, i, j, k, s, p, q) && less(s[q], s[p])
    ensures Merging(less, was, i, j, k, MoveOne(s, p, q), p + 1, q + 1)
  {
    var r := MoveOne(s, p, q);
    var m := Merge(less, s[p..q], s[q + 1..k]);
    assert s[q..k][1..] == s[q + 1..k];
    assert Merge(less, s[p..q], s[q..k]) == [s[q]] + m;
    hide Merge;
    assert r[p + 1..q + 1] == s[p..q] && r[q + 1..k] == s[q + 1..k] && r[k..] == s[k..];
    assert r[..p + 1] == s[..p] + [s[q]];
    Associates(s[..p], [s[q]], m);
    MoveOneElements(s, p, q);
  }

  lemma MergeDone<T>(less: Less<T>, was: seq<T>, i: nat, j: nat, k: nat, s: seq<T>, p: nat, q: nat)
    requires i <= j <= k <= |was| && p <= q <= k <= |s| && Merging(less, was, i, j, k, s, p, q) && (p == q || q == k)
    ensures s == Merged(less, was, i, j, k) && s[k..] == was[k..] && multiset(s) == multiset(was)
  {
    assert s == s[..p] + s[p..q] + s[q..k] + s[k..];
  }

  lemma MergeBegins<T>(less: Less<T>, s: seq<T>, i: nat, j: nat, k: nat)
    requires i <= j <= k <= |s|
    ensures Merging(less, s, i, j, k, s, i, j)
  {
  }

  lemma PassOver<T>(less: Less<T>, s: seq<T>, p: nat)
    requires p == |s|
    ensures s[..p] + Pass(less, s[p..]) == s && PassCount(less, s[p..]) == 0
  {
  }

  lemma Rejoin<T>(s: seq<T>, p: nat)
    requires p <= |s|
    ensures s[..p] + s[p..] == s && s[..|s|] == s && s[|s|..] == []
  {
  }

  lemma PassOneRun<T>(less: Less<T>, s: seq<T>)
    requires s != [] && RunEnd(less, s, 0) == |s|
    ensures Pass(less, s) == s && PassCount(less, s) == 1
  {
  }

  lemma PassLastRun<T>(less: Less<T>, s: seq<T>, p: nat)
    requires p < |s| && RunEnd(less, s, p) == |s|
    ensures s[..p] + Pass(less, s[p..]) == s && PassCount(less, s[p..]) == 1
    ensures s[..|s|] == s && s[|s|..] == []
  {
    hide Pass, PassCount, RunEnd;
    RunEndShift(less, s, p, p);
    PassOneRun(less, s[p..]);
    Rejoin(s, p);
  }

  lemma PassTwoRuns<T>(less: Less<T>, s: seq<T>, p: nat)
    requires p < |s| && RunEnd(less, s, p) < |s|
    ensures var j := RunEnd(less, s, p);
            var k := RunEnd(less, s, j);
            var r := Merged(less, s, p, j, k);
            && |r| == |s| && r[k..] == s[k..]
            && r[..k] + Pass(less, s[k..]) == s[..p] + Pass(less, s[p..])
            && 1 + PassCount(less, s[k..]) == PassCount(less, s[p..])
  {
    hide Merge, Pass, RunEnd, PassCount, Merged;
    var j := RunEnd(less, s, p);
    var k := RunEnd(less, s, j);
    PassStepsAt(less, s, p, j, k);
    MergedParts(less, s, p, j, k);
    Regroup(Merged(less, s, p, j, k)[..k], s[..p], Merge(less, s[p..j], s[j..k]), Pass(less, s[k..]));
  }

  lemma Regroup<T>(front: seq<T>, a: seq<T>, b: seq<T>, c: seq<T>)
    requires front == a + b
    ensures front + c == a + (b + c)
  {
  }

  /** What a pass does from position `p` on, where runs end at `j` and `k`. */
  lemma PassStepsAt<T>(less: Less<T>, s: seq<T>, p: nat, j: nat, k: nat)
    requires p < |s| && j == RunEnd(less, s, p) < |s| && k == RunEnd(less, s, j)
    ensures Pass(less, s[p..]) == Merge(less, s[p..j], s[j..k]) + Pass(less, s[k..])
    ensures PassCount(less, s[p..]) == 1 + PassCount(less, s[k..])
  {
    hide Merge, Pass, RunEnd, PassCount;
    RunEndShift(less, s, p, p);
    RunEndShift(less, s, j, p);
    PassSteps(less, s[p..], j - p, k - p);
    Subslices(s, p, j, k);
  }

  lemma PassSteps<T>(less: Less<T>, s: seq<T>, j: nat, k: nat)
    requires s != [] && j == RunEnd(less, s, 0) < |s| && k == RunEnd(less, s, j)
    ensures Pass(less, s) == Merge(less, s[..j], s[j..k]) + Pass(less, s[k..])
    ensures PassCount(less, s) == 1 + PassCount(less, s[k..])
  {
  }

  lemma Subslices<T>(s: seq<T>, p: nat, j: nat, k: nat)
    requires p <= j <= k <= |s|
    ensures s[p..][..j - p] == s[p..j] && s[p..][j - p..k - p] == s[j..k] && s[p..][k - p..] == s[k..]
  {
  }

  lemma MergedParts<T>(less: Less<T>, s: seq<T>, p: nat, j: nat, k: nat)
    requires p <= j <= k <= |s|
    ensures var r := Merged(less, s, p, j, k);
            && |r| == |s| && r[k..] == s[k..]
            && r[..k] == s[..p] + Merge(less, s[p..j], s[j..k])
  {
    hide Merge;
    MergeElements(less, s[p..j], s[j..k]);
  }

  ghost function Members<T>(s: seq<T>): set<T> {
    set x | x in s
  }

  /** What a pass of the sort keeps, and how it gets closer to a single run. */
  lemma PassKeeps<T>(less: Less<T>, u: set<T>, s: seq<T>)
    requires StrictWeak(less, u) && Within(s, u)
    ensures Within(Pass(less, s), u) && multiset(Pass(less, s)) == multiset(s)
    ensures forall x :: x in u ==> Ties(less, x, Pass(less, s)) == Ties(less, x, s)
    ensures if PassCount(less, s) <= 1 then Sorted(less, Pass(less, s)) else Runs(less, Pass(less, s)) < Runs(less, s)
  {
    hide Pass, Ties, StrictWeak, Runs, PassCount;
    PassElements(less, s);
    WithinPermutation(s, Pass(less, s), u);
    forall x | x in u ensures Ties(less, x, Pass(less, s)) == Ties(less, x, s) {
      PassTies(less, u, x, s);
    }
    PassRuns(less, u, s);
    PassCountHalves(less, s);
    if PassCount(less, s) <= 1 {
      OneRunSorted(less, u, Pass(less, s));
    }
  }

  /** A sorted arrangement with ties in order is what inserting one by one gives. */
  lemma SortedByInsertion<T>(less: Less<T>, s: seq<T>, t: seq<T>)
    requires StrictWeak(less, Members(s)) && Sorted(less, t) && multiset(s) == multiset(t)
    requires forall x :: x in Members(s) ==> Ties(less, x, t) == Ties(less, x, s)
    ensures t == InsertAll(less, s)
  {
    var u := Members(s);
    var r := InsertAll(less, s);
    if s == [] {
      assert |multiset(t)| == 0;
    } else {
      hide Ties, InsertAll;
      forall x | x in u ensures Ties(less, x, r) == Ties(less, x, t) {
        InsertAllCorrect(less, u, x, s);
      }
      InsertAllCorrect(less, u, s[0], s);
      WithinPermutation(s, t, u);
      WithinPermutation(s, r, u);
      SortedStableUnique(less, u, r, t);
    }
  }

  lemma {:induction false} InsertPosition<T>(less: Less<T>, s: seq<T>, x: T, i: nat)
    requires i <= |s| && forall k :: 0 <= k < i ==> !less(x, s[k])
    requires i < |s| ==> less(x, s[i])
    ensures InsertOrdered(less, s, x) == s[..i] + [x] + s[i..]
  {
    hide InsertOrdered;
    InsertHere(less, s, x);
    if i == 0 {
      assert s[..0] + [x] + s[0..] == [x] + s;
    } else {
      assert !less(x, s[0]);
      InsertPosition(less, s[1..], x, i - 1);
      PrefixOfTail(s, i, x);
    }
  }

  lemma InsertHere<T>(less: Less<T>, s: seq<T>, x: T)
    ensures s == [] || less(x, s[0]) ==> InsertOrdered(less, s, x) == [x] + s
    ensures s != [] && !less(x, s[0]) ==> InsertOrdered(less, s, x) == [s[0]] + InsertOrdered(less, s[1..], x)
  {
  }

  lemma PrefixOfTail<T>(s: seq<T>, i: nat, x: T)
    requires 0 < i <= |s|
    ensures [s[0]] + (s[1..][..i - 1] + [x] + s[1..][i - 1..]) == s[..i] + [x] + s[i..]
  {
  }

  /** Halfway through list_unique on `was`: the first `i` elements of `s` are done. */
  ghost predicate Uniquing<T>(less: Less<T>, was: seq<T>, s: seq<T>, i: nat) {
    i <= |s| && s[..i] + Unique(less, s[i..]) == Unique(less, was)
  }

  lemma UniqueBegins<T>(less: Less<T>, s: seq<T>)
    ensures Uniquing(less, s, s, 0) && s[0..] == s
  {
  }

  lemma UniqueDrops<T>(less: Less<T>, was: seq<T>, s: seq<T>, i: nat)
    requires i + 1 < |s| && Tied(less, s[i], s[i + 1]) && Uniquing(less, was, s, i)
    ensures var r := s[..i + 1] + s[i + 2..];
            Uniquing(less, was, r, i) && Dropped(less, s[i..]) == [s[i + 1]] + Dropped(less, r[i..])
  {
    var r := s[..i + 1] + s[i + 2..];
    assert r[..i] == s[..i] && r[i..] == [s[i]] + s[i..][2..];
  }

  lemma UniqueKeeps<T>(less: Less<T>, was: seq<T>, s: seq<T>, i: nat)
    requires i + 1 < |s| && !Tied(less, s[i], s[i + 1]) && Uniquing(less, was, s, i)
    ensures Uniquing(less, was, s, i + 1) && Dropped(less, s[i..]) == Dropped(less, s[i + 1..])
  {
    assert s[i..][1..] == s[i + 1..] && s[..i + 1] == s[..i] + [s[i]];
  }

  lemma UniqueDone<T>(less: Less<T>, was: seq<T>, s: seq<T>, i: nat)
    requires (i == |s| || i + 1 == |s|) && Uniquing(less, was, s, i)
    ensures s == Unique(less, was) && Dropped(less, s[i..]) == []
  {
    assert s[..i] + s[i..] == s;
  }
}
