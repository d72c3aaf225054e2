/** The binary min-heaps of queue candidates used by every route search
    (core/router_heap.go and the node heap of core/router_node.go). Both sift a hole
    through the backing slice and store the moved candidate once, at the end. */
module RouteHeap {

  /** A queued candidate: a search state, the cost it was labelled with, and the
      cost plus estimate that orders the queue. */
  datatype Candidate<+S> = Candidate(id: S, dist: real, priority: real)

  function Parent(i: nat): nat
    requires 0 < i
  {
    (i - 1) / 2
  }

  ghost predicate HeapOrdered<S>(items: seq<Candidate<S>>) {
    forall j :: 0 < j < |items| ==> items[Parent(j)].priority <= items[j].priority
  }

  /** No candidate of an ordered heap has a smaller priority than the root. */
  lemma {:induction false} RootIsMinimal<S>(items: seq<Candidate<S>>, k: nat)
    requires HeapOrdered(items)
    requires k < |items|
    ensures items[0].priority <= items[k].priority
    decreases k
  {
    if k > 0 {
      RootIsMinimal(items, Parent(k));
    }
  }

  lemma RootIsLeast<S>(items: seq<Candidate<S>>)
    requires HeapOrdered(items) && |items| > 0
    ensures forall c :: c in items ==> items[0].priority <= c.priority
  {
    forall k | 0 <= k < |items|
      ensures items[0].priority <= items[k].priority
    {
      RootIsMinimal(items, k);
    }
  }

  /** Moving the hole from `i` to `p` exchanges the two entries of the heap the loop stands for. */
  lemma HoleMoves<T>(s: seq<T>, i: nat, p: nat, v: T)
    requires i < |s| && p < |s| && i != p
    ensures multiset(s[i := s[p]][p := v]) == multiset(s[i := v])
    ensures s[i := s[p]][p := v] == s[i := v][i := s[i := v][p]][p := s[i := v][i]]
  {
    var filled := s[i := v];
    assert s[i := s[p]][p := v] == filled[i := s[p]][p := v];
    assert filled[i := s[p]][p] == s[p];
  }

  /** The heap with its hole at `i` filled by `v` is ordered everywhere except that `v` may be
      smaller than its parent; the hole's children are not below the hole's parent. */
  ghost predicate OrderedAbove<S>(s: seq<Candidate<S>>, i: nat) {
    && i < |s|
    && (forall j :: 0 < j < |s| && j != i ==> s[Parent(j)].priority <= s[j].priority)
    && (i > 0 ==> forall j :: 0 < j < |s| && Parent(j) == i ==> s[Parent(i)].priority <= s[j].priority)
  }

  /** Dually, with the hole's children possibly smaller than the value in the hole. */
  ghost predicate OrderedBelow<S>(s: seq<Candidate<S>>, i: nat) {
    && i < |s|
    && (forall j :: 0 < j < |s| && Parent(j) != i ==> s[Parent(j)].priority <= s[j].priority)
    && (i > 0 ==> forall j :: 0 < j < |s| && Parent(j) == i ==> s[Parent(i)].priority <= s[j].priority)
  }

  /** One upward step of the hole: the value in it is smaller than its parent. */
  lemma SiftUpStep<S>(s: seq<Candidate<S>>, i: nat)
    requires OrderedAbove(s, i) && i > 0
    requires s[i].priority < s[Parent(i)].priority
    ensures OrderedAbove(s[i := s[Parent(i)]][Parent(i) := s[i]], Parent(i))
  {
    var p := Parent(i);
    var t := s[i := s[p]][p := s[i]];
    forall j | 0 < j < |t| && j != p
      ensures t[Parent(j)].priority <= t[j].priority
    {
      if Parent(j) == i || Parent(j) == p {
        assert s[Parent(j)].priority <= s[j].priority || j == i;
      }
    }
  }

  /** One downward step: `child` is the smaller child of the hole and smaller than the value in it. */
  lemma SiftDownStep<S>(s: seq<Candidate<S>>, i: nat, child: nat)
    requires OrderedBelow(s, i)
    requires 0 < child < |s| && Parent(child) == i
    requires s[child].priority < s[i].priority
    requires forall j :: 0 < j < |s| && Parent(j) == i ==> s[child].priority <= s[j].priority
    ensures OrderedBelow(s[i := s[child]][child := s[i]], child)
  {
    var t := s[i := s[child]][child := s[i]];
    forall j | 0 < j < |t| && Parent(j) != child
      ensures t[Parent(j)].priority <= t[j].priority
    {
      if Parent(j) == i {
        assert t[i] == s[child];
      } else if j == i {
        assert s[Parent(i)].priority <= s[child].priority;
      }
    }
  }

  /** The step as the loop performs it: the hole and not yet the value moves down. */
  lemma HoleSiftsDown<S>(heap: seq<Candidate<S>>, i: nat, last: Candidate<S>)
    requires 2 * i + 1 < |heap| && OrderedBelow(heap[i := last], i)
    requires heap[SmallerChild(heap, i)].priority < last.priority
    ensures var child := SmallerChild(heap, i);
      && OrderedBelow(heap[i := heap[child]][child := last], child)
      && multiset(heap[i := heap[child]][child := last]) == multiset(heap[i := last])
  {
    var child := SmallerChild(heap, i);
    HoleMoves(heap, i, child, last);
    SiftDownStep(heap[i := last], i, child);
  }

  /** Taking the root out and putting the last candidate in the hole. */
  lemma LastReplacesRoot<S>(items: seq<Candidate<S>>)
    requires HeapOrdered(items) && |items| > 1
    ensures multiset(items[..|items| - 1][0 := items[|items| - 1]]) == multiset(items) - multiset{items[0]}
    ensures OrderedBelow(items[..|items| - 1][0 := items[|items| - 1]], 0)
  {
    var n := |items| - 1;
    assert items == items[..n] + [items[n]];
    assert multiset(items) == multiset(items[..n]) + multiset{items[n]};
    assert items[..n][0] == items[0];
  }

  /** The smaller of the hole's children. */
  function SmallerChild<S>(heap: seq<Candidate<S>>, i: nat): (child: nat)
    requires 2 * i + 1 < |heap|
    ensures child < |heap| && 0 < child && Parent(child) == i
    ensures forall j :: 0 < j < |heap| && Parent(j) == i ==> heap[child].priority <= heap[j].priority
  {
    var child := 2 * i + 1;
    if child + 1 < |heap| && heap[child + 1].priority < heap[child].priority then child + 1 else child
  }

  class ValueHeap<S(==)> {
    var items: seq<Candidate<S>>

    ghost predicate Valid()
      reads this
    {
      HeapOrdered(items)
    }

    constructor ()
      ensures Valid() && items == []
    {
      items := [];
    }

    method Push(v: Candidate<S>)
      requires Valid()
      modifies this
      ensures Valid()
      ensures multiset(items) == multiset(old(items)) + multiset{v}
    {
      var heap := items + [v];
      var i := |heap| - 1;
      ghost var filled := heap;
      assert heap[i := v] == heap;
      while i > 0
        invariant 0 <= i < |heap| && filled == heap[i := v]
        invariant multiset(filled) == multiset(old(items)) + multiset{v}
        invariant OrderedAbove(filled, i)
      {
        var parent := Parent(i);
        if heap[parent].priority <= v.priority {
          break;
        }
        SiftUpStep(filled, i);
        HoleMoves(heap, i, parent, v);
        heap := heap[i := heap[parent]];
        filled := heap[parent := v];
        i := parent;
      }
      items := heap[i := v];
    }

    /** The loop of Pop: sifts the hole at the root down and stores `last` in it. */
    static method SiftDown(rest: seq<Candidate<S>>, last: Candidate<S>) returns (heap: seq<Candidate<S>>)
      requires |rest| > 0 && OrderedBelow(rest[0 := last], 0)
      ensures HeapOrdered(heap)
      ensures multiset(heap) == multiset(rest[0 := last])
    {
      heap := rest;
      var n := |heap|;
      var i := 0;
      while 2 * i + 1 < n
        invariant 0 <= i < n == |heap|
        invariant multiset(heap[i := last]) == multiset(rest[0 := last])
        invariant OrderedBelow(heap[i := last], i)
        decreases n - i
      {
        var child := SmallerChild(heap, i);
        if last.priority <= heap[child].priority {
          break;
        }
        HoleSiftsDown(heap, i, last);
        heap := heap[i := heap[child]];
        i := child;
      }
      heap := heap[i := last];
    }

    method Pop() returns (out: Candidate<S>)
      requires Valid()
      requires |items| > 0
      modifies this
      ensures Valid()
      ensures out in multiset(old(items))
      ensures forall c :: c in old(items) ==> out.priority <= c.priority
      ensures multiset(items) == multiset(old(items)) - multiset{out}
    {
      RootIsLeast(items);
      out := items[0];
      var n := |items| - 1;
      var last := items[n];
      if n == 0 {
        assert items == [out];
        assert multiset(items) - multiset{out} == multiset{};
        items := [];
      } else {
        LastReplacesRoot(items);
        items := SiftDown(items[..n], last);
      }
    }
  }
}
