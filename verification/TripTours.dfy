/** Tours through map nodes, their asymmetric cost, and what reversing a stretch does to them (cmd/tsp.go). */
module TripTours {
  import opened Common
  import opened Bitmask
  import opened Pigeonhole
  import opened Reversal
  import opened TripOrders

  function Add(a: Ext, b: Ext): Ext {
    if a.Fin? && b.Fin? then Fin(a.v + b.v) else Inf
  }

  predicate Less(a: Ext, b: Ext) {
    a.Fin? && (b.Inf? || a.v < b.v)
  }

  type Pricing = (int, int) -> Ext

  /** The legs leaving `nodes[i..j]`. */
  function LegSum(cost: Pricing, nodes: seq<int>, i: nat, j: nat): Ext
    requires i <= j < |nodes|
    decreases j - i
  {
    if i == j then Fin(0.0) else Add(cost(nodes[i], nodes[i + 1]), LegSum(cost, nodes, i + 1, j))
  }

  /** The legs between `nodes[i]` and `nodes[j]` travelled backwards. */
  function BackSum(cost: Pricing, nodes: seq<int>, i: nat, j: nat): Ext
    requires i <= j < |nodes|
    decreases j - i
  {
    if i == j then Fin(0.0) else Add(BackSum(cost, nodes, i, j - 1), cost(nodes[j], nodes[j - 1]))
  }

  ghost function Tour(cost: Pricing, nodes: seq<int>): Ext
    requires |nodes| > 0
  {
    LegSum(cost, nodes, 0, |nodes| - 1)
  }

  lemma {:induction false} LegsSplit(cost: Pricing, nodes: seq<int>, i: nat, k: nat, j: nat)
    requires i <= k <= j < |nodes|
    ensures LegSum(cost, nodes, i, j) == Add(LegSum(cost, nodes, i, k), LegSum(cost, nodes, k, j))
    decreases k - i
  {
    if i < k {
      LegsSplit(cost, nodes, i + 1, k, j);
    }
  }

  lemma {:induction false} SameLegs(cost: Pricing, nodes: seq<int>, nodes': seq<int>, i: nat, j: nat)
    requires i <= j < |nodes| == |nodes'| && forall k :: i <= k <= j ==> nodes[k] == nodes'[k]
    ensures LegSum(cost, nodes, i, j) == LegSum(cost, nodes', i, j)
    decreases j - i
  {
    if i < j {
      SameLegs(cost, nodes, nodes', i + 1, j);
    }
  }

  /** Inside a reversed stretch the legs are the old ones travelled backwards. */
  lemma {:induction false} ReversedLegs(cost: Pricing, nodes: seq<int>, nodes': seq<int>, a: nat, b: nat, i: nat)
    requires a <= i <= b < |nodes| && IsReversal(nodes, a, b, nodes')
    ensures LegSum(cost, nodes', i, b) == BackSum(cost, nodes, a, a + b - i)
    decreases b - i
  {
    if i < b {
      ReversedLegs(cost, nodes, nodes', a, b, i + 1);
      assert nodes'[i] == nodes[a + b - i] && nodes'[i + 1] == nodes[a + b - i - 1];
    }
  }

  /** The legs touched by reversing the stops `l..r`, before and after. */
  function OldSegment(cost: Pricing, nodes: seq<int>, l: nat, r: nat): Ext
    requires l <= r && r + 2 < |nodes|
  {
    LegSum(cost, nodes, l, r + 2)
  }

  function NewSegment(cost: Pricing, nodes: seq<int>, l: nat, r: nat): Ext
    requires l <= r && r + 2 < |nodes|
  {
    Add(Add(cost(nodes[l], nodes[r + 1]), cost(nodes[l + 1], nodes[r + 2])), BackSum(cost, nodes, l + 1, r + 1))
  }

  lemma ReversedSegment(cost: Pricing, nodes: seq<int>, l: nat, r: nat, nodes': seq<int>)
    requires l <= r && r + 2 < |nodes| && IsReversal(nodes, l + 1, r + 1, nodes')
    ensures LegSum(cost, nodes', l, r + 2) == NewSegment(cost, nodes, l, r)
  {
    LegsSplit(cost, nodes', l + 1, r + 1, r + 2);
    ReversedLegs(cost, nodes, nodes', l + 1, r + 1, l + 1);
    assert nodes'[l] == nodes[l] && nodes'[l + 1] == nodes[r + 1];
    assert nodes'[r + 1] == nodes[l + 1] && nodes'[r + 2] == nodes[r + 2];
    assert LegSum(cost, nodes', r + 1, r + 2)
      == Add(cost(nodes'[r + 1], nodes'[r + 2]), LegSum(cost, nodes', r + 2, r + 2));
  }

  lemma TourParts(cost: Pricing, nodes: seq<int>, l: nat, j: nat)
    requires l <= j < |nodes|
    ensures Tour(cost, nodes)
      == Add(Add(LegSum(cost, nodes, 0, l), LegSum(cost, nodes, l, j)), LegSum(cost, nodes, j, |nodes| - 1))
  {
    LegsSplit(cost, nodes, 0, l, |nodes| - 1);
    LegsSplit(cost, nodes, l, j, |nodes| - 1);
  }

  /** A reversal changes the tour cost by exactly the two segments. */
  lemma ReversedTour(cost: Pricing, nodes: seq<int>, l: nat, r: nat, nodes': seq<int>) returns (before: Ext, after: Ext)
    requires l <= r && r + 2 < |nodes| && IsReversal(nodes, l + 1, r + 1, nodes')
    ensures Tour(cost, nodes) == Add(Add(before, OldSegment(cost, nodes, l, r)), after)
    ensures Tour(cost, nodes') == Add(Add(before, NewSegment(cost, nodes, l, r)), after)
  {
    hide Tour;
    hide LegSum;
    hide BackSum;
    hide NewSegment;
    before, after := LegSum(cost, nodes, 0, l), LegSum(cost, nodes, r + 2, |nodes| - 1);
    TourParts(cost, nodes, l, r + 2);
    TourParts(cost, nodes', l, r + 2);
    SameLegs(cost, nodes, nodes', 0, l);
    SameLegs(cost, nodes, nodes', r + 2, |nodes| - 1);
    ReversedSegment(cost, nodes, l, r, nodes');
  }

  /** A move whose segment does not get cheaper cannot make the tour cheaper. */
  lemma SegmentDecides(cost: Pricing, nodes: seq<int>, l: nat, r: nat, nodes': seq<int>)
    requires l <= r && r + 2 < |nodes| && IsReversal(nodes, l + 1, r + 1, nodes')
    requires !Less(NewSegment(cost, nodes, l, r), OldSegment(cost, nodes, l, r))
    ensures !Less(Tour(cost, nodes'), Tour(cost, nodes))
  {
    var before, after := ReversedTour(cost, nodes, l, r, nodes');
  }

  // ---- Orders and the nodes they visit ----

  datatype Trip = Trip(pre: seq<nat>, stops: seq<int>, start: int, end: int)

  ghost predicate IsTrip(t: Trip) {
    |t.pre| == |t.stops|
  }

  /** `nodes` is the tour of the order. */
  ghost predicate Visits(t: Trip, order: seq<nat>, nodes: seq<int>) {
    && |nodes| == |order| + 2 && nodes[0] == t.start && nodes[|nodes| - 1] == t.end
    && forall i :: 0 <= i < |order| ==> order[i] < |t.stops| && nodes[i + 1] == t.stops[order[i]]
  }

  /** No stop of the stretch is a prerequisite of another stop in it. */
  ghost predicate Free(pre: seq<nat>, order: seq<nat>, l: nat, r: nat) {
    && r < |order|
    && forall k, j :: l <= k <= r && l <= j <= r ==> order[k] < |pre| && !Has(pre[order[k]], order[j])
  }

  lemma ReversalVisits(t: Trip, order: seq<nat>, nodes: seq<int>, l: nat, r: nat, order': seq<nat>, nodes': seq<int>)
    requires Visits(t, order, nodes) && l <= r < |order|
    requires IsReversal(order, l, r, order') && IsReversal(nodes, l + 1, r + 1, nodes')
    ensures Visits(t, order', nodes')
  {
    forall i | 0 <= i < |order'|
      ensures order'[i] < |t.stops| && nodes'[i + 1] == t.stops[order'[i]]
    {
      if l <= i <= r {
        assert order'[i] == order[l + r - i] && nodes'[i + 1] == nodes[l + 1 + (r + 1) - (i + 1)];
      }
    }
  }

  lemma ReversalDistinct(order: seq<nat>, l: nat, r: nat, order': seq<nat>)
    requires r < |order| && Distinct(order) && IsReversal(order, l, r, order')
    ensures Distinct(order')
  {}

  lemma ReversalPrefix(order: seq<nat>, l: nat, r: nat, order': seq<nat>, k: nat, x: nat)
    requires l <= r < |order| && IsReversal(order, l, r, order') && r < k <= |order|
    ensures x in order[..k] ==> x in order'[..k]
  {
    if x in order[..k] {
      var i :| 0 <= i < k && order[i] == x;
      var i' := if l <= i <= r then l + r - i else i;
      assert order'[..k][i'] == order'[i'] == x;
    }
  }

  /** Reversing a free stretch keeps every prerequisite. */
  lemma ReversalFeasible(pre: seq<nat>, order: seq<nat>, l: nat, r: nat, order': seq<nat>)
    requires KeepsPrerequisites(pre, order) && l <= r < |order| && Free(pre, order, l, r)
    requires IsReversal(order, l, r, order')
    ensures KeepsPrerequisites(pre, order')
  {
    ReversalDistinct(order, l, r, order');
    forall k, j: nat | 0 <= k < |order'| && Has(pre[order'[k]], j)
      ensures j in order'[..k]
    {
      ReversalKeeps(pre, order, l, r, order', k, j);
    }
  }

  lemma ReversalKeeps(pre: seq<nat>, order: seq<nat>, l: nat, r: nat, order': seq<nat>, k: nat, j: nat)
    requires KeepsPrerequisites(pre, order) && l <= r < |order| && Free(pre, order, l, r)
    requires IsReversal(order, l, r, order') && k < |order'| && Has(pre[order'[k]], j)
    ensures j in order'[..k]
  {
    var k0 := if l <= k <= r then l + r - k else k;
    assert order'[k] == order[k0];
    assert j in order[..k0];
    if k > r {
      ReversalPrefix(order, l, r, order', k, j);
    } else {
      var i :| 0 <= i < k0 && order[i] == j;
      assert i < l;
      assert order'[..k][i] == order[i];
    }
  }

  /** A stretch of a feasible order may be reversed exactly if no stop in it needs another one of it. */
  lemma FreeExactly(pre: seq<nat>, order: seq<nat>, l: nat, r: nat, order': seq<nat>)
    requires KeepsPrerequisites(pre, order) && l <= r < |order| && IsReversal(order, l, r, order')
    ensures KeepsPrerequisites(pre, order') <==> Free(pre, order, l, r)
  {
    if Free(pre, order, l, r) {
      ReversalFeasible(pre, order, l, r, order');
    }
    if KeepsPrerequisites(pre, order') {
      forall k, j | l <= k <= r && l <= j <= r
        ensures !Has(pre[order[k]], order[j])
      {
        NeedsBefore(pre, order, l, r, order', k, j);
      }
    }
  }

  /** A needed stop stands earlier. */
  lemma NeededEarlier(pre: seq<nat>, order: seq<nat>, k: nat, j: nat)
    requires KeepsPrerequisites(pre, order) && k < |order| && j < |order| && Has(pre[order[k]], order[j])
    ensures j < k
  {
    var i :| 0 <= i < k && order[..k][i] == order[j];
    assert i == j;
  }

  /** If a stop of the stretch needed another one, the reversed order would visit that one too late. */
  lemma NeedsBefore(pre: seq<nat>, order: seq<nat>, l: nat, r: nat, order': seq<nat>, k: nat, j: nat)
    requires KeepsPrerequisites(pre, order) && l <= r < |order| && IsReversal(order, l, r, order')
    requires KeepsPrerequisites(pre, order') && l <= k <= r && l <= j <= r
    ensures !Has(pre[order[k]], order[j])
  {
    var k': nat, j': nat := l + r - k, l + r - j;
    assert order'[k'] == order[k] && order'[j'] == order[j];
    hide IsReversal;
    hide KeepsPrerequisites;
    if Has(pre[order[k]], order[j]) {
      NeededEarlier(pre, order, k, j);
      NeededEarlier(pre, order', k', j');
    }
  }
}
