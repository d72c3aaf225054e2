/** The 2-opt local search on asymmetric costs under prerequisites (`tsp2optSearch` in cmd/tsp.go). */
module TwoOpt {
  import opened Common
  import opened Bitmask
  import opened Reversal
  import opened TripOrders
  import opened TripTours
  import opened TripPool
  import opened TripCosts

  datatype Search = Search(order: seq<nat>, nodes: seq<int>, best: Ext)

  /** The order keeps to the prerequisites, the nodes are its tour, and the cost is the tour's. */
  ghost predicate Current(t: Trip, cost: Pricing, s: Search) {
    && IsTrip(t) && |s.order| == |t.pre| && KeepsPrerequisites(t.pre, s.order)
    && Visits(t, s.order, s.nodes) && s.best == Tour(cost, s.nodes)
  }

  /** Reversing the stops `l..r` would not make the tour cheaper. */
  ghost predicate NotImproving(cost: Pricing, nodes: seq<int>, l: nat, r: nat)
    requires r + 2 < |nodes|
  {
    forall nodes' :: IsReversal(nodes, l + 1, r + 1, nodes') ==>
      |nodes'| > 0 && !Less(Tour(cost, nodes'), Tour(cost, nodes))
  }

  /** No permitted reversal of the stops `l..r` with `r` below `to` makes the tour cheaper. */
  ghost predicate RowSettled(t: Trip, cost: Pricing, s: Search, l: nat, to: nat) {
    forall r :: l < r < to && r + 2 < |s.nodes| && Free(t.pre, s.order, l, r) ==> NotImproving(cost, s.nodes, l, r)
  }

  /** No permitted reversal at all makes the tour cheaper. */
  ghost predicate LocallyOptimal(t: Trip, cost: Pricing, s: Search) {
    forall l: nat :: RowSettled(t, cost, s, l, |s.order|)
  }

  // ---- What a run does, written as functions of the tour and the costs alone ----

  /** A move takes the reversal if that makes the whole tour strictly cheaper. */
  ghost function MoveResult(cost: Pricing, s: Search, l: nat, r: nat): (m: Search)
    requires r < |s.order| && |s.nodes| == |s.order| + 2
    ensures |m.order| == |s.order| && |m.nodes| == |s.nodes|
  {
    var nodes := Reversed(s.nodes, l + 1, r + 1);
    var moved := Search(Reversed(s.order, l, r), nodes, Tour(cost, nodes));
    if Less(moved.best, s.best) then moved else s
  }

  /** The moves from stop `l` on, in growing length, as long as the stretch may be reversed. */
  ghost function RowResult(t: Trip, cost: Pricing, s: Search, l: nat, r: nat): (m: Search)
    requires |s.nodes| == |s.order| + 2
    ensures |m.order| == |s.order| && |m.nodes| == |s.nodes|
    decreases |s.order| - r
  {
    if r >= |s.order| || !Free(t.pre, s.order, l, r) then s
    else RowResult(t, cost, MoveResult(cost, s, l, r), l, r + 1)
  }

  /** The rows from `l` on. */
  ghost function PassResult(t: Trip, cost: Pricing, s: Search, l: nat): (m: Search)
    requires |s.nodes| == |s.order| + 2
    ensures |m.order| == |s.order| && |m.nodes| == |s.nodes|
    decreases |s.order| - l
  {
    if l + 1 >= |s.order| then s else PassResult(t, cost, RowResult(t, cost, s, l, l + 1), l + 1)
  }

  /** Passes until one changes nothing, at most so many. */
  ghost function RunResult(t: Trip, cost: Pricing, s: Search, passes: nat): Search
    requires |s.nodes| == |s.order| + 2
    decreases passes
  {
    if passes == 0 then s else
      var next := PassResult(t, cost, s, 0);
      if next == s then s else RunResult(t, cost, next, passes - 1)
  }

  lemma NoGainMove(t: Trip, cost: Pricing, s: Search, l: nat, r: nat)
    requires Current(t, cost, s) && |s.nodes| == |s.order| + 2 && l <= r < |s.order|
    requires NotImproving(cost, s.nodes, l, r)
    ensures MoveResult(cost, s, l, r) == s
  {
    assert IsReversal(s.nodes, l + 1, r + 1, Reversed(s.nodes, l + 1, r + 1));
  }

  lemma GainMove(cost: Pricing, s: Search, l: nat, r: nat, s': Search)
    requires |s.nodes| == |s.order| + 2 && l <= r < |s.order| && |s'.nodes| > 0
    requires IsReversal(s.order, l, r, s'.order) && IsReversal(s.nodes, l + 1, r + 1, s'.nodes)
    requires s'.best == Tour(cost, s'.nodes) && Less(s'.best, s.best)
    ensures MoveResult(cost, s, l, r) == s'
  {
    hide IsReversal;
    hide Reversed;
    hide Tour;
    OneReversal(s.order, l, r, s'.order);
    OneReversal(s.nodes, l + 1, r + 1, s'.nodes);
  }

  lemma RowEnds(t: Trip, cost: Pricing, s: Search, l: nat, r: nat)
    requires |s.nodes| == |s.order| + 2 && (r >= |s.order| || !Free(t.pre, s.order, l, r))
    ensures RowResult(t, cost, s, l, r) == s
  {}

  lemma RowStep(t: Trip, cost: Pricing, s: Search, l: nat, r: nat, s': Search)
    requires |s.nodes| == |s.order| + 2 && r < |s.order| && Free(t.pre, s.order, l, r)
    requires s' == MoveResult(cost, s, l, r)
    ensures |s'.nodes| == |s'.order| + 2 && RowResult(t, cost, s, l, r) == RowResult(t, cost, s', l, r + 1)
  {
    hide MoveResult;
  }

  lemma PassStep(t: Trip, cost: Pricing, s: Search, l: nat, s': Search)
    requires |s.nodes| == |s.order| + 2 && l + 1 < |s.order| && s' == RowResult(t, cost, s, l, l + 1)
    ensures |s'.nodes| == |s'.order| + 2 && PassResult(t, cost, s, l) == PassResult(t, cost, s', l + 1)
  {
    hide RowResult;
  }

  lemma PassEnds(t: Trip, cost: Pricing, s: Search, l: nat)
    requires |s.nodes| == |s.order| + 2 && l + 1 >= |s.order|
    ensures PassResult(t, cost, s, l) == s
  {}

  lemma RunStep(t: Trip, cost: Pricing, s: Search, passes: nat, s': Search)
    requires |s.nodes| == |s.order| + 2 && passes > 0 && s' == PassResult(t, cost, s, 0)
    ensures |s'.nodes| == |s'.order| + 2
    ensures RunResult(t, cost, s, passes) == if s' == s then s else RunResult(t, cost, s', passes - 1)
  {
    hide PassResult;
  }

  lemma RunEnds(t: Trip, cost: Pricing, s: Search)
    requires |s.nodes| == |s.order| + 2
    ensures RunResult(t, cost, s, 0) == s
  {}

  // ---- Adding up legs through the cache ----

  method CachedCost(request: Request, from: int, to: int) returns (c: Ext)
    requires request.Valid()
    modifies request
    ensures request.Valid() && (old(request.cancelled) ==> request.cancelled)
    ensures !request.cancelled ==> c == CostsOf(request.price)(from, to)
  {
    hide CacheOk;
    var answer := request.Cost(from, to);
    PriceIsCost(request.price, from, to);
    c := AsCost(answer);
  }

  /** The legs leaving `nodes[i..j]` have been asked for. */
  ghost predicate EdgesWarm(nodes: seq<int>, i: nat, j: nat, warmed: set<Leg>)
    requires j < |nodes|
  {
    forall k :: i <= k < j ==> (nodes[k], nodes[k + 1]) in warmed
  }

  /** The same travelled backwards. */
  ghost predicate BackWarm(nodes: seq<int>, i: nat, j: nat, warmed: set<Leg>)
    requires j < |nodes|
  {
    forall k :: i <= k < j ==> (nodes[k + 1], nodes[k]) in warmed
  }

  /** The two new legs of the moves `(l, r)` with `r + 1` from `i` to below `j` have been asked for. */
  ghost predicate JoinsWarm(nodes: seq<int>, l: nat, i: nat, j: nat, warmed: set<Leg>)
    requires l < i && j < |nodes|
  {
    && (forall k :: i <= k < j ==> (nodes[l], nodes[k]) in warmed)
    && (forall k :: i < k <= j ==> (nodes[l + 1], nodes[k]) in warmed)
  }

  /** All legs that the move `(l, r)` looks at have been asked for. */
  ghost predicate Warm(nodes: seq<int>, l: nat, r: nat, warmed: set<Leg>)
    requires l <= r && r + 2 < |nodes|
  {
    && EdgesWarm(nodes, l, r + 2, warmed) && JoinsWarm(nodes, l, r + 1, r + 2, warmed)
    && BackWarm(nodes, l + 1, r + 1, warmed)
  }

  lemma MoveWarm(nodes: seq<int>, l: nat, first: nat, last: nat, r: nat, edges: set<Leg>, joins: set<Leg>,
      all: set<Leg>)
    requires l < first <= r <= last && last + 2 < |nodes| && edges <= joins <= all
    requires EdgesWarm(nodes, l, last + 2, edges) && JoinsWarm(nodes, l, first + 1, last + 2, joins)
    requires BackWarm(nodes, l + 1, last + 1, all)
    ensures Warm(nodes, l, r, all)
  {}

  method AddLegs(request: Request, nodes: seq<int>, i: nat, j: nat) returns (total: Ext)
    requires request.Valid() && i <= j < |nodes|
    modifies request
    ensures request.Valid() && (old(request.cancelled) ==> request.cancelled)
    ensures !request.cancelled ==> total == LegSum(CostsOf(request.price), nodes, i, j)
  {
    hide CostsOf;
    hide CacheOk;
    ghost var cost := CostsOf(request.price);
    total := Fin(0.0);
    for k := i to j
      invariant request.Valid() && (old(request.cancelled) ==> request.cancelled)
      invariant !request.cancelled ==> total == LegSum(cost, nodes, i, k)
    {
      LegsSplit(cost, nodes, i, k, k + 1);
      assert LegSum(cost, nodes, k, k + 1) == Add(cost(nodes[k], nodes[k + 1]), LegSum(cost, nodes, k + 1, k + 1));
      var c := CachedCost(request, nodes[k], nodes[k + 1]);
      total := Add(total, c);
    }
  }

  /** The cost of the tour; stops adding at the first missing leg. */
  method TourCost(request: Request, nodes: seq<int>) returns (total: Ext)
    requires request.Valid() && |nodes| > 0
    modifies request
    ensures request.Valid() && (old(request.cancelled) ==> request.cancelled)
    ensures !request.cancelled ==> total == Tour(CostsOf(request.price), nodes)
  {
    hide CostsOf;
    hide CacheOk;
    ghost var cost := CostsOf(request.price);
    var end := |nodes| - 1;
    total := Fin(0.0);
    var k := 0;
    while k < end
      invariant k <= end && request.Valid() && (old(request.cancelled) ==> request.cancelled)
      invariant !request.cancelled ==> total == LegSum(cost, nodes, 0, k)
    {
      LegsSplit(cost, nodes, 0, k, k + 1);
      assert LegSum(cost, nodes, k, k + 1) == Add(cost(nodes[k], nodes[k + 1]), LegSum(cost, nodes, k + 1, k + 1));
      var c := CachedCost(request, nodes[k], nodes[k + 1]);
      total := Add(total, c);
      k := k + 1;
      if total.Inf? {
        LegsSplit(cost, nodes, 0, k, end);
        return;
      }
    }
  }

  method AddBackLegs(request: Request, nodes: seq<int>, first: Ext, i: nat, j: nat) returns (total: Ext)
    requires request.Valid() && i <= j < |nodes|
    modifies request
    ensures request.Valid() && (old(request.cancelled) ==> request.cancelled)
    ensures !request.cancelled ==> total == Add(first, BackSum(CostsOf(request.price), nodes, i, j))
  {
    hide CostsOf;
    hide CacheOk;
    ghost var cost := CostsOf(request.price);
    total := first;
    for k := i to j
      invariant request.Valid() && (old(request.cancelled) ==> request.cancelled)
      invariant !request.cancelled ==> total == Add(first, BackSum(cost, nodes, i, k))
    {
      var c := CachedCost(request, nodes[k + 1], nodes[k]);
      total := Add(total, c);
    }
  }

  /** The legs a move replaces and the legs it brings in. */
  method Segments(request: Request, nodes: seq<int>, l: nat, r: nat) returns (before: Ext, after: Ext)
    requires request.Valid() && l <= r && r + 2 < |nodes|
    modifies request
    ensures request.Valid() && (old(request.cancelled) ==> request.cancelled)
    ensures !request.cancelled ==>
      && before == OldSegment(CostsOf(request.price), nodes, l, r)
      && after == NewSegment(CostsOf(request.price), nodes, l, r)
  {
    hide *;
    before := AddLegs(request, nodes, l, r + 2);
    var left := CachedCost(request, nodes[l], nodes[r + 1]);
    var right := CachedCost(request, nodes[l + 1], nodes[r + 2]);
    after := AddBackLegs(request, nodes, Add(left, right), l + 1, r + 1);
    SegmentsAre(CostsOf(request.price), nodes, l, r);
  }

  lemma ReversedTwice<T>(s: seq<T>, l: nat, r: nat, t: seq<T>, u: seq<T>)
    requires l <= r < |s| && IsReversal(s, l, r, t) && IsReversal(t, l, r, u)
    ensures u == s
  {}

  lemma MoveKeepsCurrent(t: Trip, cost: Pricing, s: Search, l: nat, r: nat, s': Search)
    requires Current(t, cost, s) && l < r < |s.order| && Free(t.pre, s.order, l, r)
    requires |s.nodes| == |s.order| + 2
    requires IsReversal(s.order, l, r, s'.order) && IsReversal(s.nodes, l + 1, r + 1, s'.nodes)
    requires |s'.nodes| > 0 && s'.best == Tour(cost, s'.nodes)
    ensures Current(t, cost, s')
  {
    ReversalVisits(t, s.order, s.nodes, l, r, s'.order, s'.nodes);
    ReversalFeasible(t.pre, s.order, l, r, s'.order);
  }

  lemma NoGainSegment(cost: Pricing, nodes: seq<int>, l: nat, r: nat)
    requires l <= r && r + 2 < |nodes| && !Less(NewSegment(cost, nodes, l, r), OldSegment(cost, nodes, l, r))
    ensures NotImproving(cost, nodes, l, r)
  {
    forall nodes' | IsReversal(nodes, l + 1, r + 1, nodes')
      ensures |nodes'| > 0 && !Less(Tour(cost, nodes'), Tour(cost, nodes))
    {
      SegmentDecides(cost, nodes, l, r, nodes');
    }
  }

  lemma NoGainTour(cost: Pricing, nodes: seq<int>, l: nat, r: nat, nodes': seq<int>)
    requires l <= r && r + 2 < |nodes| && IsReversal(nodes, l + 1, r + 1, nodes')
    requires |nodes'| > 0 && !Less(Tour(cost, nodes'), Tour(cost, nodes))
    ensures NotImproving(cost, nodes, l, r)
  {
    forall u | IsReversal(nodes, l + 1, r + 1, u)
      ensures |u| > 0 && !Less(Tour(cost, u), Tour(cost, nodes))
    {
      OneReversal(nodes, l + 1, r + 1, nodes');
      OneReversal(nodes, l + 1, r + 1, u);
    }
  }

  lemma TourRead(t: Trip, cost: Pricing, s: Search)
    requires Current(t, cost, s)
    ensures |s.nodes| == |s.order| + 2 == |t.pre| + 2 && s.best == Tour(cost, s.nodes)
  {}

  /** The tour being improved: the order and its nodes change in place, together. */
  class TourSearch {
    const order: array<nat>
    const nodes: array<int>
    const request: Request
    const prefetch: bool
    var best: Ext
    /** The legs that prefetching has asked for. */
    var warmed: set<Leg>

    ghost function Now(): (s: Search)
      requires nodes.Length > 0
      reads order, nodes
      ensures s == Search(order[..], nodes[..], Tour(CostsOf(request.price), nodes[..]))
    {
      Search(order[..], nodes[..], Tour(CostsOf(request.price), nodes[..]))
    }

    /** The recorded cost is that of the tour, unless the request was cancelled. */
    ghost predicate Valid()
      reads this, nodes, request
    {
      && (order as object) != (nodes as object) && nodes.Length == order.Length + 2 && request.Valid()
      && (request.cancelled || best == Tour(CostsOf(request.price), nodes[..]))
    }

    constructor (order: array<nat>, nodes: array<int>, request: Request, prefetch: bool, best: Ext)
      ensures this.order == order && this.nodes == nodes && this.request == request && this.best == best
    {
      this.order, this.nodes, this.request, this.prefetch, this.best := order, nodes, request, prefetch, best;
      this.warmed := {};
    }

    /** Swaps from both ends inwards, in the order and in the nodes at once. */
    method Reverse(l: nat, r: nat)
      requires (order as object) != (nodes as object) && l <= r < order.Length && nodes.Length == order.Length + 2
      modifies order, nodes
      ensures IsReversal(old(order[..]), l, r, order[..]) && IsReversal(old(nodes[..]), l + 1, r + 1, nodes[..])
    {
      hide IsReversal;
      hide Swapped;
      ghost var order0, nodes0 := order[..], nodes[..];
      var i: nat, j: int := l, r;
      NothingSwapped(order0, l, r);
      NothingSwapped(nodes0, l + 1, r + 1);
      while i < j
        invariant j < order.Length
        invariant Swapped(order0, l, r, i, j, order[..]) && Swapped(nodes0, l + 1, r + 1, i + 1, j + 1, nodes[..])
      {
        ghost var (o, n) := (order[..], nodes[..]);
        SwapOne(order0, l, r, i, j, o);
        SwapOne(nodes0, l + 1, r + 1, i + 1, j + 1, n);
        order[i], order[j] := order[j], order[i];
        nodes[i + 1], nodes[j + 1] := nodes[j + 1], nodes[i + 1];
        assert order[..] == o[i := o[j]][j := o[i]];
        assert nodes[..] == n[i + 1 := n[j + 1]][j + 1 := n[i + 1]];
        i, j := i + 1, j - 1;
      }
      AllSwapped(order0, l, r, i, j, order[..]);
      AllSwapped(nodes0, l + 1, r + 1, i + 1, j + 1, nodes[..]);
    }

    /** Asks for a leg unless it was asked for before. */
    method Ask(pending: seq<Leg>, from: int, to: int) returns (pending': seq<Leg>)
      modifies this`warmed
      ensures (from, to) in warmed && warmed == old(warmed) + {(from, to)}
      ensures pending' == if (from, to) in old(warmed) then pending else pending + [(from, to)]
    {
      pending' := pending;
      if (from, to) !in warmed {
        warmed, pending' := warmed + {(from, to)}, pending + [(from, to)];
      }
    }

    method AskEdges(pending: seq<Leg>, i: nat, j: nat) returns (pending': seq<Leg>)
      requires i <= j < nodes.Length
      modifies this`warmed
      ensures old(warmed) <= warmed && EdgesWarm(nodes[..], i, j, warmed)
    {
      pending' := pending;
      for k := i to j
        invariant old(warmed) <= warmed && EdgesWarm(nodes[..], i, k, warmed)
      {
        pending' := Ask(pending', nodes[k], nodes[k + 1]);
      }
    }

    method AskJoins(pending: seq<Leg>, l: nat, first: nat, last: nat) returns (pending': seq<Leg>)
      requires l < first <= last && last + 2 < nodes.Length
      modifies this`warmed
      ensures old(warmed) <= warmed && JoinsWarm(nodes[..], l, first + 1, last + 2, warmed)
    {
      pending' := pending;
      for r := first to last + 1
        invariant old(warmed) <= warmed && JoinsWarm(nodes[..], l, first + 1, r + 1, warmed)
      {
        pending' := Ask(pending', nodes[l], nodes[r + 1]);
        pending' := Ask(pending', nodes[l + 1], nodes[r + 2]);
      }
    }

    method AskBack(pending: seq<Leg>, i: nat, j: nat) returns (pending': seq<Leg>)
      requires i <= j < nodes.Length
      modifies this`warmed
      ensures old(warmed) <= warmed && BackWarm(nodes[..], i, j, warmed)
    {
      pending' := pending;
      for k := i to j
        invariant old(warmed) <= warmed && BackWarm(nodes[..], i, k, warmed)
      {
        pending' := Ask(pending', nodes[k + 1], nodes[k]);
      }
    }

    /** The last stop up to which the stretch from `l` may be reversed, seen from `first` on. */
    method LastFree(t: Trip, l: nat, first: nat) returns (last: nat)
      requires nodes.Length > 0 && Current(t, CostsOf(request.price), Now()) && l < first <= order.Length
      requires Free(t.pre, order[..], l, first - 1)
      ensures first - 1 <= last < order.Length
      ensures forall q :: last < q < order.Length ==> !Free(t.pre, order[..], l, q)
    {
      hide *;
      ghost var cost, s := CostsOf(request.price), Now();
      CurrentLengths(t, cost, s);
      SegmentStarts(s.order, l);
      var segment := With(0, order[l]);
      for k := l + 1 to first
        invariant IsSegment(s.order, l, k, segment)
      {
        SegmentGrows(s.order, l, k, segment);
        segment := With(segment, order[k]);
      }
      last := first - 1;
      for r := first to order.Length
        invariant last == r - 1 && Free(t.pre, s.order, l, last) && IsSegment(s.order, l, r, segment)
      {
        StretchDecided(t, cost, s, l, r, segment);
        if Meets(t.pre[order[r]], segment) {
          return;
        }
        SegmentGrows(s.order, l, r, segment);
        segment, last := With(segment, order[r]), r;
      }
    }

    /** Prices ahead, by the pool, every leg that the moves of this row from `first` on will need. */
    method WarmRow(t: Trip, l: nat, first: nat)
      requires Valid() && Current(t, CostsOf(request.price), Now()) && l < first <= order.Length
      requires Free(t.pre, order[..], l, first - 1)
      modifies this`warmed, request
      ensures Valid() && (old(request.cancelled) ==> request.cancelled)
      ensures old(warmed) <= warmed
      ensures prefetch && request.workers > 1 ==>
        forall r :: first <= r < order.Length && Free(t.pre, order[..], l, r) ==> Warm(nodes[..], l, r, warmed)
    {
      hide Current;
      hide Tour;
      hide CostsOf;
      hide CacheOk;
      hide Free;
      hide Warm;
      hide EdgesWarm;
      hide JoinsWarm;
      hide BackWarm;
      if !prefetch || request.workers <= 1 {
        return;
      }
      var last := LastFree(t, l, first);
      if last < first {
        return;
      }
      var pending: seq<Leg> := [];
      pending := AskEdges(pending, l, last + 2);
      ghost var edges := warmed;
      pending := AskJoins(pending, l, first, last);
      ghost var joins := warmed;
      pending := AskBack(pending, l + 1, last + 1);
      forall r | first <= r <= last
        ensures Warm(nodes[..], l, r, warmed)
      {
        MoveWarm(nodes[..], l, first, last, r, edges, joins, warmed);
      }
      if |pending| >= 2 {
        var answers := request.All(pending);
      }
    }

    /** Tries one reversal: keeps it only if the whole tour gets strictly cheaper, otherwise undoes it. */
    method TryMove(t: Trip, l: nat, r: nat) returns (moved: bool)
      requires Valid() && Current(t, CostsOf(request.price), Now()) && l < r < order.Length
      requires Free(t.pre, order[..], l, r)
      modifies this`best, order, nodes, request
      ensures Valid() && Current(t, CostsOf(request.price), Now()) && (old(request.cancelled) ==> request.cancelled)
      ensures moved ==> Less(Now().best, old(Now().best)) && IsReversal(old(order[..]), l, r, order[..])
      ensures !moved ==> Now() == old(Now())
      ensures !request.cancelled ==> Now() == MoveResult(CostsOf(request.price), old(Now()), l, r)
      ensures !request.cancelled && !moved ==> NotImproving(CostsOf(request.price), nodes[..], l, r)
    {
      hide CacheOk;
      hide CostsOf;
      hide Current;
      hide Tour;
      hide Less;
      hide IsReversal;
      hide Free;
      hide NotImproving;
      hide MoveResult;
      hide OldSegment;
      hide NewSegment;
      ghost var cost, s, order0, nodes0 := CostsOf(request.price), Now(), order[..], nodes[..];
      TourRead(t, cost, s);
      var before, after := Segments(request, nodes[..], l, r);
      if !Less(after, before) {
        if !request.cancelled {
          NoGainSegment(cost, nodes0, l, r);
          NoGainMove(t, cost, s, l, r);
        }
        return false;
      }
      Reverse(l, r);
      ghost var order1, nodes1 := order[..], nodes[..];
      var candidate := TourCost(request, nodes[..]);
      moved := false;
      if Less(candidate, best) {
        var gone := request.Err();
        moved := !gone;
      }
      if moved {
        best := candidate;
        MoveKeepsCurrent(t, cost, s, l, r, Now());
        GainMove(cost, s, l, r, Now());
      } else {
        if !request.cancelled {
          NoGainTour(cost, nodes0, l, r, nodes1);
          NoGainMove(t, cost, s, l, r);
        }
        Reverse(l, r);
        ReversedTwice(order0, l, r, order1, order[..]);
        ReversedTwice(nodes0, l + 1, r + 1, nodes1, nodes[..]);
      }
    }

    /** The moves that start at stop `l`, in growing length, each tried on the tour as it then is; a
        cancelled request stops them. */
    method ImproveRow(t: Trip, l: nat) returns (improved: bool, stopped: bool)
      requires Valid() && Current(t, CostsOf(request.price), Now()) && l + 1 < order.Length
      modifies this`best, this`warmed, order, nodes, request
      ensures Valid() && Current(t, CostsOf(request.price), Now()) && (old(request.cancelled) ==> request.cancelled)
      ensures stopped ==> request.cancelled
      ensures improved ==> Less(Now().best, old(Now().best))
      ensures !improved ==> Now() == old(Now())
      ensures !request.cancelled ==> Now() == RowResult(t, CostsOf(request.price), old(Now()), l, l + 1)
      ensures !request.cancelled && !improved ==> RowSettled(t, CostsOf(request.price), Now(), l, order.Length)
    {
      hide CacheOk;
      hide CostsOf;
      hide Current;
      hide Tour;
      hide Less;
      hide IsReversal;
      hide Free;
      hide NotImproving;
      hide MoveResult;
      hide RowResult;
      hide RowSettled;
      hide IsSegment;
      hide Meets;
      hide With;
      ghost var cost := CostsOf(request.price);
      var n := order.Length;
      improved, stopped := false, false;
      SingleFree(t, cost, Now(), l);
      WarmRow(t, l, l + 1);
      var segment := With(0, order[l]);
      SegmentStarts(order[..], l);
      RowStarts(t, cost, Now(), l);
      var r := l + 1;
      while r < n
        invariant l < r <= n && Valid() && (old(request.cancelled) ==> request.cancelled)
        invariant Current(t, cost, Now()) && Free(t.pre, order[..], l, r - 1) && IsSegment(order[..], l, r, segment)
        invariant improved ==> Less(Now().best, old(Now().best))
        invariant !improved ==> Now() == old(Now())
        invariant !request.cancelled ==> RowResult(t, cost, old(Now()), l, l + 1) == RowResult(t, cost, Now(), l, r)
        invariant !request.cancelled && !improved ==> RowSettled(t, cost, Now(), l, r)
        invariant !stopped
      {
        ghost var s := Now();
        var gone := request.Err();
        if gone {
          stopped := true;
          return;
        }
        StretchDecided(t, cost, s, l, r, segment);
        CurrentLengths(t, cost, s);
        if Meets(t.pre[order[r]], segment) {
          RowEnds(t, cost, s, l, r);
          if !improved {
            RowStuck(t, cost, s, l, r);
          }
          return;
        }
        SegmentGrows(order[..], l, r, segment);
        segment := With(segment, order[r]);
        var moved := TryMove(t, l, r);
        if !request.cancelled {
          RowStep(t, cost, s, l, r, Now());
        }
        if moved {
          LessChains(Now().best, s.best, old(Now().best), improved);
          SegmentReversed(s.order, l, r, order[..], segment);
          FreeReversed(t.pre, s.order, l, r, order[..]);
          improved := true;
          WarmRow(t, l, r + 1);
        } else if !improved && !request.cancelled {
          RowGoesOn(t, cost, s, l, r);
        }
        r := r + 1;
      }
      RowEnds(t, cost, Now(), l, r);
    }

    /** One pass over all rows. */
    method ImprovePass(t: Trip) returns (improved: bool, stopped: bool)
      requires Valid() && Current(t, CostsOf(request.price), Now()) && order.Length > 0
      modifies this`best, this`warmed, order, nodes, request
      ensures Valid() && Current(t, CostsOf(request.price), Now()) && (old(request.cancelled) ==> request.cancelled)
      ensures stopped ==> request.cancelled
      ensures improved ==> Less(Now().best, old(Now().best))
      ensures !improved ==> Now() == old(Now())
      ensures !request.cancelled ==> Now() == PassResult(t, CostsOf(request.price), old(Now()), 0)
      ensures !request.cancelled && !improved ==> LocallyOptimal(t, CostsOf(request.price), Now())
    {
      hide CacheOk;
      hide CostsOf;
      hide Current;
      hide Tour;
      hide Less;
      hide RowResult;
      hide PassResult;
      hide RowSettled;
      hide RowsSettled;
      hide LocallyOptimal;
      ghost var cost := CostsOf(request.price);
      improved, stopped := false, false;
      NoRows(t, cost, Now());
      for l := 0 to order.Length - 1
        invariant Valid() && Current(t, cost, Now()) && (old(request.cancelled) ==> request.cancelled)
        invariant improved ==> Less(Now().best, old(Now().best))
        invariant !improved ==> Now() == old(Now())
        invariant !request.cancelled ==> PassResult(t, cost, old(Now()), 0) == PassResult(t, cost, Now(), l)
        invariant !request.cancelled && !improved ==> RowsSettled(t, cost, Now(), l)
      {
        ghost var s := Now();
        CurrentLengths(t, cost, s);
        var better, gone := ImproveRow(t, l);
        if better {
          LessChains(Now().best, s.best, old(Now().best), improved);
        }
        if !request.cancelled {
          PassStep(t, cost, s, l, Now());
          if !better && !improved {
            NextRow(t, cost, s, l);
          }
        }
        improved := improved || better;
        if gone {
          stopped := true;
          return;
        }
      }
      CurrentLengths(t, cost, Now());
      PassEnds(t, cost, Now(), order.Length - 1);
      if !improved && !request.cancelled {
        LastRows(t, cost, Now());
      }
    }
  }

  lemma SegmentsAre(cost: Pricing, nodes: seq<int>, l: nat, r: nat)
    requires l <= r && r + 2 < |nodes|
    ensures OldSegment(cost, nodes, l, r) == LegSum(cost, nodes, l, r + 2)
    ensures NewSegment(cost, nodes, l, r) ==
      Add(Add(cost(nodes[l], nodes[r + 1]), cost(nodes[l + 1], nodes[r + 2])), BackSum(cost, nodes, l + 1, r + 1))
  {}

  // ---- One row of moves ----

  /** The mask holds exactly the stops `l` to `r - 1`. */
  ghost predicate IsSegment(order: seq<nat>, l: nat, r: nat, segment: nat)
    requires l <= r <= |order|
  {
    forall x: nat :: Has(segment, x) <==> x in order[l..r]
  }

  lemma SegmentStarts(order: seq<nat>, l: nat)
    requires l < |order|
    ensures IsSegment(order, l, l + 1, With(0, order[l]))
  {
    forall x: nat
      ensures Has(With(0, order[l]), x) <==> x in order[l..l + 1]
    {
      HasWith(0, order[l], x);
      ZeroEmpty(x);
    }
  }

  lemma SegmentGrows(order: seq<nat>, l: nat, r: nat, segment: nat)
    requires l <= r < |order| && IsSegment(order, l, r, segment)
    ensures IsSegment(order, l, r + 1, With(segment, order[r]))
  {
    assert order[l..r + 1] == order[l..r] + [order[r]];
    forall x: nat
      ensures Has(With(segment, order[r]), x) <==> x in order[l..r + 1]
    {
      HasWith(segment, order[r], x);
    }
  }

  lemma SegmentReversed(order: seq<nat>, l: nat, r: nat, order': seq<nat>, segment: nat)
    requires l <= r < |order| && IsSegment(order, l, r + 1, segment) && IsReversal(order, l, r, order')
    ensures IsSegment(order', l, r + 1, segment)
  {
    var a, b := order[l..r + 1], order'[l..r + 1];
    forall x: nat
      ensures x in a <==> x in b
    {
      if x in a {
        var i :| 0 <= i < |a| && a[i] == x;
        assert b[r - l - i] == order'[r - i] == x;
      }
      if x in b {
        var i :| 0 <= i < |b| && b[i] == x;
        assert a[r - l - i] == order[r - i] == x;
      }
    }
  }

  lemma EarlierIndex(pre: seq<nat>, o: seq<nat>, k: nat, x: nat) returns (i: nat)
    requires KeepsPrerequisites(pre, o) && k < |o| && Has(pre[o[k]], x)
    ensures i < k && o[i] == x
  {
    i :| 0 <= i < k && o[..k][i] == x;
  }

  /** No stop needs itself or a later one. */
  lemma NeedsNoLater(pre: seq<nat>, o: seq<nat>, k: nat, j: nat)
    requires KeepsPrerequisites(pre, o) && k <= j < |o|
    ensures !Has(pre[o[k]], o[j])
  {
    if Has(pre[o[k]], o[j]) {
      var i := EarlierIndex(pre, o, k, o[j]);
    }
  }

  lemma SingleFree(t: Trip, cost: Pricing, s: Search, l: nat)
    requires Current(t, cost, s) && l < |s.order|
    ensures Free(t.pre, s.order, l, l)
  {
    NeedsNoLater(t.pre, s.order, l, l);
  }

  /** The prerequisite test on the mask decides whether the longer stretch may be reversed. */
  lemma StretchDecided(t: Trip, cost: Pricing, s: Search, l: nat, r: nat, segment: nat)
    requires Current(t, cost, s) && l < r < |s.order| && Free(t.pre, s.order, l, r - 1)
    requires IsSegment(s.order, l, r, segment)
    ensures s.order[r] < |t.pre|
    ensures !Meets(t.pre[s.order[r]], segment) ==> Free(t.pre, s.order, l, r)
    ensures Meets(t.pre[s.order[r]], segment) ==> forall q :: r <= q < |s.order| ==> !Free(t.pre, s.order, l, q)
  {
    var o, pre := s.order, t.pre;
    MeetsCommon(pre[o[r]], segment);
    if Meets(pre[o[r]], segment) {
      var x: nat :| Has(pre[o[r]], x) && Has(segment, x);
      var i :| 0 <= i < r - l && o[l..r][i] == x;
      assert o[l + i] == x;
    } else {
      forall k, j | l <= k <= r && l <= j <= r
        ensures !Has(pre[o[k]], o[j])
      {
        LongerFree(pre, o, l, r, segment, k, j);
      }
    }
  }

  lemma LongerFree(pre: seq<nat>, o: seq<nat>, l: nat, r: nat, segment: nat, k: nat, j: nat)
    requires KeepsPrerequisites(pre, o) && l < r < |o| && Free(pre, o, l, r - 1) && IsSegment(o, l, r, segment)
    requires forall x: nat :: !(Has(pre[o[r]], x) && Has(segment, x))
    requires l <= k <= r && l <= j <= r
    ensures !Has(pre[o[k]], o[j])
  {
    if k == r && j < r {
      assert o[l..r][j - l] == o[j];
    } else if j == r {
      NeedsNoLater(pre, o, k, r);
    }
  }

  lemma FreeReversed(pre: seq<nat>, order: seq<nat>, l: nat, r: nat, order': seq<nat>)
    requires l <= r < |order| && Free(pre, order, l, r) && IsReversal(order, l, r, order')
    ensures Free(pre, order', l, r)
  {
    forall k, j | l <= k <= r && l <= j <= r
      ensures order'[k] < |pre| && !Has(pre[order'[k]], order'[j])
    {
      assert order'[k] == order[l + r - k] && order'[j] == order[l + r - j];
    }
  }

  lemma RowGoesOn(t: Trip, cost: Pricing, s: Search, l: nat, r: nat)
    requires RowSettled(t, cost, s, l, r) && (l < r && r + 2 < |s.nodes| ==> NotImproving(cost, s.nodes, l, r))
    ensures RowSettled(t, cost, s, l, r + 1)
  {}

  lemma RowStuck(t: Trip, cost: Pricing, s: Search, l: nat, r: nat)
    requires RowSettled(t, cost, s, l, r) && forall q :: r <= q < |s.order| ==> !Free(t.pre, s.order, l, q)
    ensures RowSettled(t, cost, s, l, |s.order|)
  {}

  lemma RowStarts(t: Trip, cost: Pricing, s: Search, l: nat)
    ensures RowSettled(t, cost, s, l, l + 1)
  {}

  lemma LessChains(a: Ext, b: Ext, c: Ext, strict: bool)
    requires Less(a, b) && (strict ==> Less(b, c)) && (!strict ==> b == c)
    ensures Less(a, c)
  {}

  lemma CurrentLengths(t: Trip, cost: Pricing, s: Search)
    requires Current(t, cost, s)
    ensures |s.order| == |t.pre| == |t.stops| && |s.nodes| == |s.order| + 2
    ensures forall k :: 0 <= k < |s.order| ==> s.order[k] < |t.pre|
  {}

  ghost predicate RowsSettled(t: Trip, cost: Pricing, s: Search, to: nat) {
    forall l: nat :: l < to ==> RowSettled(t, cost, s, l, |s.order|)
  }

  lemma NoRows(t: Trip, cost: Pricing, s: Search)
    ensures RowsSettled(t, cost, s, 0)
  {}

  lemma NextRow(t: Trip, cost: Pricing, s: Search, l: nat)
    requires RowsSettled(t, cost, s, l) && RowSettled(t, cost, s, l, |s.order|)
    ensures RowsSettled(t, cost, s, l + 1)
  {
    hide RowSettled;
  }

  lemma LastRows(t: Trip, cost: Pricing, s: Search)
    requires |s.order| > 0 && RowsSettled(t, cost, s, |s.order| - 1)
    ensures LocallyOptimal(t, cost, s)
  {
    forall l: nat
      ensures RowSettled(t, cost, s, l, |s.order|)
    {}
  }

  /** A locally optimal tour cannot be made cheaper by any reversal that leaves a permitted order. */
  lemma NoReversalHelps(t: Trip, cost: Pricing, s: Search, l: nat, r: nat, order: seq<nat>, nodes: seq<int>)
    requires Current(t, cost, s) && LocallyOptimal(t, cost, s) && l < r < |s.order|
    requires IsReversal(s.order, l, r, order) && KeepsPrerequisites(t.pre, order) && Visits(t, order, nodes)
    ensures |nodes| > 0 && !Less(Tour(cost, nodes), s.best)
  {
    hide Tour;
    CurrentLengths(t, cost, s);
    FreeExactly(t.pre, s.order, l, r, order);
    hide Free;
    assert RowSettled(t, cost, s, l, |s.order|);
    var reversed := Reversed(s.nodes, l + 1, r + 1);
    assert NotImproving(cost, s.nodes, l, r);
    ReversalVisits(t, s.order, s.nodes, l, r, order, reversed);
    SameVisits(t, order, nodes, reversed);
  }

  /** The passes made at most. */
  const MAX_PASSES: nat := 64

  /** The nodes of a tour, ends included. */
  method TourNodes(t: Trip, order: array<nat>) returns (nodes: array<int>)
    requires IsTrip(t) && forall k :: 0 <= k < order.Length ==> order[k] < |t.stops|
    ensures fresh(nodes) && Visits(t, order[..], nodes[..])
  {
    nodes := new int[order.Length + 2](_ => 0);
    nodes[0] := t.start;
    for i := 0 to order.Length
      invariant nodes[0] == t.start && forall k :: 0 <= k < i ==> nodes[k + 1] == t.stops[order[k]]
    {
      nodes[i + 1] := t.stops[order[i]];
    }
    nodes[order.Length + 1] := t.end;
  }

  lemma OrderInRange(t: Trip, order: seq<nat>)
    requires IsTrip(t) && KeepsPrerequisites(t.pre, order)
    ensures forall k :: 0 <= k < |order| ==> order[k] < |t.stops|
  {}

  lemma StartsCurrent(t: Trip, cost: Pricing, s: Search)
    requires IsTrip(t) && |s.order| == |t.pre| && KeepsPrerequisites(t.pre, s.order)
    requires Visits(t, s.order, s.nodes) && |s.nodes| > 0 && s.best == Tour(cost, s.nodes)
    ensures Current(t, cost, s)
  {}

  lemma VisitsSome(t: Trip, order: seq<nat>, nodes: seq<int>)
    requires Visits(t, order, nodes)
    ensures |nodes| > 0
  {}

  /** What 2-opt makes of a tour; shorter ones are left alone. */
  ghost function Improved(t: Trip, cost: Pricing, s: Search): Search
    requires |s.nodes| == |s.order| + 2
  {
    if |s.order| < 4 then s else RunResult(t, cost, s, MAX_PASSES)
  }

  /** Improves a tour in place by reversals only: the result keeps every prerequisite and is never dearer, even
      if the request is cancelled on the way. Otherwise it depends on the tour and the prices alone, not on what
      the cache held, on prefetching or on the workers' turns; and unless the passes run out, no permitted
      reversal would make it cheaper. */
  method Tsp2opt(t: Trip, request: Request, order: array<nat>, prefetch: bool)
    returns (ghost s: Search, ghost first: Search, ghost settled: bool)
    requires IsTrip(t) && order.Length == |t.pre| && KeepsPrerequisites(t.pre, order[..]) && request.Valid()
    modifies order, request
    ensures request.Valid() && (old(request.cancelled) ==> request.cancelled)
    ensures order[..] == s.order && Current(t, CostsOf(request.price), s) && IsFullOrder(t.pre, order[..])
    ensures old(order[..]) == first.order && Current(t, CostsOf(request.price), first) && !Less(first.best, s.best)
    ensures order.Length < 4 ==> order[..] == old(order[..]) && request.cancelled == old(request.cancelled)
    ensures |first.nodes| == |first.order| + 2
    ensures !request.cancelled ==> s == Improved(t, CostsOf(request.price), first)
    ensures settled && order.Length >= 4 ==> LocallyOptimal(t, CostsOf(request.price), s)
    ensures !settled ==> request.cancelled || Less(s.best, first.best)
  {
    hide *;
    ghost var cost := CostsOf(request.price);
    OrderInRange(t, order[..]);
    var nodes := TourNodes(t, order);
    VisitsSome(t, order[..], nodes[..]);
    first, settled := Search(order[..], nodes[..], Tour(cost, nodes[..])), true;
    StartsCurrent(t, cost, first);
    CurrentLengths(t, cost, first);
    s := first;
    if order.Length < 4 {
      ImprovedRun(t, cost, first);
      NeverDearer(first.best, s.best);
      CurrentIsFull(t, cost, s);
      return;
    }
    var best := TourCost(request, nodes[..]);
    var tour := new TourSearch(order, nodes, request, prefetch, best);
    AreApart(tour);
    ImprovedRun(t, cost, first);
    SomePasses();
    settled := false;
    var pass := 0;
    while pass < MAX_PASSES
      invariant tour.order == order && tour.nodes == nodes && tour.request == request && fresh(tour)
      invariant pass <= MAX_PASSES && tour.Valid() && Current(t, cost, tour.Now())
      invariant old(request.cancelled) ==> request.cancelled
      invariant pass > 0 ==> Less(tour.Now().best, first.best)
      invariant pass == 0 ==> tour.Now() == first
      invariant !request.cancelled ==> Improved(t, cost, first) == RunResult(t, cost, tour.Now(), MAX_PASSES - pass)
      invariant !settled
    {
      ghost var before := tour.Now();
      CurrentLengths(t, cost, before);
      var improved, stopped := tour.ImprovePass(t);
      if !request.cancelled {
        RunStep(t, cost, before, MAX_PASSES - pass, tour.Now());
      }
      if stopped || !improved {
        settled := !request.cancelled;
        if improved {
          LessChains(tour.Now().best, before.best, first.best, pass > 0);
        }
        break;
      }
      LessChains(tour.Now().best, before.best, first.best, pass > 0);
      NotItself(tour.Now(), before);
      pass := pass + 1;
    }
    RequestIsValid(tour);
    s := tour.Now();
    if pass == MAX_PASSES {
      CurrentLengths(t, cost, s);
      RunEnds(t, cost, s);
    }
    NeverDearer(first.best, s.best);
    CurrentIsFull(t, cost, s);
  }

  lemma SameVisits(t: Trip, order: seq<nat>, a: seq<int>, b: seq<int>)
    requires Visits(t, order, a) && Visits(t, order, b)
    ensures a == b
  {
    forall i | 0 <= i < |a|
      ensures a[i] == b[i]
    {
      if 0 < i < |a| - 1 {
        assert a[i - 1 + 1] == t.stops[order[i - 1]] == b[i - 1 + 1];
      }
    }
  }

  /** The tour of an order is unique. */
  lemma OneSearch(t: Trip, cost: Pricing, a: Search, b: Search)
    requires Current(t, cost, a) && Current(t, cost, b) && a.order == b.order
    ensures a == b
  {
    SameVisits(t, a.order, a.nodes, b.nodes);
  }

  /** Two requests with the same prices make the same of an order, one with prefetching and one without, each
      with its own cache and workers. */
  method PrefetchedAlike(t: Trip, a: Request, b: Request, order: array<nat>, other: array<nat>)
    requires IsTrip(t) && order.Length == |t.pre| && KeepsPrerequisites(t.pre, order[..])
    requires a != b && order != other && order[..] == other[..]
    requires a.Valid() && b.Valid() && a.price == b.price
    modifies a, b, order, other
    ensures !a.cancelled && !b.cancelled ==> order[..] == other[..]
  {
    hide *;
    assert order.Length == |order[..]| == |other[..]| == other.Length;
    var s, first, settled := Tsp2opt(t, a, order, true);
    var s', first', settled' := Tsp2opt(t, b, other, false);
    OneSearch(t, CostsOf(a.price), first, first');
  }

  lemma NotItself(s: Search, than: Search)
    requires Less(s.best, than.best)
    ensures s != than
  {}

  lemma ImprovedRun(t: Trip, cost: Pricing, s: Search)
    requires |s.nodes| == |s.order| + 2
    ensures Improved(t, cost, s) == if |s.order| < 4 then s else RunResult(t, cost, s, MAX_PASSES)
  {}

  lemma SomePasses()
    ensures MAX_PASSES > 0
  {}

  lemma AreApart(tour: TourSearch)
    requires (tour.order as object) != (tour.nodes as object) && tour.nodes.Length == tour.order.Length + 2
    requires tour.request.Valid()
    requires tour.request.cancelled || tour.best == Tour(CostsOf(tour.request.price), tour.nodes[..])
    ensures tour.Valid()
  {}

  lemma RequestIsValid(tour: TourSearch)
    requires tour.Valid()
    ensures tour.request.Valid()
  {}

  lemma NeverDearer(a: Ext, b: Ext)
    ensures a == b || Less(b, a) ==> !Less(a, b)
  {}

  lemma CurrentIsFull(t: Trip, cost: Pricing, s: Search)
    requires Current(t, cost, s)
    ensures IsFullOrder(t.pre, s.order)
  {
    FeasibleMeansKept(t.pre, s.order);
  }
}
