/** The nearest-stop heuristic for longer trips, improved by 2-opt (`tspGreedy` in cmd/tsp.go). */
module GreedyTrip {
  import opened Common
  import opened Bitmask
  import opened TripOrders
  import opened TripTours
  import P = TripPool
  import opened TripCosts
  import opened TwoOpt

  /** The largest number of stops accepted. */
  const MAX_GREEDY_STOPS: nat := 60

  ghost function NodeAfter(t: Trip, o: seq<nat>): int
    requires forall k :: 0 <= k < |o| ==> o[k] < |t.stops|
  {
    if o == [] then t.start else t.stops[o[|o| - 1]]
  }

  /** There is a route that costs less than the sentinel. */
  ghost predicate Reachable(c: Ext, huge: real) {
    c.Fin? && c.v < huge
  }

  /** Of all stops that may come next, `x` is the nearest, and the first of the nearest. */
  ghost predicate IsNearest(t: Trip, cost: Pricing, huge: real, visited: nat, node: int, x: nat)
    requires IsTrip(t)
  {
    && x < |t.pre| && Ready(t.pre, visited, x) && Reachable(cost(node, t.stops[x]), huge)
    && forall i :: 0 <= i < |t.pre| && Ready(t.pre, visited, i) ==>
         && !Less(cost(node, t.stops[i]), cost(node, t.stops[x]))
         && (i < x ==> Less(cost(node, t.stops[x]), cost(node, t.stops[i])))
  }

  ghost predicate NoneReachable(t: Trip, cost: Pricing, huge: real, visited: nat, node: int)
    requires IsTrip(t)
  {
    forall i :: 0 <= i < |t.pre| && Ready(t.pre, visited, i) ==> !Reachable(cost(node, t.stops[i]), huge)
  }

  /** The order a nearest-stop traveller takes. */
  ghost predicate NearestFirst(t: Trip, cost: Pricing, huge: real, o: seq<nat>)
    requires IsTrip(t)
  {
    && (forall k :: 0 <= k < |o| ==> o[k] < |t.stops|)
    && (o != [] ==>
          && NearestFirst(t, cost, huge, o[..|o| - 1])
          && IsNearest(t, cost, huge, MaskOf(o[..|o| - 1]), NodeAfter(t, o[..|o| - 1]), o[|o| - 1]))
  }

  /** The eligible stops, only the first of those at the same node. */
  ghost predicate Eligibles(t: Trip, visited: nat, n: nat, eligible: seq<nat>, seen: set<int>)
    requires IsTrip(t) && n <= |t.pre|
  {
    && (forall k :: 0 <= k < |eligible| ==>
          eligible[k] < n && Ready(t.pre, visited, eligible[k]) && t.stops[eligible[k]] in seen)
    && (forall k, j :: 0 <= k < j < |eligible| ==> eligible[k] < eligible[j])
    && (forall i :: 0 <= i < n && Ready(t.pre, visited, i) ==> t.stops[i] in seen)
    && (forall node :: node in seen ==> HasFirst(t, eligible, node, n))
    && (forall i, k :: 0 <= k < |eligible| && 0 <= i < eligible[k] && Ready(t.pre, visited, i) ==>
          t.stops[i] != t.stops[eligible[k]])
  }

  ghost predicate HasFirst(t: Trip, eligible: seq<nat>, node: int, n: nat)
    requires IsTrip(t) && n <= |t.pre|
  {
    exists k :: 0 <= k < |eligible| && eligible[k] < n && t.stops[eligible[k]] == node
  }

  method FindEligible(t: Trip, visited: nat) returns (eligible: seq<nat>, ghost seen': set<int>)
    requires IsTrip(t)
    ensures Eligibles(t, visited, |t.pre|, eligible, seen')
  {
    var seen: set<int> := {};
    eligible := [];
    for i := 0 to |t.pre|
      invariant Eligibles(t, visited, i, eligible, seen)
    {
      if Ready(t.pre, visited, i) && t.stops[i] !in seen {
        EligibleGrows(t, visited, i, eligible, seen);
        seen, eligible := seen + {t.stops[i]}, eligible + [i];
      } else {
        EligibleStays(t, visited, i, eligible, seen);
      }
    }
    seen' := seen;
  }

  lemma EligibleGrows(t: Trip, visited: nat, i: nat, eligible: seq<nat>, seen: set<int>)
    requires IsTrip(t) && i < |t.pre| && Eligibles(t, visited, i, eligible, seen)
    requires Ready(t.pre, visited, i) && t.stops[i] !in seen
    ensures Eligibles(t, visited, i + 1, eligible + [i], seen + {t.stops[i]})
  {
    var eligible' := eligible + [i];
    hide Ready;
    forall node | node in seen + {t.stops[i]}
      ensures HasFirst(t, eligible', node, i + 1)
    {
      if node == t.stops[i] {
        assert eligible'[|eligible|] == i;
      } else {
        assert HasFirst(t, eligible, node, i);
        var k :| 0 <= k < |eligible| && eligible[k] < i && t.stops[eligible[k]] == node;
        assert eligible'[k] == eligible[k];
      }
    }
  }

  lemma EligibleStays(t: Trip, visited: nat, i: nat, eligible: seq<nat>, seen: set<int>)
    requires IsTrip(t) && i < |t.pre| && Eligibles(t, visited, i, eligible, seen)
    requires Ready(t.pre, visited, i) ==> t.stops[i] in seen
    ensures Eligibles(t, visited, i + 1, eligible, seen)
  {
    hide Ready;
    forall node | node in seen
      ensures HasFirst(t, eligible, node, i + 1)
    {
      assert HasFirst(t, eligible, node, i);
    }
  }

  /** The cheapest of the eligible stops so far; none while nothing reachable was seen. */
  ghost predicate Chosen(t: Trip, cost: Pricing, huge: real, node: int, eligible: seq<nat>, k: nat, best: Ext,
      choice: Option<nat>)
    requires IsTrip(t)
  {
    && k <= |eligible| && (forall j :: 0 <= j < |eligible| ==> eligible[j] < |t.stops|)
    && (if choice.None? then best == Fin(huge)
        else exists j :: 0 <= j < k && eligible[j] == choice.value && best == cost(node, t.stops[eligible[j]])
               && Reachable(best, huge)
               && forall i :: 0 <= i < j ==> Less(best, cost(node, t.stops[eligible[i]])))
    && forall j :: 0 <= j < k ==> !Less(cost(node, t.stops[eligible[j]]), best)
  }

  lemma ChoiceIsNearest(t: Trip, cost: Pricing, huge: real, visited: nat, node: int, eligible: seq<nat>, seen: set<int>,
                        best: Ext, x: nat)
    requires IsTrip(t) && Eligibles(t, visited, |t.pre|, eligible, seen)
    requires Chosen(t, cost, huge, node, eligible, |eligible|, best, Some(x))
    ensures IsNearest(t, cost, huge, visited, node, x)
  {
    hide Ready;
    var j :| 0 <= j < |eligible| && eligible[j] == x && best == cost(node, t.stops[eligible[j]])
      && forall i :: 0 <= i < j ==> Less(best, cost(node, t.stops[eligible[i]]));
    forall i | 0 <= i < |t.pre| && Ready(t.pre, visited, i)
      ensures !Less(cost(node, t.stops[i]), best)
      ensures i < x ==> Less(best, cost(node, t.stops[i]))
    {
      assert HasFirst(t, eligible, t.stops[i], |t.pre|);
      var k :| 0 <= k < |eligible| && eligible[k] < |t.pre| && t.stops[eligible[k]] == t.stops[i];
    }
  }

  lemma NoChoice(t: Trip, cost: Pricing, huge: real, visited: nat, node: int, eligible: seq<nat>, seen: set<int>,
      best: Ext)
    requires IsTrip(t) && Eligibles(t, visited, |t.pre|, eligible, seen)
    requires Chosen(t, cost, huge, node, eligible, |eligible|, best, None)
    ensures NoneReachable(t, cost, huge, visited, node)
  {
    hide Ready;
    forall i | 0 <= i < |t.pre| && Ready(t.pre, visited, i)
      ensures !Reachable(cost(node, t.stops[i]), huge)
    {
      assert HasFirst(t, eligible, t.stops[i], |t.pre|);
    }
  }

  lemma ChoiceGoesOn(t: Trip, cost: Pricing, huge: real, node: int, eligible: seq<nat>, k: nat, best: Ext,
      choice: Option<nat>)
    requires IsTrip(t) && Chosen(t, cost, huge, node, eligible, k, best, choice) && k < |eligible|
    ensures var c := cost(node, t.stops[eligible[k]]);
      if Less(c, best) then Chosen(t, cost, huge, node, eligible, k + 1, c, Some(eligible[k]))
      else Chosen(t, cost, huge, node, eligible, k + 1, best, choice)
  {
    var c := cost(node, t.stops[eligible[k]]);
    if Less(c, best) {
      assert Reachable(c, huge);
      assert forall i :: 0 <= i < k ==> Less(c, cost(node, t.stops[eligible[i]]));
    }
  }

  /** What the pool delivered are the costs from this node to the eligible stops. */
  lemma DeliveredCost(t: Trip, price: P.Prices, node: int, eligible: seq<nat>, legs: seq<P.Leg>,
                      answers: seq<P.Answer>, k: nat)
    requires k < |eligible| == |legs| == |answers| && eligible[k] < |t.stops|
    requires legs[k] == (node, t.stops[eligible[k]]) && answers[k] == P.Priced(price(legs[k]))
    ensures AsCost(answers[k]) == CostsOf(price)(node, t.stops[eligible[k]])
  {}

  /** The nearest of the stops that may come next, priced by the pool; nothing is known of a cancelled request. */
  method Nearest(t: Trip, request: Request, huge: real, visited: nat, node: int) returns (choice: Option<nat>)
    requires IsTrip(t) && request.Valid()
    modifies request
    ensures request.Valid() && (old(request.cancelled) ==> request.cancelled)
    ensures request.cancelled ==> choice.None?
    ensures choice.Some? ==> IsNearest(t, CostsOf(request.price), huge, visited, node, choice.value)
    ensures !request.cancelled && choice.None? ==> NoneReachable(t, CostsOf(request.price), huge, visited, node)
  {
    hide *;
    ghost var cost := CostsOf(request.price);
    var eligible, seen := FindEligible(t, visited);
    EligibleIndices(t, visited, eligible, seen);
    var legs :=
      seq(|eligible|, k requires 0 <= k < |eligible| && eligible[k] < |t.stops| => (node, t.stops[eligible[k]]));
    var answers := request.All(legs);
    choice := None;
    if answers.None? {
      return;
    }
    var best := Fin(huge);
    NothingChosen(t, cost, huge, node, eligible);
    for k := 0 to |eligible|
      invariant Chosen(t, cost, huge, node, eligible, k, best, choice) && request.Valid() && !request.cancelled
    {
      ChoiceGoesOn(t, cost, huge, node, eligible, k, best, choice);
      DeliveredCost(t, request.price, node, eligible, legs, answers.value, k);
      var c := AsCost(answers.value[k]);
      if Less(c, best) {
        best, choice := c, Some(eligible[k]);
      }
    }
    if choice.Some? {
      ChoiceIsNearest(t, cost, huge, visited, node, eligible, seen, best, choice.value);
    } else {
      NoChoice(t, cost, huge, visited, node, eligible, seen, best);
    }
  }

  lemma EligibleIndices(t: Trip, visited: nat, eligible: seq<nat>, seen: set<int>)
    requires IsTrip(t) && Eligibles(t, visited, |t.pre|, eligible, seen)
    ensures forall k :: 0 <= k < |eligible| ==> eligible[k] < |t.stops|
  {}

  lemma NothingChosen(t: Trip, cost: Pricing, huge: real, node: int, eligible: seq<nat>)
    requires IsTrip(t) && forall k :: 0 <= k < |eligible| ==> eligible[k] < |t.stops|
    ensures Chosen(t, cost, huge, node, eligible, 0, Fin(huge), None)
  {}

  lemma NearestGrows(t: Trip, cost: Pricing, huge: real, o: seq<nat>, x: nat)
    requires IsTrip(t) && NearestFirst(t, cost, huge, o) && Feasible(t.pre, o)
    requires IsNearest(t, cost, huge, MaskOf(o), NodeAfter(t, o), x)
    ensures NearestFirst(t, cost, huge, o + [x]) && Feasible(t.pre, o + [x]) && MaskOf(o + [x]) == With(MaskOf(o), x)
    ensures (forall k :: 0 <= k < |o + [x]| ==> (o + [x])[k] < |t.stops|) && NodeAfter(t, o + [x]) == t.stops[x]
  {
    assert (o + [x])[..|o|] == o;
    ContainsCovers(MaskOf(o), t.pre[x]);
    FeasibleExtends(t.pre, o, x);
  }

  /** A nearest-stop tour that got stuck: no stop that may come next can be reached. */
  ghost predicate Stuck(t: Trip, cost: Pricing, huge: real)
    requires IsTrip(t)
  {
    exists o: seq<nat> :: Feasible(t.pre, o) && |o| < |t.pre| && NearestFirst(t, cost, huge, o)
      && NoneReachable(t, cost, huge, MaskOf(o), NodeAfter(t, o))
  }

  lemma OneNearest(t: Trip, cost: Pricing, huge: real, visited: nat, node: int, x: nat, y: nat)
    requires IsTrip(t) && IsNearest(t, cost, huge, visited, node, x) && IsNearest(t, cost, huge, visited, node, y)
    ensures x == y
  {
    hide Ready;
  }

  lemma {:induction false} NearestPrefix(t: Trip, cost: Pricing, huge: real, o: seq<nat>, k: nat)
    requires IsTrip(t) && NearestFirst(t, cost, huge, o) && k <= |o|
    ensures NearestFirst(t, cost, huge, o[..k])
    decreases |o|
  {
    if k < |o| {
      var init := o[..|o| - 1];
      NearestPrefix(t, cost, huge, init, k);
      assert init[..k] == o[..k];
    } else {
      assert o[..k] == o;
    }
  }

  /** The nearest-stop traveller has no choice: of two such orders one begins with the other. */
  lemma {:induction false} SameTraveller(t: Trip, cost: Pricing, huge: real, o: seq<nat>, full: seq<nat>)
    requires IsTrip(t) && NearestFirst(t, cost, huge, o) && NearestFirst(t, cost, huge, full) && |o| <= |full|
    ensures o == full[..|o|]
    decreases |o|
  {
    if o != [] {
      var k := |o| - 1;
      SameTraveller(t, cost, huge, o[..k], full);
      NearestPrefix(t, cost, huge, full, |o|);
      var part := full[..|o|];
      assert part[..k] == full[..k] == o[..k];
      hide NearestFirst;
      NearestStep(t, cost, huge, o);
      NearestStep(t, cost, huge, part);
      OneNearest(t, cost, huge, MaskOf(o[..k]), NodeAfter(t, o[..k]), o[k], part[k]);
      assert o == o[..k] + [o[k]] && part == part[..k] + [part[k]];
    }
  }

  lemma NearestStep(t: Trip, cost: Pricing, huge: real, o: seq<nat>)
    requires IsTrip(t) && NearestFirst(t, cost, huge, o) && o != []
    ensures forall k :: 0 <= k < |o| ==> o[k] < |t.stops|
    ensures IsNearest(t, cost, huge, MaskOf(o[..|o| - 1]), NodeAfter(t, o[..|o| - 1]), o[|o| - 1])
  {}

  /** A traveller who visits every stop was not stuck on the way. */
  lemma NotStuck(t: Trip, cost: Pricing, huge: real, full: seq<nat>)
    requires IsTrip(t) && NearestFirst(t, cost, huge, full) && |full| == |t.pre|
    ensures !Stuck(t, cost, huge)
  {
    forall o: seq<nat> | |o| < |t.pre| && NearestFirst(t, cost, huge, o)
      ensures !NoneReachable(t, cost, huge, MaskOf(o), NodeAfter(t, o))
    {
      var k := |o| + 1;
      NearestPrefix(t, cost, huge, full, k);
      NearestStep(t, cost, huge, full[..k]);
      assert full[..k][..|o|] == full[..|o|];
      SameTraveller(t, cost, huge, o, full);
    }
  }

  /** The result is the nearest-stop order, or for four and more stops its 2-opt improvement, which no
      permitted reversal makes cheaper unless the passes ran out. Nothing is answered to a cancelled request. */
  method TspGreedy(t: Trip, n: nat, request: Request, huge: real)
    returns (r: Option<seq<nat>>, ghost nearest: seq<nat>, ghost settled: bool)
    requires IsTrip(t) && request.Valid()
    modifies request
    ensures request.cancelled ==> r.None?
    ensures !request.cancelled ==>
      (r.None? <==>
        n > 60 || |t.pre| != n || !HasOrder(t.pre) || Stuck(t, CostsOf(request.price), huge))
    ensures r.Some? ==> IsFullOrder(t.pre, r.value) && |r.value| == n <= 60
    ensures r.Some? ==> NearestFirst(t, CostsOf(request.price), huge, nearest) && IsFullOrder(t.pre, nearest)
    ensures r.Some? && n < 4 ==> r.value == nearest
    ensures r.Some? ==> NotDearer(t, CostsOf(request.price), r.value, nearest)
    ensures r.Some? ==> IsImproved(t, CostsOf(request.price), nearest, r.value)
    ensures r.Some? && n >= 4 && settled ==> OrderSettled(t, CostsOf(request.price), r.value)
    ensures r.Some? && !settled ==> Cheaper(t, CostsOf(request.price), r.value, nearest)
  {
    hide *;
    ghost var cost := CostsOf(request.price);
    nearest, settled := [], true;
    SixtyStops();
    NothingYet(t, cost, huge);
    var gone := request.Err();
    var ok := ValidateTsp(n, t.pre, MAX_GREEDY_STOPS);
    if gone || !ok {
      return None, nearest, settled;
    }
    var order: seq<nat>, visited, node := [], 0, t.start;
    while |order| < n
      invariant |order| <= n && Feasible(t.pre, order) && NearestFirst(t, cost, huge, order)
      invariant request.Valid() && (n == 0 ==> !request.cancelled) && !gone
      invariant forall k :: 0 <= k < |order| ==> order[k] < |t.stops|
      invariant visited == MaskOf(order) && node == NodeAfter(t, order)
    {
      gone := request.Err();
      if gone {
        return None, nearest, settled;
      }
      var choice := Nearest(t, request, huge, visited, node);
      if choice.None? {
        if !request.cancelled {
          IsStuck(t, cost, huge, order);
        }
        return None, nearest, settled;
      }
      NearestGrows(t, cost, huge, order, choice.value);
      order, visited, node := order + [choice.value], With(visited, choice.value), t.stops[choice.value];
    }
    nearest := order;
    FullOrderKept(t.pre, order);
    var tour := new nat[|order|](i requires 0 <= i < |order| => order[i]);
    assert tour[..] == order;
    FullOrderLength(t.pre, order);
    NotStuck(t, cost, huge, order);
    ghost var s, first;
    s, first, settled := Tsp2opt(t, request, tour, true);
    if n > 0 {
      gone := request.Err();
    }
    if gone {
      return None, nearest, settled;
    }
    ImprovedRun(t, cost, first);
    ImprovedTour(t, cost, s, first);
    return Some(tour[..]), nearest, settled;
  }

  /** The order is what 2-opt makes of the other one. */
  ghost predicate IsImproved(t: Trip, cost: Pricing, from: seq<nat>, order: seq<nat>) {
    exists s: Search :: Current(t, cost, s) && s.order == from && |s.nodes| == |s.order| + 2
      && Improved(t, cost, s).order == order
  }

  /** No permitted reversal makes the tour of this order cheaper. */
  ghost predicate OrderSettled(t: Trip, cost: Pricing, order: seq<nat>) {
    forall s: Search :: Current(t, cost, s) && s.order == order ==> LocallyOptimal(t, cost, s)
  }

  /** The tour of one order costs strictly less than that of another. */
  ghost predicate Cheaper(t: Trip, cost: Pricing, order: seq<nat>, than: seq<nat>) {
    forall s: Search, s': Search ::
      Current(t, cost, s) && s.order == order && Current(t, cost, s') && s'.order == than ==>
      Less(s.best, s'.best)
  }

  lemma SixtyStops()
    ensures MAX_GREEDY_STOPS == 60
  {}

  lemma FullOrderLength(pre: seq<nat>, o: seq<nat>)
    requires IsFullOrder(pre, o)
    ensures |o| == |pre|
  {}

  lemma NothingYet(t: Trip, cost: Pricing, huge: real)
    requires IsTrip(t)
    ensures NearestFirst(t, cost, huge, []) && Feasible(t.pre, []) && MaskOf([]) == 0 && NodeAfter(t, []) == t.start
    ensures |t.stops| == |t.pre|
  {}

  lemma IsStuck(t: Trip, cost: Pricing, huge: real, o: seq<nat>)
    requires IsTrip(t) && Feasible(t.pre, o) && |o| < |t.pre| && NearestFirst(t, cost, huge, o)
    requires NoneReachable(t, cost, huge, MaskOf(o), NodeAfter(t, o))
    ensures Stuck(t, cost, huge)
  {}

  lemma FullOrderKept(pre: seq<nat>, o: seq<nat>)
    requires Feasible(pre, o) && |o| == |pre|
    ensures IsFullOrder(pre, o) && KeepsPrerequisites(pre, o)
  {
    FeasibleWithin(pre, o);
    FeasibleMeansKept(pre, o);
  }

  /** The tour of one order costs no more than that of another. */
  ghost predicate NotDearer(t: Trip, cost: Pricing, order: seq<nat>, than: seq<nat>) {
    forall s: Search, s': Search ::
      Current(t, cost, s) && s.order == order && Current(t, cost, s') && s'.order == than ==>
      !Less(s'.best, s.best)
  }

  lemma ImprovedTour(t: Trip, cost: Pricing, s: Search, first: Search)
    requires Current(t, cost, s) && Current(t, cost, first) && !Less(first.best, s.best)
    requires |first.nodes| == |first.order| + 2 && s == Improved(t, cost, first)
    ensures NotDearer(t, cost, s.order, first.order) && IsImproved(t, cost, first.order, s.order)
    ensures LocallyOptimal(t, cost, s) ==> OrderSettled(t, cost, s.order)
    ensures Less(s.best, first.best) ==> Cheaper(t, cost, s.order, first.order)
  {
    hide Improved;
    hide LocallyOptimal;
    hide Less;
    forall a: Search, b: Search | Current(t, cost, a) && a.order == s.order && Current(t, cost, b)
      && b.order == first.order
      ensures a == s && b == first
    {
      OneSearch(t, cost, a, s);
      OneSearch(t, cost, b, first);
    }
  }
}
