/** Orders of stops under prerequisites, their costs, and the check that some order exists
    (`validateTSP` in cmd/tsp.go). */
module TripOrders {
  import opened Common
  import opened Bitmask
  import opened Pigeonhole

  /** The stops of an order as a mask. */
  function MaskOf(o: seq<nat>): nat {
    if o == [] then 0 else With(MaskOf(o[..|o| - 1]), o[|o| - 1])
  }

  /** Every stop is new and comes after its prerequisites. */
  ghost predicate Feasible(pre: seq<nat>, o: seq<nat>) {
    o != [] ==>
      var (init, last) := (o[..|o| - 1], o[|o| - 1]);
      Feasible(pre, init) && last < |pre| && !Has(MaskOf(init), last) && Covers(MaskOf(init), pre[last])
  }

  lemma {:induction false} MaskMembers(o: seq<nat>, i: nat)
    ensures Has(MaskOf(o), i) <==> i in o
  {
    if o == [] {
      ZeroEmpty(i);
    } else {
      MaskMembers(o[..|o| - 1], i);
      HasWith(MaskOf(o[..|o| - 1]), o[|o| - 1], i);
      assert o == o[..|o| - 1] + [o[|o| - 1]];
    }
  }

  /** The plain reading of an order that keeps to the prerequisites. */
  ghost predicate KeepsPrerequisites(pre: seq<nat>, o: seq<nat>) {
    && Distinct(o)
    && (forall k :: 0 <= k < |o| ==> o[k] < |pre|)
    && forall k, j: nat :: 0 <= k < |o| && Has(pre[o[k]], j) ==> j in o[..k]
  }

  lemma {:induction false} FeasibleMeansKept(pre: seq<nat>, o: seq<nat>)
    requires forall k :: 0 <= k < |o| ==> o[k] < |pre|
    ensures Feasible(pre, o) <==> KeepsPrerequisites(pre, o)
  {
    if o != [] {
      var init, last := o[..|o| - 1], o[|o| - 1];
      FeasibleMeansKept(pre, init);
      forall i: nat
        ensures Has(MaskOf(init), i) <==> i in init
      {
        MaskMembers(init, i);
      }
      assert forall k :: 0 <= k <= |init| ==> o[..k] == init[..k];
      if KeepsPrerequisites(pre, o) {
        assert o[|o| - 1] == last && o[..|o| - 1] == init;
        assert forall j: nat :: Has(pre[last], j) ==> j in o[..|o| - 1];
      }
    }
  }

  /** Appending a stop. */
  lemma FeasibleExtends(pre: seq<nat>, o: seq<nat>, x: nat)
    ensures MaskOf(o + [x]) == With(MaskOf(o), x)
    ensures Feasible(pre, o + [x]) <==> Feasible(pre, o) && x < |pre| && !Has(MaskOf(o), x) && Covers(MaskOf(o), pre[x])
  {
    assert (o + [x])[..|o|] == o;
  }

  lemma {:induction false} FeasibleWithin(pre: seq<nat>, o: seq<nat>)
    requires Feasible(pre, o)
    ensures MaskOf(o) < Pow2(|pre|)
    ensures forall k :: 0 <= k < |o| ==> o[k] < |pre|
  {
    if o != [] {
      FeasibleWithin(pre, o[..|o| - 1]);
      WithinWidth(MaskOf(o[..|o| - 1]), o[|o| - 1], |pre|);
    }
  }

  /** An order of all the stops. */
  ghost predicate IsFullOrder(pre: seq<nat>, o: seq<nat>) {
    Feasible(pre, o) && |o| == |pre|
  }

  lemma {:induction false} FeasibleDistinct(pre: seq<nat>, o: seq<nat>)
    requires Feasible(pre, o)
    ensures Distinct(o)
  {
    FeasibleWithin(pre, o);
    FeasibleMeansKept(pre, o);
  }

  ghost predicate SameStops(m: nat, o: seq<nat>) {
    forall i: nat :: Has(m, i) <==> i in o
  }

  lemma MaskStops(o: seq<nat>)
    ensures SameStops(MaskOf(o), o)
  {
    forall i: nat
      ensures Has(MaskOf(o), i) <==> i in o
    {
      MaskMembers(o, i);
    }
  }

  lemma StopsWithin(pre: seq<nat>, o: seq<nat>)
    requires Feasible(pre, o)
    ensures Distinct(o) && Elements(o) <= Below(|pre|) && |Elements(o)| == |o| <= |pre|
    ensures |o| == |pre| ==> Elements(o) == Below(|pre|)
  {
    hide Feasible;
    FeasibleDistinct(pre, o);
    FeasibleWithin(pre, o);
    DistinctWithin(o, Below(|pre|));
    DistinctSize(o);
  }

  /** An order is full exactly when it visits the full mask. */
  lemma FullMeansAll(pre: seq<nat>, o: seq<nat>)
    requires Feasible(pre, o)
    ensures |o| <= |pre|
    ensures |o| == |pre| <==> MaskOf(o) == Pow2(|pre|) - 1
  {
    hide Feasible;
    hide MaskOf;
    hide Has;
    hide Distinct;
    StopsWithin(pre, o);
    MaskStops(o);
    var all := Pow2(|pre|) - 1;
    forall i: nat
      ensures Has(all, i) <==> i in Below(|pre|)
    {
      FullMask(|pre|, i);
    }
    if |o| == |pre| {
      forall i: nat
        ensures Has(MaskOf(o), i) <==> Has(all, i)
      {
        assert i in o <==> i in Elements(o);
      }
      SameMembers(MaskOf(o), all);
    }
    if MaskOf(o) == all {
      forall i: nat
        ensures i in Elements(o) <==> i in Below(|pre|)
      {
        assert i in o <==> Has(MaskOf(o), i);
      }
      assert Elements(o) == Below(|pre|);
    }
  }

  // ---- Validation ----

  ghost predicate HasOrder(pre: seq<nat>) {
    exists o: seq<nat> :: IsFullOrder(pre, o)
  }

  /** A stop that can be visited next. */
  predicate Ready(pre: seq<nat>, visited: nat, i: nat)
    requires i < |pre|
  {
    !Has(visited, i) && Contains(visited, pre[i])
  }

  /** If a full order exists, its first stop not yet visited is ready. */
  lemma {:induction false} SomeoneReady(pre: seq<nat>, o: seq<nat>, visited: nat)
    requires Feasible(pre, o) && exists i :: i in o && !Has(visited, i)
    ensures exists i :: 0 <= i < |pre| && Ready(pre, visited, i)
  {
    var init, last := o[..|o| - 1], o[|o| - 1];
    assert o == init + [last];
    if exists i :: i in init && !Has(visited, i) {
      SomeoneReady(pre, init, visited);
    } else {
      forall i: nat | Has(pre[last], i)
        ensures Has(visited, i)
      {
        MaskMembers(init, i);
      }
      ContainsCovers(visited, pre[last]);
      assert Ready(pre, visited, last);
    }
  }

  /** A longer order has a stop that a shorter one lacks. */
  lemma LongerHasMore(pre: seq<nat>, o: seq<nat>, full: seq<nat>)
    requires Feasible(pre, o) && Feasible(pre, full) && |o| < |full|
    ensures exists i :: i in full && !Has(MaskOf(o), i)
  {
    hide Feasible;
    hide MaskOf;
    hide Has;
    StopsWithin(pre, o);
    StopsWithin(pre, full);
    MaskStops(o);
    if forall i :: i in full ==> Has(MaskOf(o), i) {
      SubsetSize(Elements(full), Elements(o));
      assert false;
    }
  }

  lemma StuckMeansNoOrder(pre: seq<nat>, o: seq<nat>)
    requires Feasible(pre, o) && |o| < |pre|
    requires forall i :: 0 <= i < |pre| ==> !Ready(pre, MaskOf(o), i)
    ensures !HasOrder(pre)
  {
    hide Feasible;
    hide MaskOf;
    forall full: seq<nat>
      ensures !IsFullOrder(pre, full)
    {
      if IsFullOrder(pre, full) {
        LongerHasMore(pre, o, full);
        SomeoneReady(pre, full, MaskOf(o));
      }
    }
  }

  /** The first ready stop, if any. */
  method FirstReady(pre: seq<nat>, visited: nat) returns (i: nat)
    ensures i <= |pre| && (i < |pre| ==> Ready(pre, visited, i))
    ensures i == |pre| ==> forall k :: 0 <= k < |pre| ==> !Ready(pre, visited, k)
  {
    i := 0;
    while i < |pre| && !Ready(pre, visited, i)
      invariant i <= |pre| && forall k :: 0 <= k < i ==> !Ready(pre, visited, k)
    {
      i := i + 1;
    }
  }

  /** Accepts exactly the requests for which some order keeps to every prerequisite. */
  method ValidateTsp(n: nat, pre: seq<nat>, maxStops: nat) returns (ok: bool)
    ensures ok <==> n <= maxStops && |pre| == n && HasOrder(pre)
  {
    if n > maxStops || |pre| != n {
      return false;
    }
    var visited := 0;
    ghost var o := [];
    for count := 0 to n
      invariant Feasible(pre, o) && |o| == count && visited == MaskOf(o)
    {
      var i := FirstReady(pre, visited);
      if i == |pre| {
        StuckMeansNoOrder(pre, o);
        return false;
      }
      ContainsCovers(visited, pre[i]);
      FeasibleExtends(pre, o, i);
      visited, o := With(visited, i), o + [i];
    }
    assert IsFullOrder(pre, o);
    ok := true;
  }

  // ---- Costs ----

  /** The leg costs of a trip; `inf` and above means there is no such leg. */
  datatype Legs = Legs(start: seq<real>, between: seq<seq<real>>, end: seq<real>)

  ghost predicate LegsFor(legs: Legs, n: nat) {
    && |legs.start| == |legs.end| == |legs.between| == n
    && forall i :: 0 <= i < n ==> |legs.between[i]| == n
  }

  ghost predicate NonNegativeLegs(legs: Legs) {
    && (forall i :: 0 <= i < |legs.start| ==> legs.start[i] >= 0.0)
    && (forall i :: 0 <= i < |legs.end| ==> legs.end[i] >= 0.0)
    && (forall i, j :: 0 <= i < |legs.between| && 0 <= j < |legs.between[i]| ==> legs.between[i][j] >= 0.0)
  }

  /** The cost of travelling from the start through the stops of an order. */
  ghost function Cost(legs: Legs, n: nat, o: seq<nat>): real
    requires LegsFor(legs, n) && |o| > 0 && forall k :: 0 <= k < |o| ==> o[k] < n
  {
    if |o| == 1 then legs.start[o[0]]
    else Cost(legs, n, o[..|o| - 1]) + legs.between[o[|o| - 2]][o[|o| - 1]]
  }

  ghost function Total(legs: Legs, n: nat, o: seq<nat>): real
    requires LegsFor(legs, n) && |o| > 0 && forall k :: 0 <= k < |o| ==> o[k] < n
  {
    Cost(legs, n, o) + legs.end[o[|o| - 1]]
  }

  lemma CostExtends(legs: Legs, n: nat, o: seq<nat>, x: nat)
    requires LegsFor(legs, n) && |o| > 0 && (forall k :: 0 <= k < |o| ==> o[k] < n) && x < n
    ensures Cost(legs, n, o + [x]) == Cost(legs, n, o) + legs.between[o[|o| - 1]][x]
  {
    assert (o + [x])[..|o|] == o;
  }
}
