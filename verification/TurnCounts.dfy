/** What turns cost, counted on the finished walk: a route is charged its edges, the weight of each kind of turn as
    often as it makes one, and the crossing charge at each junction it passes (core/router.go). */
module TurnCounts {
  import opened Common
  import opened RouteCosts
  import opened RoadCharges
  import opened RoadAnswers
  import opened TurnSearch
  import N = NodeSearch

  /** The walk turns that way at its `i`-th node, coming from a node whose id is not 0 (which stands for "none");
      turns between nodes without a place are not classified. */
  predicate TurnsAt(g: N.MemoryGraph, kind: Classifier, way: TurnKind, nodes: seq<int>, i: nat) {
    && 0 < i < |nodes| - 1 && nodes[i - 1] != 0
    && nodes[i - 1] in g.coords && nodes[i] in g.coords && nodes[i + 1] in g.coords
    && kind(nodes[i - 1], nodes[i], nodes[i + 1]) == way
  }

  /** The walk passes a junction there: a node with more than two edges. */
  predicate JunctionAt(g: N.MemoryGraph, nodes: seq<int>, i: nat) {
    0 < i < |nodes| - 1 && nodes[i - 1] != 0 && nodes[i] in g.adj && |g.adj[nodes[i]]| > 2
  }

  ghost function TurnPlaces(g: N.MemoryGraph, kind: Classifier, way: TurnKind, nodes: seq<int>): (s: set<nat>)
    ensures forall i: nat :: i in s <==> TurnsAt(g, kind, way, nodes, i)
  {
    set i: nat | i < |nodes| && TurnsAt(g, kind, way, nodes, i)
  }

  ghost function JunctionPlaces(g: N.MemoryGraph, nodes: seq<int>): (s: set<nat>)
    ensures forall i: nat :: i in s <==> JunctionAt(g, nodes, i)
  {
    set i: nat | i < |nodes| && JunctionAt(g, nodes, i)
  }

  /** How often the walk turns that way. */
  ghost function Turns(g: N.MemoryGraph, kind: Classifier, way: TurnKind, nodes: seq<int>): nat {
    |TurnPlaces(g, kind, way, nodes)|
  }

  /** How many junctions it passes. */
  ghost function Junctions(g: N.MemoryGraph, nodes: seq<int>): nat {
    |JunctionPlaces(g, nodes)|
  }

  // ---- Counting one node further ----

  lemma OneMore(s: set<nat>, t: set<nat>, n: nat, added: bool)
    requires n !in s && t == if added then s + {n} else s
    ensures |t| == |s| + if added then 1 else 0
  {}

  /** Cutting the walk short changes nothing before its end. */
  lemma TurnsCut(g: N.MemoryGraph, kind: Classifier, way: TurnKind, nodes: seq<int>, n: nat, i: nat)
    requires n <= |nodes|
    ensures TurnsAt(g, kind, way, nodes[..n], i) <==> i + 1 < n && TurnsAt(g, kind, way, nodes, i)
  {}

  lemma TurnsGrow(g: N.MemoryGraph, kind: Classifier, way: TurnKind, nodes: seq<int>, n: nat)
    requires 2 <= n < |nodes|
    ensures Turns(g, kind, way, nodes[..n + 1])
      == Turns(g, kind, way, nodes[..n]) + if TurnsAt(g, kind, way, nodes, n - 1) then 1 else 0
  {
    hide TurnsAt;
    hide TurnPlaces;
    var (s, t) := (TurnPlaces(g, kind, way, nodes[..n]), TurnPlaces(g, kind, way, nodes[..n + 1]));
    var k: nat := n - 1;
    forall i: nat
      ensures i in t <==> i in s || (i == k && TurnsAt(g, kind, way, nodes, k))
      ensures k !in s
    {
      TurnsCut(g, kind, way, nodes, n, i);
      TurnsCut(g, kind, way, nodes, n, k);
      TurnsCut(g, kind, way, nodes, n + 1, i);
    }
    OneMore(s, t, k, TurnsAt(g, kind, way, nodes, k));
  }

  lemma JunctionsCut(g: N.MemoryGraph, nodes: seq<int>, n: nat, i: nat)
    requires n <= |nodes|
    ensures JunctionAt(g, nodes[..n], i) <==> i + 1 < n && JunctionAt(g, nodes, i)
  {}

  lemma JunctionsGrow(g: N.MemoryGraph, nodes: seq<int>, n: nat)
    requires 2 <= n < |nodes|
    ensures Junctions(g, nodes[..n + 1]) == Junctions(g, nodes[..n]) + if JunctionAt(g, nodes, n - 1) then 1 else 0
  {
    hide JunctionAt;
    hide JunctionPlaces;
    var (s, t) := (JunctionPlaces(g, nodes[..n]), JunctionPlaces(g, nodes[..n + 1]));
    var k: nat := n - 1;
    forall i: nat
      ensures i in t <==> i in s || (i == k && JunctionAt(g, nodes, k))
      ensures k !in s
    {
      JunctionsCut(g, nodes, n, i);
      JunctionsCut(g, nodes, n, k);
      JunctionsCut(g, nodes, n + 1, i);
    }
    OneMore(s, t, k, JunctionAt(g, nodes, k));
  }

  lemma NothingPassed(g: N.MemoryGraph, kind: Classifier, way: TurnKind, nodes: seq<int>)
    requires |nodes| <= 2
    ensures Turns(g, kind, way, nodes) == 0 && Junctions(g, nodes) == 0
  {
    assert TurnPlaces(g, kind, way, nodes) == {};
    assert JunctionPlaces(g, nodes) == {};
  }

  // ---- The charge of a walk ----

  function Times(weight: real, n: nat): real {
    weight * n as real
  }

  lemma TimesMore(weight: real, n: nat, m: nat, more: bool)
    requires m == n + if more then 1 else 0
    ensures Times(weight, m) == Times(weight, n) + if more then weight else 0.0
  {}

  /** What the turns and crossings of a walk cost together. */
  ghost predicate TurnCharge(g: N.MemoryGraph, o: Options, kind: Classifier, nodes: seq<int>, c: real) {
    var left := if o.weights.noLeftTurn then 1000000.0 else o.weights.leftTurn;
    var crossing := (if o.weights.crossing > 0.0 then o.weights.crossing else 0.0)
      + if o.weights.trafficLight > 0.0 then o.weights.trafficLight else 0.0;
    c == Times(left, Turns(g, kind, Left, nodes)) + Times(o.weights.rightTurn, Turns(g, kind, Right, nodes))
      + Times(o.weights.uTurn, Turns(g, kind, UTurn, nodes)) + Times(crossing, Junctions(g, nodes))
  }

  /** The penalty of one passed node, case by case. */
  lemma PenaltyThere(g: N.MemoryGraph, o: Options, kind: Classifier, nodes: seq<int>, i: nat)
    requires 0 < i < |nodes| - 1
    ensures Penalty(g, o, kind, nodes[i - 1], nodes[i], nodes[i + 1]) ==
      (if TurnsAt(g, kind, Left, nodes, i) then if o.weights.noLeftTurn then 1000000.0 else o.weights.leftTurn else 0.0)
      + (if TurnsAt(g, kind, Right, nodes, i) then o.weights.rightTurn else 0.0)
      + (if TurnsAt(g, kind, UTurn, nodes, i) then o.weights.uTurn else 0.0)
      + (if !JunctionAt(g, nodes, i) then 0.0 else
           (if o.weights.crossing > 0.0 then o.weights.crossing else 0.0)
           + if o.weights.trafficLight > 0.0 then o.weights.trafficLight else 0.0)
  {}

  /** One node further, the charge grows by the penalty there. */
  lemma ChargeGrows(g: N.MemoryGraph, o: Options, kind: Classifier, nodes: seq<int>, n: nat, c: real)
    requires 2 <= n < |nodes| && TurnCharge(g, o, kind, nodes[..n], c)
    ensures TurnCharge(g, o, kind, nodes[..n + 1], c + Penalty(g, o, kind, nodes[n - 2], nodes[n - 1], nodes[n]))
  {
    hide Turns;
    hide Junctions;
    hide TurnsAt;
    hide JunctionAt;
    hide Times;
    hide Penalty;
    var (a, b, i) := (nodes[..n], nodes[..n + 1], n - 1);
    var left := if o.weights.noLeftTurn then 1000000.0 else o.weights.leftTurn;
    var crossing := (if o.weights.crossing > 0.0 then o.weights.crossing else 0.0)
      + if o.weights.trafficLight > 0.0 then o.weights.trafficLight else 0.0;
    PenaltyThere(g, o, kind, nodes, i);
    TurnsGrow(g, kind, Left, nodes, n);
    TurnsGrow(g, kind, Right, nodes, n);
    TurnsGrow(g, kind, UTurn, nodes, n);
    JunctionsGrow(g, nodes, n);
    TimesMore(left, Turns(g, kind, Left, a), Turns(g, kind, Left, b), TurnsAt(g, kind, Left, nodes, i));
    TimesMore(o.weights.rightTurn, Turns(g, kind, Right, a), Turns(g, kind, Right, b),
      TurnsAt(g, kind, Right, nodes, i));
    TimesMore(o.weights.uTurn, Turns(g, kind, UTurn, a), Turns(g, kind, UTurn, b), TurnsAt(g, kind, UTurn, nodes, i));
    TimesMore(crossing, Junctions(g, a), Junctions(g, b), JunctionAt(g, nodes, i));
  }

  /** What a walk costs is what its edges cost and what its turns and crossings cost. */
  lemma {:induction false} CostByTurns(g: N.MemoryGraph, o: Options, kind: Classifier, nodes: seq<int>,
      edges: seq<Edge>, n: nat)
    requires n <= |edges| < |nodes|
    ensures TurnCharge(g, o, kind, nodes[..n + 1], WalkCost(g, o, kind, nodes, edges, n) - PlainCost(o, edges[..n]))
  {
    hide TurnCharge;
    hide Penalty;
    hide BaseCost;
    if n == 0 {
      NoTurns(g, o, kind, nodes[..1]);
    } else {
      CostByTurns(g, o, kind, nodes, edges, n - 1);
      assert edges[..n][..n - 1] == edges[..n - 1];
      if n == 1 {
        NoTurns(g, o, kind, nodes[..2]);
      } else {
        ChargeGrows(g, o, kind, nodes, n, WalkCost(g, o, kind, nodes, edges, n - 1) - PlainCost(o, edges[..n - 1]));
      }
    }
  }

  lemma NoTurns(g: N.MemoryGraph, o: Options, kind: Classifier, nodes: seq<int>)
    requires |nodes| <= 2
    ensures TurnCharge(g, o, kind, nodes, 0.0)
  {
    NothingPassed(g, kind, Left, nodes);
    NothingPassed(g, kind, Right, nodes);
    NothingPassed(g, kind, UTurn, nodes);
  }

  // ---- What this means for answers ----

  /** A usable route with its edge charges and what its turns and crossings cost. */
  ghost predicate IsTurnRoute(g: N.MemoryGraph, o: Options, kind: Classifier, nodes: seq<int>, edges: seq<Edge>,
      costs: seq<real>, turns: real, from: int, to: int) {
    IsRoute(g, o, nodes, edges, costs, from, to) && TurnCharge(g, o, kind, nodes, turns)
  }

  ghost predicate IsLeastWithTurns(g: N.MemoryGraph, o: Options, kind: Classifier, from: int, to: int, cost: real) {
    && (exists nodes, edges, costs, turns ::
          IsTurnRoute(g, o, kind, nodes, edges, costs, turns, from, to) && Sum(costs) + turns == cost)
    && (forall nodes, edges, costs, turns :: IsTurnRoute(g, o, kind, nodes, edges, costs, turns, from, to) ==>
          cost <= Sum(costs) + turns)
  }

  ghost predicate IsTurnRouteAt(g: N.MemoryGraph, o: Options, kind: Classifier, nodes: seq<int>, from: int, to: int,
      cost: real) {
    exists edges, costs, turns ::
      IsTurnRoute(g, o, kind, nodes, edges, costs, turns, from, to) && Sum(costs) + turns == cost
  }

  lemma WalkWithTurns(g: N.MemoryGraph, o: Options, kind: Classifier, nodes: seq<int>, edges: seq<Edge>, from: int,
      to: int)
    requires Connects(g, o, nodes, edges, from, to)
    ensures var plain := PlainCost(o, edges);
      IsTurnRoute(g, o, kind, nodes, edges, Costs(o, edges), WalkCost(g, o, kind, nodes, edges, |edges|) - plain, from,
        to)
    ensures Sum(Costs(o, edges)) == PlainCost(o, edges)
  {
    hide IsRoute;
    hide TurnCharge;
    hide WalkCost;
    hide PlainCost;
    hide Costs;
    WalkIsRoute(g, o, nodes, edges, from, to);
    CostByTurns(g, o, kind, nodes, edges, |edges|);
    assert nodes[..|edges| + 1] == nodes && edges[..|edges|] == edges;
  }

  lemma TurnRouteIsWalk(g: N.MemoryGraph, o: Options, kind: Classifier, nodes: seq<int>, edges: seq<Edge>,
      costs: seq<real>, turns: real, from: int, to: int)
    requires IsTurnRoute(g, o, kind, nodes, edges, costs, turns, from, to)
    ensures Connects(g, o, nodes, edges, from, to) && Sum(costs) + turns == WalkCost(g, o, kind, nodes, edges, |edges|)
  {
    hide IsRoute;
    hide WalkCost;
    hide Turns;
    hide Junctions;
    RouteIsWalk(g, o, nodes, edges, costs, from, to);
    CostByTurns(g, o, kind, nodes, edges, |edges|);
    assert nodes[..|edges| + 1] == nodes && edges[..|edges|] == edges;
  }

  lemma CheapestMeans(g: N.MemoryGraph, o: Options, kind: Classifier, from: int, to: int, cost: real)
    requires IsCheapest(g, o, kind, from, to, cost)
    ensures IsLeastWithTurns(g, o, kind, from, to, cost)
  {
    hide IsTurnRoute;
    hide WalkCost;
    hide PlainCost;
    var nodes, edges :| Connects(g, o, nodes, edges, from, to) && WalkCost(g, o, kind, nodes, edges, |edges|) == cost;
    WalkWithTurns(g, o, kind, nodes, edges, from, to);
    forall nodes, edges, costs, turns | IsTurnRoute(g, o, kind, nodes, edges, costs, turns, from, to)
      ensures cost <= Sum(costs) + turns
    {
      TurnRouteIsWalk(g, o, kind, nodes, edges, costs, turns, from, to);
    }
  }

  lemma PathMeans(g: N.MemoryGraph, o: Options, kind: Classifier, from: int, to: int, path: seq<int>, cost: real)
    requires IsCheapestPath(g, o, kind, from, to, path, cost)
    ensures IsTurnRouteAt(g, o, kind, path, from, to, cost)
  {
    hide IsTurnRoute;
    hide WalkCost;
    hide PlainCost;
    var edges :| Connects(g, o, path, edges, from, to) && WalkCost(g, o, kind, path, edges, |edges|) == cost;
    WalkWithTurns(g, o, kind, path, edges, from, to);
  }

  lemma NoWalkNoRoute(g: N.MemoryGraph, o: Options, from: int, to: int)
    requires !exists nodes, edges :: Connects(g, o, nodes, edges, from, to)
    ensures !exists nodes, edges, costs :: IsRoute(g, o, nodes, edges, costs, from, to)
  {
    hide *;
    if nodes, edges, costs :| IsRoute(g, o, nodes, edges, costs, from, to) {
      RouteIsWalk(g, o, nodes, edges, costs, from, to);
    }
  }

  /** The answer of the turn-aware searches: the least sum of edge charges, turns and crossings over all usable
      routes, and a route of that cost; none if there is none. */
  lemma TurnAnswerMeans(g: N.MemoryGraph, from: int, to: int, o: Options, kind: Classifier, wantPath: bool, r: Outcome)
    requires Answers(g, from, to, o, kind, wantPath, r) && from != to
    ensures r.Found? ==> IsLeastWithTurns(g, o, kind, from, to, r.cost)
    ensures r.Found? && wantPath ==> IsTurnRouteAt(g, o, kind, r.path, from, to, r.cost)
    ensures r.NoPath? ==> !exists nodes, edges, costs :: IsRoute(g, o, nodes, edges, costs, from, to)
  {
    hide IsCheapest;
    hide IsCheapestPath;
    hide IsLeastWithTurns;
    hide IsTurnRouteAt;
    hide IsRoute;
    hide Connects;
    if r.Found? {
      CheapestMeans(g, o, kind, from, to, r.cost);
      if wantPath {
        PathMeans(g, o, kind, from, to, r.path, r.cost);
      }
    } else if r.NoPath? {
      NoWalkNoRoute(g, o, from, to);
    }
  }

  /** Without turn weights and crossing charges turns do not count at all. */
  lemma NothingAsked(g: N.MemoryGraph, o: Options, kind: Classifier, from: int, to: int, cost: real)
    requires !o.weights.noLeftTurn && o.weights.leftTurn == o.weights.rightTurn == o.weights.uTurn == 0.0
    requires o.weights.crossing <= 0.0 && o.weights.trafficLight <= 0.0
    ensures IsLeastWithTurns(g, o, kind, from, to, cost) <==> IsLeast(g, o, from, to, cost)
  {
    hide IsRoute;
    hide Turns;
    hide Junctions;
    hide Sum;
    forall nodes: seq<int>, c: real
      ensures TurnCharge(g, o, kind, nodes, c) <==> c == 0.0
    {}
    hide TurnCharge;
    forall nodes, edges, costs
      ensures IsRoute(g, o, nodes, edges, costs, from, to) <==>
        IsTurnRoute(g, o, kind, nodes, edges, costs, 0.0, from, to)
    {}
  }

  // ---- No left turns ----

  lemma {:induction false} PlainNotNegative(g: N.MemoryGraph, o: Options, nodes: seq<int>, edges: seq<Edge>, n: nat)
    requires N.NonNegativeLengths(g) && IsWalk(g, o, nodes, edges) && n <= |edges|
    ensures PlainCost(o, edges[..n]) >= 0.0
  {
    hide BaseCost;
    hide AttributesAllowed;
    if n > 0 {
      PlainNotNegative(g, o, nodes, edges, n - 1);
      assert edges[..n][..n - 1] == edges[..n - 1];
      var e := edges[n - 1];
      assert nodes[n - 1] in g.adj && e in g.adj[nodes[n - 1]];
      BaseCostNonNegative(o, e.attributes, e.dist);
    }
  }

  lemma TimesNonNegative(weight: real, n: nat)
    requires weight >= 0.0
    ensures Times(weight, n) >= 0.0 && (n > 0 ==> Times(weight, n) >= weight)
  {
    if n > 0 {
      TimesMore(weight, n - 1, n, true);
      assert weight * (n - 1) as real >= 0.0;
    }
  }

  /** A walk with a left turn costs at least the penalty. */
  lemma LeftTurnIsDear(g: N.MemoryGraph, o: Options, kind: Classifier, nodes: seq<int>, edges: seq<Edge>)
    requires N.NonNegativeLengths(g) && NonNegativeWeights(o) && o.weights.noLeftTurn
    requires IsWalk(g, o, nodes, edges) && Turns(g, kind, Left, nodes) > 0
    ensures |edges| < |nodes| && WalkCost(g, o, kind, nodes, edges, |edges|) >= 1000000.0
  {
    hide WalkCost;
    hide PlainCost;
    hide Turns;
    hide Junctions;
    hide Times;
    PlainNotNegative(g, o, nodes, edges, |edges|);
    CostByTurns(g, o, kind, nodes, edges, |edges|);
    assert nodes[..|edges| + 1] == nodes && edges[..|edges|] == edges;
    TimesNonNegative(1000000.0, Turns(g, kind, Left, nodes));
    TimesNonNegative(o.weights.rightTurn, Turns(g, kind, Right, nodes));
    TimesNonNegative(o.weights.uTurn, Turns(g, kind, UTurn, nodes));
    TimesNonNegative(CrossingPenalty(o), Junctions(g, nodes));
  }

  /** If some usable route without a left turn costs less than the penalty, the answered route makes none. */
  lemma NoLeftTurnTaken(g: N.MemoryGraph, from: int, to: int, o: Options, kind: Classifier, r: Outcome,
      nodes: seq<int>, edges: seq<Edge>, costs: seq<real>, turns: real)
    requires N.NonNegativeLengths(g) && NonNegativeWeights(o) && o.weights.noLeftTurn && from != to
    requires Answers(g, from, to, o, kind, true, r) && r.Found?
    requires IsTurnRoute(g, o, kind, nodes, edges, costs, turns, from, to) && Sum(costs) + turns < 1000000.0
    ensures Turns(g, kind, Left, r.path) == 0
  {
    hide WalkCost;
    hide PlainCost;
    hide Turns;
    hide IsTurnRoute;
    hide NonNegativeWeights;
    hide N.NonNegativeLengths;
    TurnRouteIsWalk(g, o, kind, nodes, edges, costs, turns, from, to);
    var es :| Connects(g, o, r.path, es, from, to) && WalkCost(g, o, kind, r.path, es, |es|) == r.cost;
    if Turns(g, kind, Left, r.path) > 0 {
      LeftTurnIsDear(g, o, kind, r.path, es);
    }
  }
}
