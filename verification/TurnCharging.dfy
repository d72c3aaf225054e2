/** Which turns the turn-aware searches charge (core/router.go, core/router_turn_index.go). They take the id 0
    for "no previous node", so a turn made from a node whose id is 0 costs nothing. */
module TurnCharging {
  import opened RouteCosts
  import opened Common
  import opened TurnSearch
  import N = NodeSearch

  /** Edge costs plus the full penalty of every passed node, for the first `n` edges. */
  ghost function FullCost(g: N.MemoryGraph, o: Options, kind: Classifier, nodes: seq<int>, edges: seq<Edge>,
      n: nat): real
    requires n <= |edges| < |nodes|
  {
    if n == 0 then 0.0 else
      FullCost(g, o, kind, nodes, edges, n - 1)
      + BaseCost(o, edges[n - 1].attributes, edges[n - 1].dist)
      + if n >= 2 then FullPenalty(g, o, kind, nodes[n - 2], nodes[n - 1], nodes[n]) else 0.0
  }

  /** No turn a vehicle can make on coming from node 0 would cost anything. */
  predicate ZeroTurnsFree(g: N.MemoryGraph, o: Options, kind: Classifier) {
    forall e, f | e in g.Edges(0) && f in g.Edges(e.to) ::
      AttributesAllowed(o, e.attributes) && AttributesAllowed(o, f.attributes) ==>
        FullPenalty(g, o, kind, 0, e.to, f.to) == 0.0
  }

  /** A graph without roads out of a node 0 has no such turn. */
  lemma NoNodeZero(g: N.MemoryGraph, o: Options, kind: Classifier)
    requires 0 !in g.adj
    ensures ZeroTurnsFree(g, o, kind)
  {
    assert g.Edges(0) == [];
  }

  lemma {:induction false} ChargedInFull(g: N.MemoryGraph, o: Options, kind: Classifier, nodes: seq<int>,
      edges: seq<Edge>, n: nat)
    requires ZeroTurnsFree(g, o, kind) && IsWalk(g, o, nodes, edges) && n <= |edges|
    ensures FullCost(g, o, kind, nodes, edges, n) == WalkCost(g, o, kind, nodes, edges, n)
  {
    hide FullPenalty;
    hide BaseCost;
    hide AttributesAllowed;
    if n > 0 {
      ChargedInFull(g, o, kind, nodes, edges, n - 1);
      if n >= 2 {
        var (e, f) := (edges[n - 2], edges[n - 1]);
        assert e in g.Edges(nodes[n - 2]) && AttributesAllowed(o, e.attributes) && e.to == nodes[n - 1];
        assert f in g.Edges(nodes[n - 1]) && AttributesAllowed(o, f.attributes) && f.to == nodes[n];
      }
    }
  }

  /** The shortest walk on which a turn from node 0 goes uncharged. */
  lemma TurnFromZero(g: N.MemoryGraph, o: Options, kind: Classifier, e: Edge, f: Edge)
    requires e in g.Edges(0) && f in g.Edges(e.to) && AttributesAllowed(o, e.attributes)
    requires AttributesAllowed(o, f.attributes)
    ensures IsWalk(g, o, [0, e.to, f.to], [e, f])
    ensures FullCost(g, o, kind, [0, e.to, f.to], [e, f], 2)
      == WalkCost(g, o, kind, [0, e.to, f.to], [e, f], 2) + FullPenalty(g, o, kind, 0, e.to, f.to)
  {
    hide FullPenalty;
    hide BaseCost;
    hide AttributesAllowed;
    var (nodes, edges) := ([0, e.to, f.to], [e, f]);
    CostStep(g, o, kind, nodes, edges, 2);
    CostStep(g, o, kind, nodes, edges, 1);
    CostStep(g, o, kind, nodes, edges, 0);
  }

  lemma CostStep(g: N.MemoryGraph, o: Options, kind: Classifier, nodes: seq<int>, edges: seq<Edge>, n: nat)
    requires n <= |edges| < |nodes|
    ensures FullCost(g, o, kind, nodes, edges, n) == if n == 0 then 0.0 else
      FullCost(g, o, kind, nodes, edges, n - 1) + BaseCost(o, edges[n - 1].attributes, edges[n - 1].dist)
      + if n >= 2 then FullPenalty(g, o, kind, nodes[n - 2], nodes[n - 1], nodes[n]) else 0.0
    ensures WalkCost(g, o, kind, nodes, edges, n) == if n == 0 then 0.0 else
      WalkCost(g, o, kind, nodes, edges, n - 1) + BaseCost(o, edges[n - 1].attributes, edges[n - 1].dist)
      + if n >= 2 then Penalty(g, o, kind, nodes[n - 2], nodes[n - 1], nodes[n]) else 0.0
  {
    hide FullPenalty;
    hide BaseCost;
  }

  ghost predicate AllTurnsCharged(g: N.MemoryGraph, o: Options, kind: Classifier) {
    forall nodes, edges | IsWalk(g, o, nodes, edges) ::
      FullCost(g, o, kind, nodes, edges, |edges|) == WalkCost(g, o, kind, nodes, edges, |edges|)
  }

  /** Every turn of every walk is charged exactly when no turn from node 0 would cost anything. */
  lemma EveryTurnCharged(g: N.MemoryGraph, o: Options, kind: Classifier)
    ensures AllTurnsCharged(g, o, kind) <==> ZeroTurnsFree(g, o, kind)
  {
    hide FullPenalty;
    hide AttributesAllowed;
    hide FullCost;
    hide WalkCost;
    if ZeroTurnsFree(g, o, kind) {
      forall nodes, edges | IsWalk(g, o, nodes, edges)
        ensures FullCost(g, o, kind, nodes, edges, |edges|) == WalkCost(g, o, kind, nodes, edges, |edges|)
      {
        ChargedInFull(g, o, kind, nodes, edges, |edges|);
      }
    }
    if AllTurnsCharged(g, o, kind) {
      forall e, f | e in g.Edges(0) && f in g.Edges(e.to) && AttributesAllowed(o, e.attributes)
        && AttributesAllowed(o, f.attributes)
        ensures FullPenalty(g, o, kind, 0, e.to, f.to) == 0.0
      {
        TurnFromZero(g, o, kind, e, f);
        assert |[e, f]| == 2;
      }
    }
  }

  // ---- What this means for the answer of a search ----

  /** The least cost when every turn is charged, and attained. */
  ghost predicate IsCheapestInFull(g: N.MemoryGraph, o: Options, kind: Classifier, from: int, to: int, cost: real) {
    && (exists nodes, edges ::
      Connects(g, o, nodes, edges, from, to) && FullCost(g, o, kind, nodes, edges, |edges|) == cost)
    && (forall nodes, edges :: Connects(g, o, nodes, edges, from, to) ==>
      cost <= FullCost(g, o, kind, nodes, edges, |edges|))
  }

  /** Under the condition a cheapest walk is a cheapest walk with every turn charged. */
  lemma CheapestInFull(g: N.MemoryGraph, o: Options, kind: Classifier, from: int, to: int, cost: real)
    requires ZeroTurnsFree(g, o, kind)
    ensures IsCheapest(g, o, kind, from, to, cost) <==> IsCheapestInFull(g, o, kind, from, to, cost)
  {
    hide ZeroTurnsFree;
    hide FullCost;
    hide WalkCost;
    hide IsWalk;
    forall nodes, edges | Connects(g, o, nodes, edges, from, to)
      ensures |edges| < |nodes|
      ensures FullCost(g, o, kind, nodes, edges, |edges|) == WalkCost(g, o, kind, nodes, edges, |edges|)
    {
      WalkLength(g, o, nodes, edges);
      ChargedInFull(g, o, kind, nodes, edges, |edges|);
    }
  }

  lemma WalkLength(g: N.MemoryGraph, o: Options, nodes: seq<int>, edges: seq<Edge>)
    requires IsWalk(g, o, nodes, edges)
    ensures |edges| < |nodes|
  {}

  /** The answer of the turn-aware searches is then the minimum with every turn charged, and so is the path. */
  lemma AnswerInFull(g: N.MemoryGraph, from: int, to: int, o: Options, kind: Classifier, wantPath: bool, r: Outcome)
    requires Answers(g, from, to, o, kind, wantPath, r) && r.Found? && from != to
    requires ZeroTurnsFree(g, o, kind)
    ensures IsCheapestInFull(g, o, kind, from, to, r.cost)
    ensures wantPath ==> exists edges ::
      Connects(g, o, r.path, edges, from, to) && FullCost(g, o, kind, r.path, edges, |edges|) == r.cost
  {
    hide ZeroTurnsFree;
    hide FullCost;
    hide WalkCost;
    hide IsCheapest;
    hide IsCheapestInFull;
    CheapestInFull(g, o, kind, from, to, r.cost);
    if wantPath {
      var edges :| Connects(g, o, r.path, edges, from, to) && WalkCost(g, o, kind, r.path, edges, |edges|) == r.cost;
      ChargedInFull(g, o, kind, r.path, edges, |edges|);
    }
  }

  // ---- A turn that goes uncharged ----

  /** Two roads of length 1 in a row, from node 0 over node 1 to node 2. */
  function FreeRide(): N.MemoryGraph {
    N.MemoryGraph({0, 1, 2}, map[0 := [Road(1)], 1 := [Road(2)]])
  }

  function Road(to: int): Edge {
    Edge(to, 1.0, Attributes(50.0, 0.0, 0.0, ""))
  }

  /** Every left turn costs 5. */
  function LeftTurnsCost(): Options {
    Options(AStar, Distance, None, Weights(5.0, 0.0, 0.0, 0.0, 130.0, 0.0, 0.0, false, 0.0), false)
  }

  /** No road leads on from node 2. */
  lemma EndOfRoad(nodes: seq<int>, edges: seq<Edge>, i: nat)
    requires IsWalk(FreeRide(), LeftTurnsCost(), nodes, edges) && i < |edges|
    ensures edges[i].to == nodes[i + 1]
    ensures nodes[i] == 0 ==> edges[i] == Road(1)
    ensures nodes[i] == 1 ==> edges[i] == Road(2)
    ensures nodes[i] != 2
  {
    var e := edges[i];
    assert e in FreeRide().Edges(nodes[i]);
  }

  lemma OnlyWalk(nodes: seq<int>, edges: seq<Edge>)
    requires Connects(FreeRide(), LeftTurnsCost(), nodes, edges, 0, 2)
    ensures nodes == [0, 1, 2] && edges == [Road(1), Road(2)]
  {
    forall i: nat | i < |edges|
      ensures edges[i].to == nodes[i + 1] && nodes[i] != 2
      ensures nodes[i] == 0 ==> edges[i] == Road(1)
      ensures nodes[i] == 1 ==> edges[i] == Road(2)
    {
      EndOfRoad(nodes, edges, i);
    }
    assert |edges| >= 2 && nodes[1] == 1 && nodes[2] == 2;
    assert |edges| == 2;
    assert edges == [edges[0], edges[1]] && nodes == [nodes[0], nodes[1], nodes[2]];
  }

  /** With a node 0 the condition can fail: all turns being left turns, the answer from 0 to 2 is 2, although
      every walk there costs at least 7 with its turn charged. */
  lemma UnchargedTurn(kind: Classifier, wantPath: bool, r: Outcome)
    requires kind(0, 1, 2) == Left
    requires Answers(FreeRide(), 0, 2, LeftTurnsCost(), kind, wantPath, r)
    ensures r.Found? && r.cost == 2.0
    ensures IsCheapestInFull(FreeRide(), LeftTurnsCost(), kind, 0, 2, 7.0)
    ensures !ZeroTurnsFree(FreeRide(), LeftTurnsCost(), kind)
  {
    var (g, o) := (FreeRide(), LeftTurnsCost());
    var (nodes, edges) := ([0, 1, 2], [Road(1), Road(2)]);
    assert g.Edges(0) == [Road(1)] && g.Edges(1) == [Road(2)];
    TurnFromZero(g, o, kind, Road(1), Road(2));
    assert Connects(g, o, nodes, edges, 0, 2);
    CostStep(g, o, kind, nodes, edges, 2);
    CostStep(g, o, kind, nodes, edges, 1);
    CostStep(g, o, kind, nodes, edges, 0);
    assert FullPenalty(g, o, kind, 0, 1, 2) == 5.0;
    hide FullCost;
    hide WalkCost;
    hide IsWalk;
    hide FullPenalty;
    forall ns, es | Connects(g, o, ns, es, 0, 2)
      ensures ns == nodes && es == edges
    {
      OnlyWalk(ns, es);
    }
  }
}
