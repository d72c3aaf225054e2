/** The turn-aware search over (previous, current) states (`astar` in core/router.go). */
module TurnSearch {
  import opened Common
  import opened RouteCosts
  import opened SearchTheory
  import opened BestFirst
  import NodeSearch

  datatype TurnKind = Straight | Left | Right | UTurn

  /** Classifies the turn at the second of three nodes; the trigonometry behind it is not modelled. */
  type Classifier = (int, int, int) -> TurnKind

  const NO_LEFT_TURN_PENALTY := 1000000.0

  function CrossingPenalty(o: Options): real {
    Max(0.0, o.weights.crossing) + Max(0.0, o.weights.trafficLight)
  }

  predicate TurnDirections(o: Options) {
    o.weights.noLeftTurn || o.weights.leftTurn != 0.0 || o.weights.rightTurn != 0.0 || o.weights.uTurn != 0.0
  }

  /** The cost of passing `cur` on the way from `prev` to `next`: the crossing, and the kind of the turn. */
  function FullPenalty(g: NodeSearch.MemoryGraph, o: Options, kind: Classifier, prev: int, cur: int, next: int): real {
    var crossing := if CrossingPenalty(o) > 0.0 && |g.Edges(cur)| > 2 then CrossingPenalty(o) else 0.0;
    if !TurnDirections(o) || prev !in g.coords || cur !in g.coords || next !in g.coords then crossing else
    match kind(prev, cur, next)
    case Left => crossing + if o.weights.noLeftTurn then NO_LEFT_TURN_PENALTY else o.weights.leftTurn
    case Right => crossing + o.weights.rightTurn
    case UTurn => crossing + o.weights.uTurn
    case Straight => crossing
  }

  /** What the searches charge: the id 0 stands for "no previous node", also where a node has that id. */
  function Penalty(g: NodeSearch.MemoryGraph, o: Options, kind: Classifier, prev: int, cur: int, next: int): real {
    if prev == 0 then 0.0 else FullPenalty(g, o, kind, prev, cur, next)
  }

  /** The turn weights a query may use without making a walk cheaper by a detour. */
  predicate NonNegativeWeights(o: Options) {
    o.weights.leftTurn >= 0.0 && o.weights.rightTurn >= 0.0 && o.weights.uTurn >= 0.0
  }

  predicate NeedsTurnState(o: Options) {
    || o.weights.noLeftTurn || o.weights.leftTurn != 0.0 || o.weights.rightTurn != 0.0 || o.weights.uTurn != 0.0
    || o.weights.crossing != 0.0 || o.weights.trafficLight != 0.0
  }

  lemma PenaltyNonNegative(g: NodeSearch.MemoryGraph, o: Options, kind: Classifier, prev: int, cur: int, next: int)
    requires NonNegativeWeights(o)
    ensures Penalty(g, o, kind, prev, cur, next) >= 0.0
  {}

  lemma NoTurnStateNoPenalty(g: NodeSearch.MemoryGraph, o: Options, kind: Classifier, prev: int, cur: int, next: int)
    requires !NeedsTurnState(o)
    ensures Penalty(g, o, kind, prev, cur, next) == 0.0
  {}

  datatype TurnState = TurnState(prev: int, cur: int)

  function Arcs(g: NodeSearch.MemoryGraph, o: Options, kind: Classifier, s: TurnState): Edge -> Arc<TurnState> {
    (e: Edge) => Arc(TurnState(s.cur, e.to),
                     BaseCost(o, e.attributes, e.dist) + Penalty(g, o, kind, s.prev, s.cur, e.to))
  }

  ghost function TurnProblem(g: NodeSearch.MemoryGraph, o: Options, kind: Classifier, from: int, to: int,
                             estimate: int -> real): Problem<TurnState> {
    Problem((s: TurnState) => UsableArcs(g.Edges(s.cur), NodeSearch.Usable(o), Arcs(g, o, kind, s)),
            TurnState(0, from), (s: TurnState) => s.cur == to, (s: TurnState) => estimate(s.cur),
            {TurnState(0, from)} + set id, e | id in g.adj && e in g.adj[id] :: TurnState(id, e.to))
  }

  lemma ArcIsEdge(g: NodeSearch.MemoryGraph, o: Options, kind: Classifier, s: TurnState, a: Arc<TurnState>)
    returns (e: Edge)
    requires a in UsableArcs(g.Edges(s.cur), NodeSearch.Usable(o), Arcs(g, o, kind, s))
    ensures e in g.Edges(s.cur) && AttributesAllowed(o, e.attributes) && a == Arcs(g, o, kind, s)(e)
  {
    UsableArcsMembers(g.Edges(s.cur), NodeSearch.Usable(o), Arcs(g, o, kind, s), a);
    e :| e in g.Edges(s.cur) && NodeSearch.Usable(o)(e) && a == Arcs(g, o, kind, s)(e);
  }

  lemma TurnProblemIsWellPosed(g: NodeSearch.MemoryGraph, o: Options, kind: Classifier, from: int, to: int,
      estimate: int -> real)
    requires NodeSearch.NonNegativeLengths(g) && NonNegativeWeights(o)
    requires Admissible(TurnProblem(g, o, kind, from, to, estimate)) && forall id :: estimate(id) >= 0.0
    ensures WellPosed(TurnProblem(g, o, kind, from, to, estimate))
  {
    var p := TurnProblem(g, o, kind, from, to, estimate);
    forall s: TurnState, a | a in p.arcs(s)
      ensures a.cost >= 0.0 && a.to in p.universe
    {
      var e := ArcIsEdge(g, o, kind, s, a);
      BaseCostNonNegative(o, e.attributes, e.dist);
      PenaltyNonNegative(g, o, kind, s.prev, s.cur, e.to);
      assert s.cur in g.adj && e in g.adj[s.cur];
    }
  }

  // ---- Walks of the road graph and what they cost with turns ----

  /** Allowed edges leading from node to node. */
  ghost predicate IsWalk(g: NodeSearch.MemoryGraph, o: Options, nodes: seq<int>, edges: seq<Edge>) {
    && |nodes| == |edges| + 1
    && forall i :: 0 <= i < |edges| ==>
         edges[i] in g.Edges(nodes[i]) && AttributesAllowed(o, edges[i].attributes) && edges[i].to == nodes[i + 1]
  }

  /** Edge costs plus the penalty of every passed node, for the first `n` edges. */
  ghost function WalkCost(g: NodeSearch.MemoryGraph, o: Options, kind: Classifier, nodes: seq<int>, edges: seq<Edge>,
      n: nat): real
    requires n <= |edges| < |nodes|
  {
    if n == 0 then 0.0 else
      WalkCost(g, o, kind, nodes, edges, n - 1)
      + BaseCost(o, edges[n - 1].attributes, edges[n - 1].dist)
      + if n >= 2 then Penalty(g, o, kind, nodes[n - 2], nodes[n - 1], nodes[n]) else 0.0
  }

  /** The state a walk is in after `i` edges. */
  ghost function StateAt(nodes: seq<int>, i: nat): TurnState
    requires i < |nodes|
  {
    TurnState(if i == 0 then 0 else nodes[i - 1], nodes[i])
  }

  /** Every walk of the road graph is a trail of turn states at the walk's cost with turns. */
  lemma WalkGivesTrail(g: NodeSearch.MemoryGraph, o: Options, kind: Classifier, to: int, estimate: int -> real,
                       nodes: seq<int>, edges: seq<Edge>) returns (t: seq<Stop<TurnState>>)
    requires IsWalk(g, o, nodes, edges)
    ensures Trail(TurnProblem(g, o, kind, nodes[0], to, estimate).arcs, t) && |t| == |nodes|
    ensures forall i :: 0 <= i < |t| ==> t[i] == Stop(StateAt(nodes, i), WalkCost(g, o, kind, nodes, edges, i))
  {
    var p := TurnProblem(g, o, kind, nodes[0], to, estimate);
    t := seq(|nodes|, i requires 0 <= i < |nodes| => Stop(StateAt(nodes, i), WalkCost(g, o, kind, nodes, edges, i)));
    forall i | 0 <= i < |t| - 1
      ensures Step(p.arcs, t[i], t[i + 1])
    {
      var s := StateAt(nodes, i);
      var e := edges[i];
      UsableArcsComplete(g.Edges(s.cur), NodeSearch.Usable(o), Arcs(g, o, kind, s), e);
      assert t[i + 1].cost - t[i].cost == Arcs(g, o, kind, s)(e).cost;
      assert Arc(t[i + 1].at, t[i + 1].cost - t[i].cost) == Arcs(g, o, kind, s)(e);
    }
  }

  lemma StartCost(g: NodeSearch.MemoryGraph, o: Options, kind: Classifier, nodes: seq<int>, edges: seq<Edge>)
    requires |edges| < |nodes|
    ensures WalkCost(g, o, kind, nodes, edges, 0) == 0.0
  {}

  /** Conversely, the current nodes along a trail of turn states form a walk of that cost. */
  lemma {:induction false} TrailGivesWalk(g: NodeSearch.MemoryGraph, o: Options, kind: Classifier, from: int, to: int,
                                          estimate: int -> real, t: seq<Stop<TurnState>>, n: nat)
    returns (nodes: seq<int>, edges: seq<Edge>)
    requires Trail(TurnProblem(g, o, kind, from, to, estimate).arcs, t) && t[0].at == TurnState(0, from) && n < |t|
    ensures IsWalk(g, o, nodes, edges) && |edges| == n
    ensures forall i :: 0 <= i <= n ==> StateAt(nodes, i) == t[i].at
    ensures WalkCost(g, o, kind, nodes, edges, n) == t[n].cost
    decreases n
  {
    hide BaseCost;
    hide Penalty;
    hide UsableArcs;
    hide WalkCost;
    var p := TurnProblem(g, o, kind, from, to, estimate);
    if n == 0 {
      StartCost(g, o, kind, [from], []);
      nodes, edges := [from], [];
    } else {
      var before, edgesBefore := TrailGivesWalk(g, o, kind, from, to, estimate, t, n - 1);
      assert Step(p.arcs, t[n - 1], t[n]);
      var s := t[n - 1].at;
      var e := ArcIsEdge(g, o, kind, s, Arc(t[n].at, t[n].cost - t[n - 1].cost));
      ExtendWalk(g, o, kind, before, edgesBefore, e);
      nodes, edges := before + [e.to], edgesBefore + [e];
    }
  }

  lemma ExtendWalk(g: NodeSearch.MemoryGraph, o: Options, kind: Classifier, nodes: seq<int>, edges: seq<Edge>, e: Edge)
    requires IsWalk(g, o, nodes, edges)
    requires e in g.Edges(nodes[|edges|]) && AttributesAllowed(o, e.attributes)
    ensures IsWalk(g, o, nodes + [e.to], edges + [e])
    ensures forall i :: 0 <= i < |nodes| ==> StateAt(nodes + [e.to], i) == StateAt(nodes, i)
    ensures StateAt(nodes + [e.to], |nodes|) == TurnState(nodes[|edges|], e.to)
    ensures WalkCost(g, o, kind, nodes + [e.to], edges + [e], |edges| + 1)
      == WalkCost(g, o, kind, nodes, edges, |edges|) + BaseCost(o, e.attributes, e.dist)
         + Penalty(g, o, kind, StateAt(nodes, |edges|).prev, nodes[|edges|], e.to)
  {
    PrefixCost(g, o, kind, nodes, edges, e.to, e, |edges|);
  }

  lemma {:induction false} PrefixCost(g: NodeSearch.MemoryGraph, o: Options, kind: Classifier, nodes: seq<int>,
      edges: seq<Edge>, node: int, edge: Edge, n: nat)
    requires n <= |edges| < |nodes|
    ensures WalkCost(g, o, kind, nodes + [node], edges + [edge], n) == WalkCost(g, o, kind, nodes, edges, n)
  {
    if n > 0 {
      PrefixCost(g, o, kind, nodes, edges, node, edge, n - 1);
    }
  }

  // ---- The search ----

  /** A walk from `from` to `to` and its cost. */
  ghost predicate Connects(g: NodeSearch.MemoryGraph, o: Options, nodes: seq<int>, edges: seq<Edge>, from: int,
      to: int) {
    IsWalk(g, o, nodes, edges) && nodes[0] == from && nodes[|edges|] == to
  }

  ghost predicate IsCheapest(g: NodeSearch.MemoryGraph, o: Options, kind: Classifier, from: int, to: int, cost: real) {
    && (exists nodes, edges ::
      Connects(g, o, nodes, edges, from, to) && WalkCost(g, o, kind, nodes, edges, |edges|) == cost)
    && (forall nodes, edges :: Connects(g, o, nodes, edges, from, to) ==>
      cost <= WalkCost(g, o, kind, nodes, edges, |edges|))
  }

  ghost predicate IsCheapestPath(g: NodeSearch.MemoryGraph, o: Options, kind: Classifier, from: int, to: int,
      path: seq<int>, cost: real) {
    exists edges :: Connects(g, o, path, edges, from, to) && WalkCost(g, o, kind, path, edges, |edges|) == cost
  }

  /** The estimate never exceeds what any walk to the target costs, even without its turns. */
  ghost predicate EstimateIsLower(g: NodeSearch.MemoryGraph, o: Options, to: int, estimate: int -> real) {
    forall nodes, edges, from :: Connects(g, o, nodes, edges, from, to) ==>
      estimate(from) <= PlainCost(o, edges)
  }

  /** The cost of a walk without its turns. */
  ghost function PlainCost(o: Options, edges: seq<Edge>): real {
    if edges == [] then 0.0 else
      PlainCost(o, edges[..|edges| - 1]) + BaseCost(o, edges[|edges| - 1].attributes, edges[|edges| - 1].dist)
  }

  lemma {:induction false} PlainBelowTrail(g: NodeSearch.MemoryGraph, o: Options, kind: Classifier, from: int, to: int,
                                           estimate: int -> real, t: seq<Stop<TurnState>>, n: nat)
    returns (nodes: seq<int>, edges: seq<Edge>)
    requires Trail(TurnProblem(g, o, kind, from, to, estimate).arcs, t) && NonNegativeWeights(o) && n < |t|
    ensures IsWalk(g, o, nodes, edges) && |edges| == n
    ensures nodes[0] == t[0].at.cur && nodes[n] == t[n].at.cur
    ensures PlainCost(o, edges) <= t[n].cost
    decreases n
  {
    hide BaseCost;
    hide Penalty;
    hide UsableArcs;
    var p := TurnProblem(g, o, kind, from, to, estimate);
    if n == 0 {
      nodes, edges := [t[0].at.cur], [];
    } else {
      nodes, edges := PlainBelowTrail(g, o, kind, from, to, estimate, t, n - 1);
      assert Step(p.arcs, t[n - 1], t[n]);
      var s := t[n - 1].at;
      var e := ArcIsEdge(g, o, kind, s, Arc(t[n].at, t[n].cost - t[n - 1].cost));
      PenaltyNonNegative(g, o, kind, s.prev, s.cur, e.to);
      ExtendWalk(g, o, kind, nodes, edges, e);
      assert (edges + [e])[..n - 1] == edges;
      nodes, edges := nodes + [e.to], edges + [e];
    }
  }

  /** A lower bound on walks without turns stays one for the states of the turn-aware search. */
  lemma LowerBoundIsAdmissible(g: NodeSearch.MemoryGraph, o: Options, kind: Classifier, from: int, to: int,
      estimate: int -> real)
    requires NonNegativeWeights(o) && EstimateIsLower(g, o, to, estimate)
    ensures Admissible(TurnProblem(g, o, kind, from, to, estimate))
  {
    var p := TurnProblem(g, o, kind, from, to, estimate);
    forall t: seq<Stop<TurnState>> | Trail(p.arcs, t) && p.goal(t[|t| - 1].at)
      ensures p.estimate(t[0].at) <= t[|t| - 1].cost
    {
      var nodes, edges := PlainBelowTrail(g, o, kind, from, to, estimate, t, |t| - 1);
      assert Connects(g, o, nodes, edges, nodes[0], to);
    }
  }

  /** The minimum over trails of turn states is the minimum over walks with their turns. */
  lemma MinimumIsCheapest(g: NodeSearch.MemoryGraph, o: Options, kind: Classifier, from: int, to: int,
      estimate: int -> real, cost: real)
    requires IsMinimum(TurnProblem(g, o, kind, from, to, estimate), cost)
    ensures IsCheapest(g, o, kind, from, to, cost)
  {
    var p := TurnProblem(g, o, kind, from, to, estimate);
    var t: seq<Stop<TurnState>> :| Solves(p, t) && t[|t| - 1].cost == cost;
    var nodes, edges := TrailGivesWalk(g, o, kind, from, to, estimate, t, |t| - 1);
    assert StateAt(nodes, 0) == t[0].at && StateAt(nodes, |edges|) == t[|t| - 1].at;
    assert Connects(g, o, nodes, edges, from, to);
    forall nodes, edges | Connects(g, o, nodes, edges, from, to)
      ensures cost <= WalkCost(g, o, kind, nodes, edges, |edges|)
    {
      var t' := WalkGivesTrail(g, o, kind, to, estimate, nodes, edges);
      assert Solves(p, t');
    }
  }

  lemma WalkSolves(g: NodeSearch.MemoryGraph, o: Options, kind: Classifier, from: int, to: int, estimate: int -> real,
                   nodes: seq<int>, edges: seq<Edge>)
    requires Connects(g, o, nodes, edges, from, to)
    ensures exists t: seq<Stop<TurnState>> :: Solves(TurnProblem(g, o, kind, from, to, estimate), t)
  {
    var t := WalkGivesTrail(g, o, kind, to, estimate, nodes, edges);
    assert Solves(TurnProblem(g, o, kind, from, to, estimate), t);
  }

  lemma NoTrailNoWalk(g: NodeSearch.MemoryGraph, o: Options, kind: Classifier, from: int, to: int,
      estimate: int -> real)
    requires !exists t: seq<Stop<TurnState>> :: Solves(TurnProblem(g, o, kind, from, to, estimate), t)
    ensures !exists nodes, edges :: Connects(g, o, nodes, edges, from, to)
  {
    hide *;
    if nodes, edges :| Connects(g, o, nodes, edges, from, to) {
      WalkSolves(g, o, kind, from, to, estimate, nodes, edges);
    }
  }

  /** The nodes of a path of turn states. */
  function NodesOf(states: seq<TurnState>): (nodes: seq<int>)
    ensures |nodes| == |states| && forall i :: 0 <= i < |nodes| ==> nodes[i] == states[i].cur
  {
    seq(|states|, i requires 0 <= i < |states| => states[i].cur)
  }

  lemma PathIsCheapest(g: NodeSearch.MemoryGraph, o: Options, kind: Classifier, from: int, to: int,
      estimate: int -> real, states: seq<TurnState>, cost: real)
    requires IsPath(TurnProblem(g, o, kind, from, to, estimate), states, cost)
    ensures IsCheapestPath(g, o, kind, from, to, NodesOf(states), cost)
  {
    var p := TurnProblem(g, o, kind, from, to, estimate);
    var t: seq<Stop<TurnState>> :| Solves(p, t) && Visits(t, states) && t[|t| - 1].cost == cost;
    var nodes, edges := TrailGivesWalk(g, o, kind, from, to, estimate, t, |t| - 1);
    forall i | 0 <= i < |nodes|
      ensures nodes[i] == NodesOf(states)[i]
    {
      assert StateAt(nodes, i) == t[i].at;
    }
    assert nodes == NodesOf(states);
    assert Connects(g, o, nodes, edges, from, to);
  }

  method Astar(g: NodeSearch.MemoryGraph, from: int, to: int, o: Options, kind: Classifier, estimate: int -> real,
      wantPath: bool)
    returns (r: Outcome)
    requires NodeSearch.NonNegativeLengths(g) && NonNegativeWeights(o)
    requires EstimateIsLower(g, o, to, estimate) && forall id :: estimate(id) >= 0.0
    ensures Answers(g, from, to, o, kind, wantPath, r)
  {
    if from == to {
      return Found(if wantPath then [from] else [], 0.0);
    }
    if from !in g.coords {
      return StartUnreachable;
    }
    if to !in g.coords {
      return TargetUnreachable;
    }
    if g.Edges(from) == [] {
      return StartUnreachable;
    }
    hide IsMinimum;
    hide IsPath;
    hide UsableArcs;
    ghost var p := TurnProblem(g, o, kind, from, to, estimate);
    LowerBoundIsAdmissible(g, o, kind, from, to, estimate);
    TurnProblemIsWellPosed(g, o, kind, from, to, estimate);
    var net :=
      Network((s: TurnState) => g.Edges(s.cur), (s: TurnState) => NodeSearch.Usable(o), (s: TurnState) =>
      Arcs(g, o, kind, s));
    var found :=
      Search(p, net, TurnState(0, from), (s: TurnState) => s.cur == to, (s: TurnState) => estimate(s.cur), wantPath);
    match found {
      case Exhausted =>
        NoTrailNoWalk(g, o, kind, from, to, estimate);
        r := NoPath;
      case Reached(_, states, cost) =>
        MinimumIsCheapest(g, o, kind, from, to, estimate, cost);
        if wantPath {
          PathIsCheapest(g, o, kind, from, to, estimate, states, cost);
        }
        r := Found(NodesOf(states), cost);
    }
  }

  ghost predicate Answers(g: NodeSearch.MemoryGraph, from: int, to: int, o: Options, kind: Classifier, wantPath: bool,
      r: Outcome) {
    if from == to then r == Found(if wantPath then [from] else [], 0.0)
    else if from !in g.coords then r == StartUnreachable
    else if to !in g.coords then r == TargetUnreachable
    else match r
      case StartUnreachable => g.Edges(from) == []
      case TargetUnreachable => false
      case NoPath => g.Edges(from) != [] && !exists nodes, edges :: Connects(g, o, nodes, edges, from, to)
      case Found(path, cost) =>
        && g.Edges(from) != []
        && IsCheapest(g, o, kind, from, to, cost)
        && if wantPath then IsCheapestPath(g, o, kind, from, to, path, cost) else path == []
  }

  // ---- Without turn options the node search gives the same minimum ----

  lemma {:induction false} TurnsCostNothing(g: NodeSearch.MemoryGraph, o: Options, kind: Classifier, nodes: seq<int>,
      edges: seq<Edge>, n: nat)
    requires !NeedsTurnState(o) && n <= |edges| < |nodes|
    ensures WalkCost(g, o, kind, nodes, edges, n) == PlainCost(o, edges[..n])
  {
    if n > 0 {
      TurnsCostNothing(g, o, kind, nodes, edges, n - 1);
      assert edges[..n][..n - 1] == edges[..n - 1];
      if n >= 2 {
        NoTurnStateNoPenalty(g, o, kind, nodes[n - 2], nodes[n - 1], nodes[n]);
      }
    }
  }

  lemma WalkGivesNodeTrail(g: NodeSearch.MemoryGraph, o: Options, to: int, estimate: int -> real, nodes: seq<int>,
      edges: seq<Edge>)
    returns (t: seq<Stop<int>>)
    requires IsWalk(g, o, nodes, edges)
    ensures Trail(NodeSearch.QueryProblem(g, o, nodes[0], to, estimate).arcs, t) && |t| == |nodes|
    ensures forall i :: 0 <= i < |t| ==> t[i] == Stop(nodes[i], PlainCost(o, edges[..i]))
  {
    hide BaseCost;
    hide UsableArcs;
    hide AttributesAllowed;
    var p := NodeSearch.QueryProblem(g, o, nodes[0], to, estimate);
    t := seq(|nodes|, i requires 0 <= i < |nodes| => Stop(nodes[i], PlainCost(o, edges[..i])));
    forall i | 0 <= i < |t| - 1
      ensures Step(p.arcs, t[i], t[i + 1])
    {
      UsableArcsComplete(g.Edges(nodes[i]), NodeSearch.Usable(o), NodeSearch.ArcOf(o), edges[i]);
      assert edges[..i + 1][..i] == edges[..i];
      assert Arc(t[i + 1].at, t[i + 1].cost - t[i].cost) == NodeSearch.ArcOf(o)(edges[i]);
    }
  }

  lemma {:induction false} NodeTrailGivesWalk(g: NodeSearch.MemoryGraph, o: Options, from: int, to: int,
      estimate: int -> real, t: seq<Stop<int>>, n: nat) returns (nodes: seq<int>, edges: seq<Edge>)
    requires Trail(NodeSearch.QueryProblem(g, o, from, to, estimate).arcs, t) && n < |t|
    ensures IsWalk(g, o, nodes, edges) && |edges| == n
    ensures nodes[0] == t[0].at && nodes[n] == t[n].at && PlainCost(o, edges) == t[n].cost
    decreases n
  {
    hide BaseCost;
    hide UsableArcs;
    hide AttributesAllowed;
    if n == 0 {
      nodes, edges := [t[0].at], [];
    } else {
      nodes, edges := NodeTrailGivesWalk(g, o, from, to, estimate, t, n - 1);
      var p := NodeSearch.QueryProblem(g, o, from, to, estimate);
      assert Step(p.arcs, t[n - 1], t[n]);
      var v := t[n - 1].at;
      var a := Arc(t[n].at, t[n].cost - t[n - 1].cost);
      UsableArcsMembers(g.Edges(v), NodeSearch.Usable(o), NodeSearch.ArcOf(o), a);
      var e :| e in g.Edges(v) && NodeSearch.Usable(o)(e) && a == NodeSearch.ArcOf(o)(e);
      assert (edges + [e])[..n - 1] == edges;
      nodes, edges := nodes + [e.to], edges + [e];
    }
  }

  lemma AsNodeTrail(g: NodeSearch.MemoryGraph, o: Options, kind: Classifier, from: int, to: int, estimate: int -> real,
                    nodes: seq<int>, edges: seq<Edge>) returns (t: seq<Stop<int>>)
    requires !NeedsTurnState(o) && Connects(g, o, nodes, edges, from, to)
    ensures Solves(NodeSearch.QueryProblem(g, o, from, to, estimate), t)
    ensures t[|t| - 1].cost == WalkCost(g, o, kind, nodes, edges, |edges|)
  {
    t := WalkGivesNodeTrail(g, o, to, estimate, nodes, edges);
    TurnsCostNothing(g, o, kind, nodes, edges, |edges|);
  }

  lemma AsWalk(g: NodeSearch.MemoryGraph, o: Options, kind: Classifier, from: int, to: int, estimate: int -> real,
      t: seq<Stop<int>>)
    returns (nodes: seq<int>, edges: seq<Edge>)
    requires !NeedsTurnState(o) && Solves(NodeSearch.QueryProblem(g, o, from, to, estimate), t)
    ensures Connects(g, o, nodes, edges, from, to)
    ensures t[|t| - 1].cost == WalkCost(g, o, kind, nodes, edges, |edges|)
  {
    nodes, edges := NodeTrailGivesWalk(g, o, from, to, estimate, t, |t| - 1);
    TurnsCostNothing(g, o, kind, nodes, edges, |edges|);
    assert edges[..|edges|] == edges;
  }

  /** With no turn option set, both searches look for the same minimum. */
  lemma NodeSearchAgrees(g: NodeSearch.MemoryGraph, o: Options, kind: Classifier, from: int, to: int,
      estimate: int -> real, cost: real)
    requires !NeedsTurnState(o)
    ensures IsCheapest(g, o, kind, from, to, cost) <==>
      IsMinimum(NodeSearch.QueryProblem(g, o, from, to, estimate), cost)
  {
    hide WalkCost;
    hide UsableArcs;
    hide Step;
    hide BaseCost;
    hide AttributesAllowed;
    var p := NodeSearch.QueryProblem(g, o, from, to, estimate);
    if IsCheapest(g, o, kind, from, to, cost) {
      var nodes, edges :| Connects(g, o, nodes, edges, from, to) && WalkCost(g, o, kind, nodes, edges, |edges|) == cost;
      var t := AsNodeTrail(g, o, kind, from, to, estimate, nodes, edges);
      forall t: seq<Stop<int>> | Solves(p, t)
        ensures cost <= t[|t| - 1].cost
      {
        var nodes, edges := AsWalk(g, o, kind, from, to, estimate, t);
      }
    }
    if IsMinimum(p, cost) {
      var t: seq<Stop<int>> :| Solves(p, t) && t[|t| - 1].cost == cost;
      var nodes, edges := AsWalk(g, o, kind, from, to, estimate, t);
      forall nodes, edges | Connects(g, o, nodes, edges, from, to)
        ensures cost <= WalkCost(g, o, kind, nodes, edges, |edges|)
      {
        var t := AsNodeTrail(g, o, kind, from, to, estimate, nodes, edges);
      }
    }
  }

  /** The same lower bound serves the node search. */
  lemma LowerBoundServesNodeSearch(g: NodeSearch.MemoryGraph, o: Options, from: int, to: int, estimate: int -> real)
    requires EstimateIsLower(g, o, to, estimate)
    ensures Admissible(NodeSearch.QueryProblem(g, o, from, to, estimate))
  {
    var p := NodeSearch.QueryProblem(g, o, from, to, estimate);
    forall t: seq<Stop<int>> | Trail(p.arcs, t) && p.goal(t[|t| - 1].at)
      ensures p.estimate(t[0].at) <= t[|t| - 1].cost
    {
      var nodes, edges := NodeTrailGivesWalk(g, o, from, to, estimate, t, |t| - 1);
      assert Connects(g, o, nodes, edges, nodes[0], to);
    }
  }
}
