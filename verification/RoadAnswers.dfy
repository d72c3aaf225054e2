/** What an answered route means on the road: every edge of it may be used by the vehicle, each is charged for the
    speed driven on it, and no other such route is charged less (core/router_node.go, core/router_node_index.go). */
module RoadAnswers {
  import opened Common
  import opened RouteCosts
  import opened RoadCharges
  import opened SearchTheory
  import opened GraphStore
  import opened GraphExport
  import opened AttributeCosts
  import T = TurnSearch
  import N = NodeSearch
  import I = IndexSearch
  import S = StoredRoutes

  function Sum(costs: seq<real>): real {
    if costs == [] then 0.0 else Sum(costs[..|costs| - 1]) + costs[|costs| - 1]
  }

  /** Edge number `i` leads from node to node, may be used, and is charged as said. */
  ghost predicate Drivable(g: N.MemoryGraph, o: Options, nodes: seq<int>, edges: seq<Edge>, costs: seq<real>, i: nat)
    requires |nodes| == |edges| + 1 == |costs| + 1 && i < |edges|
  {
    && nodes[i] in g.adj && edges[i] in g.adj[nodes[i]] && edges[i].to == nodes[i + 1]
    && MayUse(o, edges[i].attributes) && Charge(o, edges[i], costs[i])
  }

  /** A drivable route with what each of its edges is charged. */
  ghost predicate IsRoute(g: N.MemoryGraph, o: Options, nodes: seq<int>, edges: seq<Edge>, costs: seq<real>,
      from: int, to: int) {
    && |nodes| == |edges| + 1 == |costs| + 1 && nodes[0] == from && nodes[|edges|] == to
    && forall i :: 0 <= i < |edges| ==> Drivable(g, o, nodes, edges, costs, i)
  }

  /** The least sum over all routes, and attained. */
  ghost predicate IsLeast(g: N.MemoryGraph, o: Options, from: int, to: int, cost: real) {
    && (exists nodes, edges, costs :: IsRoute(g, o, nodes, edges, costs, from, to) && Sum(costs) == cost)
    && (forall nodes, edges, costs :: IsRoute(g, o, nodes, edges, costs, from, to) ==> cost <= Sum(costs))
  }

  /** The nodes are those of a route charged so much. */
  ghost predicate IsRouteAt(g: N.MemoryGraph, o: Options, nodes: seq<int>, from: int, to: int, cost: real) {
    exists edges, costs :: IsRoute(g, o, nodes, edges, costs, from, to) && Sum(costs) == cost
  }

  // ---- Routes and the walks of the searches ----

  function Costs(o: Options, edges: seq<Edge>): (costs: seq<real>)
    ensures |costs| == |edges|
    ensures forall i :: 0 <= i < |costs| ==> costs[i] == BaseCost(o, edges[i].attributes, edges[i].dist)
  {
    seq(|edges|, i requires 0 <= i < |edges| => BaseCost(o, edges[i].attributes, edges[i].dist))
  }

  lemma {:induction false} SumIsPlain(o: Options, edges: seq<Edge>, costs: seq<real>)
    requires costs == Costs(o, edges)
    ensures Sum(costs) == T.PlainCost(o, edges)
  {
    hide BaseCost;
    if edges != [] {
      var n := |edges| - 1;
      assert costs[..n] == Costs(o, edges[..n]);
      SumIsPlain(o, edges[..n], costs[..n]);
    }
  }

  lemma WalkIsRoute(g: N.MemoryGraph, o: Options, nodes: seq<int>, edges: seq<Edge>, from: int, to: int)
    requires T.Connects(g, o, nodes, edges, from, to)
    ensures IsRoute(g, o, nodes, edges, Costs(o, edges), from, to)
    ensures Sum(Costs(o, edges)) == T.PlainCost(o, edges)
  {
    hide BaseCost;
    hide Charge;
    hide MayUse;
    hide AttributesAllowed;
    var costs := Costs(o, edges);
    forall i: nat | i < |edges|
      ensures Drivable(g, o, nodes, edges, costs, i)
    {
      MayUseIsAllowed(o, edges[i].attributes);
      CostIsCharge(o, edges[i], costs[i]);
    }
    SumIsPlain(o, edges, costs);
  }

  lemma RouteIsWalk(g: N.MemoryGraph, o: Options, nodes: seq<int>, edges: seq<Edge>, costs: seq<real>, from: int,
      to: int)
    requires IsRoute(g, o, nodes, edges, costs, from, to)
    ensures T.Connects(g, o, nodes, edges, from, to) && Sum(costs) == T.PlainCost(o, edges)
  {
    hide BaseCost;
    hide Charge;
    hide MayUse;
    hide AttributesAllowed;
    forall i: nat | i < |edges|
      ensures edges[i] in g.Edges(nodes[i]) && AttributesAllowed(o, edges[i].attributes)
      ensures edges[i].to == nodes[i + 1] && costs[i] == Costs(o, edges)[i]
    {
      assert Drivable(g, o, nodes, edges, costs, i);
      MayUseIsAllowed(o, edges[i].attributes);
      CostIsCharge(o, edges[i], costs[i]);
    }
    assert costs == Costs(o, edges);
    SumIsPlain(o, edges, costs);
  }

  lemma SolutionIsRoute(g: N.MemoryGraph, o: Options, from: int, to: int, estimate: int -> real, t: seq<Stop<int>>)
    returns (nodes: seq<int>, edges: seq<Edge>, costs: seq<real>)
    requires Solves(N.QueryProblem(g, o, from, to, estimate), t)
    ensures IsRoute(g, o, nodes, edges, costs, from, to) && Sum(costs) == t[|t| - 1].cost && Visits(t, nodes)
  {
    hide T.IsWalk;
    hide IsRoute;
    nodes, edges := NodesOfTrail(g, o, from, to, estimate, t, |t| - 1);
    WalkIsRoute(g, o, nodes, edges, from, to);
    costs := Costs(o, edges);
  }

  /** The walk of a trail, node by node. */
  lemma {:induction false} NodesOfTrail(g: N.MemoryGraph, o: Options, from: int, to: int, estimate: int -> real,
      t: seq<Stop<int>>, n: nat) returns (nodes: seq<int>, edges: seq<Edge>)
    requires Trail(N.QueryProblem(g, o, from, to, estimate).arcs, t) && n < |t| && t[0].at == from
    ensures T.Connects(g, o, nodes, edges, from, t[n].at) && |edges| == n && |nodes| == n + 1
    ensures T.PlainCost(o, edges) == t[n].cost
    ensures forall i :: 0 <= i <= n ==> nodes[i] == t[i].at
    decreases n
  {
    hide BaseCost;
    hide UsableArcs;
    hide AttributesAllowed;
    if n == 0 {
      nodes, edges := [t[0].at], [];
    } else {
      nodes, edges := NodesOfTrail(g, o, from, to, estimate, t, n - 1);
      var k := n - 1;
      assert Step(N.QueryProblem(g, o, from, to, estimate).arcs, t[k], t[k + 1]);
      var v, a := t[k].at, Arc(t[n].at, t[n].cost - t[k].cost);
      UsableArcsMembers(g.Edges(v), N.Usable(o), N.ArcOf(o), a);
      var e :| e in g.Edges(v) && N.Usable(o)(e) && a == N.ArcOf(o)(e);
      assert (edges + [e])[..k] == edges;
      nodes, edges := nodes + [e.to], edges + [e];
    }
  }

  lemma RouteIsSolution(g: N.MemoryGraph, o: Options, from: int, to: int, estimate: int -> real, nodes: seq<int>,
      edges: seq<Edge>, costs: seq<real>) returns (t: seq<Stop<int>>)
    requires IsRoute(g, o, nodes, edges, costs, from, to)
    ensures Solves(N.QueryProblem(g, o, from, to, estimate), t) && t[|t| - 1].cost == Sum(costs)
  {
    RouteIsWalk(g, o, nodes, edges, costs, from, to);
    hide IsRoute;
    t := T.WalkGivesNodeTrail(g, o, to, estimate, nodes, edges);
    assert edges[..|edges|] == edges;
  }

  // ---- What the minimum of a search means ----

  lemma MinimumIsLeast(g: N.MemoryGraph, o: Options, from: int, to: int, estimate: int -> real, cost: real)
    requires IsMinimum(N.QueryProblem(g, o, from, to, estimate), cost)
    ensures IsLeast(g, o, from, to, cost)
  {
    hide Step;
    hide IsRoute;
    hide N.QueryProblem;
    var p := N.QueryProblem(g, o, from, to, estimate);
    var t: seq<Stop<int>> :| Solves(p, t) && t[|t| - 1].cost == cost;
    var nodes, edges, costs := SolutionIsRoute(g, o, from, to, estimate, t);
    forall nodes, edges, costs | IsRoute(g, o, nodes, edges, costs, from, to)
      ensures cost <= Sum(costs)
    {
      var t' := RouteIsSolution(g, o, from, to, estimate, nodes, edges, costs);
    }
  }

  lemma PathIsRoute(g: N.MemoryGraph, o: Options, from: int, to: int, estimate: int -> real, path: seq<int>, cost: real)
    requires IsPath(N.QueryProblem(g, o, from, to, estimate), path, cost)
    ensures IsRouteAt(g, o, path, from, to, cost)
  {
    var t: seq<Stop<int>> :|
      Solves(N.QueryProblem(g, o, from, to, estimate), t) && Visits(t, path) && t[|t| - 1].cost == cost;
    var nodes, edges, costs := SolutionIsRoute(g, o, from, to, estimate, t);
    assert nodes == path;
    hide Solves;
    hide IsRoute;
  }

  lemma NoSolutionNoRoute(g: N.MemoryGraph, o: Options, from: int, to: int, estimate: int -> real)
    requires !exists t: seq<Stop<int>> :: Solves(N.QueryProblem(g, o, from, to, estimate), t)
    ensures !exists nodes, edges, costs :: IsRoute(g, o, nodes, edges, costs, from, to)
  {
    hide *;
    if nodes, edges, costs :| IsRoute(g, o, nodes, edges, costs, from, to) {
      var t := RouteIsSolution(g, o, from, to, estimate, nodes, edges, costs);
    }
  }

  /** The answer of the search over ids: a usable route of least charge, or none if there is none. */
  lemma NodeAnswerMeans(g: N.MemoryGraph, o: Options, from: int, to: int, estimate: int -> real, wantPath: bool,
      r: Outcome)
    requires N.Answers(g, o, from, to, estimate, wantPath, r) && from != to
    ensures r.Found? ==> IsLeast(g, o, from, to, r.cost)
    ensures r.Found? && wantPath ==> IsRouteAt(g, o, r.path, from, to, r.cost)
    ensures r.NoPath? ==> !exists nodes, edges, costs :: IsRoute(g, o, nodes, edges, costs, from, to)
  {
    hide IsMinimum;
    hide IsPath;
    hide IsLeast;
    hide IsRouteAt;
    hide IsRoute;
    hide Solves;
    if r.Found? {
      MinimumIsLeast(g, o, from, to, estimate, r.cost);
      if wantPath {
        PathIsRoute(g, o, from, to, estimate, r.path, r.cost);
      }
    } else if r.NoPath? {
      NoSolutionNoRoute(g, o, from, to, estimate);
    }
  }

  // ---- The search on the compact store ----

  lemma RecordsById(d: Store, f64: Float64, o: Options, i: nat, j: nat, estimate: nat -> real) returns (q: S.Query)
    requires Readable(d) && SortedIds(d) && i < |d.nodes| && j < |d.nodes|
    ensures S.ValidQuery(q) && q.d == d && q.f64 == f64 && q.o == o && q.from == i && q.to == j
    ensures S.OnRecords(q) == I.QueryProblem(d, f64, o, i, j, estimate)
    ensures S.OnIds(q) == N.QueryProblem(Exported(d, f64), o, d.nodes[i].id, d.nodes[j].id, (_: int) => 0.0)
  {
    hide Readable;
    hide Exported;
    hide I.QueryProblem;
    hide N.QueryProblem;
    q := S.Query(d, f64, o, i, j, estimate, (_: int) => 0.0);
  }

  lemma PathToIds(q: S.Query, nodes: seq<nat>, path: seq<int>, cost: real)
    requires S.ValidQuery(q) && IsPath(S.OnRecords(q), nodes, cost) && I.IdsOf(q.d, nodes, path)
    ensures IsPath(S.OnIds(q), path, cost)
  {
    hide S.OnRecords;
    hide S.OnIds;
    hide S.ValidQuery;
    hide Step;
    var t: seq<Stop<nat>> :| Solves(S.OnRecords(q), t) && Visits(t, nodes) && t[|t| - 1].cost == cost;
    S.SolutionToIds(q, t);
    assert Visits(S.IdsOf(q, t), path);
  }

  lemma FoundMeans(d: Store, f64: Float64, o: Options, i: nat, j: nat, estimate: nat -> real, wantPath: bool,
      r: Outcome)
    requires Readable(d) && SortedIds(d) && i < |d.nodes| && j < |d.nodes|
    requires I.AnswersAt(d, f64, o, i, j, estimate, wantPath, r) && r.Found?
    ensures IsLeast(Exported(d, f64), o, d.nodes[i].id, d.nodes[j].id, r.cost)
    ensures wantPath ==> IsRouteAt(Exported(d, f64), o, r.path, d.nodes[i].id, d.nodes[j].id, r.cost)
  {
    hide Readable;
    hide SortedIds;
    hide Exported;
    hide S.OnRecords;
    hide S.OnIds;
    hide S.ValidQuery;
    hide I.QueryProblem;
    hide N.QueryProblem;
    hide IsMinimum;
    hide IsLeast;
    hide IsRouteAt;
    hide IsPath;
    var q := RecordsById(d, f64, o, i, j, estimate);
    S.SameMinimum(q, r.cost);
    var zero := (_: int) => 0.0;
    MinimumIsLeast(Exported(d, f64), o, d.nodes[i].id, d.nodes[j].id, zero, r.cost);
    if wantPath {
      var nodes :| IsPath(S.OnRecords(q), nodes, r.cost) && I.IdsOf(d, nodes, r.path);
      PathToIds(q, nodes, r.path, r.cost);
      PathIsRoute(Exported(d, f64), o, d.nodes[i].id, d.nodes[j].id, zero, r.path, r.cost);
    }
  }

  lemma NoPathMeans(d: Store, f64: Float64, o: Options, i: nat, j: nat, estimate: nat -> real)
    requires Readable(d) && SortedIds(d) && i < |d.nodes| && j < |d.nodes|
    requires !exists t: seq<Stop<nat>> :: Solves(I.QueryProblem(d, f64, o, i, j, estimate), t)
    ensures !exists nodes, edges, costs ::
      IsRoute(Exported(d, f64), o, nodes, edges, costs, d.nodes[i].id, d.nodes[j].id)
  {
    hide *;
    var q := RecordsById(d, f64, o, i, j, estimate);
    if names: seq<Stop<int>> :| Solves(S.OnIds(q), names) {
      var t := S.SolutionToRecords(q, names);
    }
    NoSolutionNoRoute(Exported(d, f64), o, d.nodes[i].id, d.nodes[j].id, (_: int) => 0.0);
  }

  /** The answer of the search on the store, on the road graph the store stands for. */
  lemma IndexAnswerMeans(d: Store, f64: Float64, o: Options, from: int, to: int, estimate: nat -> real, wantPath: bool,
      r: Outcome)
    requires Readable(d) && SortedIds(d) && from != to
    requires I.Answers(d, f64, o, from, to, estimate, wantPath, r)
    ensures r.Found? ==> IsLeast(Exported(d, f64), o, from, to, r.cost)
    ensures r.Found? && wantPath ==> IsRouteAt(Exported(d, f64), o, r.path, from, to, r.cost)
    ensures r.NoPath? ==>
      !exists nodes, edges, costs :: IsRoute(Exported(d, f64), o, nodes, edges, costs, from, to)
  {
    hide Readable;
    hide SortedIds;
    hide Exported;
    hide IsMinimum;
    hide IsLeast;
    hide IsRouteAt;
    hide IsRoute;
    hide Solves;
    if r.Found? || r.NoPath? {
      var i: nat, j: nat :|
        I.IsRecord(d, i, from) && I.IsRecord(d, j, to) && I.AnswersAt(d, f64, o, i, j, estimate, wantPath, r);
      if r.Found? {
        FoundMeans(d, f64, o, i, j, estimate, wantPath, r);
      } else {
        NoPathMeans(d, f64, o, i, j, estimate);
      }
    }
  }

  // ---- The faster of two roads ----

  /** Two roads from one node to another. */
  function TwoRoads(from: int, to: int, e: Edge, f: Edge): N.MemoryGraph {
    N.MemoryGraph({from, to}, map[from := [e, f]])
  }

  function Plain(to: int, length: real, speed: real): Edge {
    Edge(to, length, Attributes(speed, 0.0, 0.0, ""))
  }

  lemma SlowerCosts(a: real, b: real, slow: real, fast: real, x: real)
    requires 0.0 < slow < fast && x > 0.0 && a * slow == x && b * fast == x
    ensures a > b
  {
    assert b > 0.0;
    assert b * (fast - slow) > 0.0;
    assert (a - b) * slow == b * (fast - slow);
  }

  lemma RoadFrom(g: N.MemoryGraph, o: Options, nodes: seq<int>, edges: seq<Edge>, costs: seq<real>, from: int, to: int,
      i: nat)
    requires IsRoute(g, o, nodes, edges, costs, from, to) && i < |edges|
    ensures nodes[i] in g.adj && edges[i] in g.adj[nodes[i]] && edges[i].to == nodes[i + 1]
    ensures Charge(o, edges[i], costs[i])
  {
    hide MayUse;
    hide Charge;
    assert Drivable(g, o, nodes, edges, costs, i);
  }

  /** A route over two such roads takes one of them. */
  lemma OneOfTwo(g: N.MemoryGraph, o: Options, from: int, to: int, e: Edge, f: Edge, nodes: seq<int>, edges: seq<Edge>,
      costs: seq<real>)
    requires from != to && e.to == f.to == to && (g == TwoRoads(from, to, e, f) || g == TwoRoads(from, to, f, e))
    requires IsRoute(g, o, nodes, edges, costs, from, to)
    ensures |edges| == |costs| == 1
    ensures (edges[0] == e || edges[0] == f) && Sum(costs) == costs[0]
    ensures Charge(o, edges[0], costs[0])
  {
    hide MayUse;
    hide Charge;
    if |edges| > 1 {
      RoadFrom(g, o, nodes, edges, costs, from, to, 1);
    }
    RoadFrom(g, o, nodes, edges, costs, from, to, 0);
    assert edges[0] == e || edges[0] == f;
    assert costs == [costs[0]] && costs[..0] == [];
  }

  /** Either road makes a route of its own charge. */
  lemma RoadAlone(g: N.MemoryGraph, o: Options, from: int, to: int, f: Edge)
    requires from in g.adj && f in g.adj[from] && f.to == to && MayUse(o, f.attributes)
    ensures IsRoute(g, o, [from, to], [f], [BaseCost(o, f.attributes, f.dist)], from, to)
    ensures Sum([BaseCost(o, f.attributes, f.dist)]) == BaseCost(o, f.attributes, f.dist)
  {
    hide MayUse;
    hide Charge;
    hide BaseCost;
    var cost := BaseCost(o, f.attributes, f.dist);
    CostIsCharge(o, f, cost);
    assert Drivable(g, o, [from, to], [f], [cost], 0);
    assert [cost][..0] == [];
  }

  lemma RoadExists(g: N.MemoryGraph, o: Options, from: int, to: int, estimate: int -> real, wantPath: bool, r: Outcome)
    requires from in g.adj && from in g.coords && to in g.coords && from != to && g.adj[from] != []
    requires N.Answers(g, o, from, to, estimate, wantPath, r)
    requires exists nodes, edges, costs :: IsRoute(g, o, nodes, edges, costs, from, to)
    ensures r.Found?
  {
    hide IsMinimum;
    hide IsPath;
    hide IsRoute;
    hide Solves;
    NodeAnswerMeans(g, o, from, to, estimate, wantPath, r);
  }

  /** Of two equally long roads without restrictions, whose posted speeds lie within the limits, the faster one is
      answered: the time found is its length over its speed. */
  lemma FasterRoad(g: N.MemoryGraph, o: Options, from: int, to: int, length: real, slow: real, fast: real,
      estimate: int -> real, wantPath: bool, r: Outcome)
    requires from != to && length > 0.0 && 3.0 <= slow < fast <= o.weights.maxSpeed
    requires o.objective == Duration && !o.emergency && o.profile.None?
    requires var (e, f) := (Plain(to, length, slow), Plain(to, length, fast));
      g == TwoRoads(from, to, e, f) || g == TwoRoads(from, to, f, e)
    requires N.Answers(g, o, from, to, estimate, wantPath, r)
    ensures r.Found? && r.cost * fast == length * 3.6
  {
    hide N.Answers;
    hide BaseCost;
    hide Charge;
    hide IsRoute;
    var (e, f) := (Plain(to, length, slow), Plain(to, length, fast));
    assert f in g.adj[from] && MayUse(o, f.attributes);
    var cost := BaseCost(o, f.attributes, length);
    RoadAlone(g, o, from, to, f);
    RoadExists(g, o, from, to, estimate, wantPath, r);
    NodeAnswerMeans(g, o, from, to, estimate, wantPath, r);
    PostedSpeedCounts(o, e.attributes, length);
    PostedSpeedCounts(o, f.attributes, length);
    SlowerCosts(BaseCost(o, e.attributes, length), cost, slow, fast, length * 3.6);
    var nodes, edges, costs :| IsRoute(g, o, nodes, edges, costs, from, to) && Sum(costs) == r.cost;
    OneOfTwo(g, o, from, to, e, f, nodes, edges, costs);
    CostIsCharge(o, edges[0], costs[0]);
  }
}
