/** The turn-free search over OSM ids (core/router_node.go). */
module NodeSearch {
  import opened RouteCosts
  import opened SearchTheory
  import opened BestFirst

  /** A graph held in memory: the nodes with coordinates and their outgoing edges. */
  datatype MemoryGraph = MemoryGraph(coords: set<int>, adj: map<int, seq<Edge>>) {
    function Edges(id: int): seq<Edge> {
      if id in adj then adj[id] else []
    }
  }

  function Usable(o: Options): Edge -> bool {
    (e: Edge) => AttributesAllowed(o, e.attributes)
  }

  function ArcOf(o: Options): Edge -> Arc<int> {
    (e: Edge) => Arc(e.to, BaseCost(o, e.attributes, e.dist))
  }

  /** The search problem of a query: its walks are the allowed walks of the graph. */
  function QueryProblem(g: MemoryGraph, o: Options, from: int, to: int, estimate: int -> real): Problem<int> {
    Problem((id: int) => UsableArcs(g.Edges(id), Usable(o), ArcOf(o)), from, id => id == to, estimate,
            {from} + set id, e | id in g.adj && e in g.adj[id] :: e.to)
  }

  ghost predicate NonNegativeLengths(g: MemoryGraph) {
    forall id, e :: id in g.adj && e in g.adj[id] ==> e.dist >= 0.0
  }

  lemma QueryIsWellPosed(g: MemoryGraph, o: Options, from: int, to: int, estimate: int -> real)
    requires NonNegativeLengths(g)
    requires Admissible(QueryProblem(g, o, from, to, estimate)) && forall id :: estimate(id) >= 0.0
    ensures WellPosed(QueryProblem(g, o, from, to, estimate))
  {
    var p := QueryProblem(g, o, from, to, estimate);
    forall id: int, a | a in p.arcs(id)
      ensures a.cost >= 0.0 && a.to in p.universe
    {
      UsableArcsMembers(g.Edges(id), Usable(o), ArcOf(o), a);
      var e :| e in g.Edges(id) && Usable(o)(e) && a == ArcOf(o)(e);
      BaseCostNonNegative(o, e.attributes, e.dist);
      assert id in g.adj && e in g.adj[id];
    }
  }

  /** What a query must answer: the error the source reports first, else the minimum over all allowed walks. */
  ghost predicate Answers(g: MemoryGraph, o: Options, from: int, to: int, estimate: int -> real, wantPath: bool,
      r: Outcome) {
    var p := QueryProblem(g, o, from, to, estimate);
    if from == to then r == Found(if wantPath then [from] else [], 0.0)
    else if from !in g.coords then r == StartUnreachable
    else if to !in g.coords then r == TargetUnreachable
    else match r
      case StartUnreachable => o.engine != DijkstraNode && g.Edges(from) == []
      case TargetUnreachable => false
      case NoPath => (o.engine == DijkstraNode || g.Edges(from) != []) && !exists t: seq<Stop<int>> :: Solves(p, t)
      case Found(path, cost) =>
        && (o.engine == DijkstraNode || g.Edges(from) != [])
        && IsMinimum(p, cost)
        && if wantPath then IsPath(p, path, cost) else path == []
  }

  method NodeSearch(g: MemoryGraph, from: int, to: int, o: Options, estimate: int -> real, wantPath: bool)
    returns (r: Outcome)
    requires NonNegativeLengths(g)
    requires Admissible(QueryProblem(g, o, from, to, estimate)) && forall id :: estimate(id) >= 0.0
    ensures Answers(g, o, from, to, estimate, wantPath, r)
  {
    if from == to {
      return Found(if wantPath then [from] else [], 0.0);
    }
    if from !in g.coords {
      return StartUnreachable;
    }
    if to !in g.coords {
      return TargetUnreachable;
    }
    if o.engine != DijkstraNode && g.Edges(from) == [] {
      return StartUnreachable;
    }
    ghost var p := QueryProblem(g, o, from, to, estimate);
    QueryIsWellPosed(g, o, from, to, estimate);
    var net := Network((id: int) => g.Edges(id), (id: int) => Usable(o), (id: int) => ArcOf(o));
    var found := Search(p, net, from, id => id == to, estimate, wantPath);
    match found
    case Exhausted => r := NoPath;
    case Reached(_, path, cost) => r := Found(path, cost);
  }
}
