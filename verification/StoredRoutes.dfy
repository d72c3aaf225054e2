/** Packing a graph into a file changes no route: the search on the records of the file and the search on
    the original graph in memory look for the same minimum (core/router_store.go,
    core/router_store_chains.go, core/router_node.go and core/router_node_index.go together). */
module StoredRoutes {
  import opened RouteCosts
  import opened GraphStore
  import opened GraphWriter
  import opened AttributeCosts
  import opened SearchTheory
  import opened GraphExport
  import N = NodeSearch
  import I = IndexSearch
  import A = GraphAcceptance

  // ---- The file stands for the original graph ----

  /** An edge of the original graph with its numbers decoded. */
  function DecodedEdge(f64: Float64, e: LogicalEdge): Edge {
    Edge(e.to, f64(e.distance), Attributes(f64(e.speed), f64(e.height), f64(e.weight), e.highway))
  }

  /** Each number of a stored edge becomes the field it is named after. */
  lemma DecodedFields(f64: Float64, e: LogicalEdge)
    ensures var (d, a) := (DecodedEdge(f64, e), DecodedEdge(f64, e).attributes);
      && d.to == e.to && d.dist == f64(e.distance) && a.speed == f64(e.speed)
      && a.maxHeight == f64(e.height) && a.maxWeight == f64(e.weight) && a.highway == e.highway
  {}

  function DecodedEdges(f64: Float64, es: seq<LogicalEdge>): (r: seq<Edge>)
    ensures |r| == |es| && forall k :: 0 <= k < |r| ==> r[k] == DecodedEdge(f64, es[k])
  {
    seq(|es|, k requires 0 <= k < |es| => DecodedEdge(f64, es[k]))
  }

  /** The original graph as the searches in memory see it. */
  ghost function InMemory(g: Graph, f64: Float64): N.MemoryGraph
    requires WellFormed(g)
  {
    N.MemoryGraph(set i | 0 <= i < |g.ids| :: g.ids[i],
                  map i | 0 <= i < |g.ids| && |g.adj[i]| > 0 :: g.ids[i] := DecodedEdges(f64, g.adj[i]))
  }

  lemma SameEdges(g: Graph, d: Store, f64: Float64, i: nat)
    requires Lossless(g, d) && i < |g.ids|
    ensures EdgeRange(d, i).1 == |g.adj[i]| && EdgesAt(d, f64, i) == DecodedEdges(f64, g.adj[i])
  {
    assert DecodeNode(d, i) == g.adj[i];
    forall k | 0 <= k < |g.adj[i]|
      ensures EdgesAt(d, f64, i)[k] == DecodedEdges(f64, g.adj[i])[k]
    {
      EdgeInRange(d, i, k);
      assert DecodeNode(d, i)[k] == g.adj[i][k];
      hide Readable;
    }
  }

  lemma OriginalAt(g: Graph, f64: Float64, i: nat)
    requires WellFormed(g) && i < |g.ids|
    ensures g.ids[i] in InMemory(g, f64).coords
    ensures g.ids[i] in InMemory(g, f64).adj <==> |g.adj[i]| > 0
    ensures |g.adj[i]| > 0 ==> InMemory(g, f64).adj[g.ids[i]] == DecodedEdges(f64, g.adj[i])
  {
    hide DecodedEdges;
  }

  lemma OriginalIds(g: Graph, f64: Float64, id: int) returns (i: nat)
    requires WellFormed(g) && (id in InMemory(g, f64).coords || id in InMemory(g, f64).adj)
    ensures i < |g.ids| && g.ids[i] == id
  {
    hide DecodedEdges;
    i :| i < |g.ids| && g.ids[i] == id;
  }

  lemma LosslessParts(g: Graph, d: Store)
    requires Lossless(g, d)
    ensures Readable(d) && |d.nodes| == |g.ids| == |g.adj|
    ensures forall i :: 0 <= i < |g.ids| ==> d.nodes[i].id == g.ids[i]
  {
    hide Readable;
    hide DecodeNode;
  }

  lemma SameAt(g: Graph, d: Store, f64: Float64, id: int)
    requires WellFormed(g) && Lossless(g, d) && SortedIds(d) && Readable(d)
    ensures var (a, b) := (Exported(d, f64), InMemory(g, f64));
      && (id in a.coords <==> id in b.coords) && (id in a.adj <==> id in b.adj)
      && (id in a.adj ==> a.adj[id] == b.adj[id])
  {
    hide *;
    LosslessParts(g, d);
    var (a, b) := (Exported(d, f64), InMemory(g, f64));
    if id in a.coords || id in a.adj {
      var i := ExportedFrom(d, f64, id);
      ExportedAt(d, f64, i);
      OriginalAt(g, f64, i);
      SameEdges(g, d, f64, i);
    } else if id in b.coords || id in b.adj {
      var i := OriginalIds(g, f64, id);
      ExportedAt(d, f64, i);
    }
  }

  /** Exporting a written file gives back the graph it was written from. */
  lemma ExportedIsOriginal(g: Graph, d: Store, f64: Float64)
    requires WellFormed(g) && Lossless(g, d) && SortedIds(d)
    ensures Readable(d) && Exported(d, f64) == InMemory(g, f64)
  {
    hide *;
    LosslessParts(g, d);
    var (a, b) := (Exported(d, f64), InMemory(g, f64));
    forall id: int
      ensures id in a.coords <==> id in b.coords
      ensures id in a.adj <==> id in b.adj
      ensures id in a.adj ==> a.adj[id] == b.adj[id]
    {
      SameAt(g, d, f64, id);
    }
    assert a.coords == b.coords;
    assert a.adj == b.adj;
  }

  // ---- Walks over record indices and walks over ids ----

  /** A query between two records. */
  datatype Query =
      Query(d: Store, f64: Float64, o: Options, from: nat, to: nat, byIndex: nat -> real, byId: int -> real)

  ghost predicate ValidQuery(q: Query) {
    Readable(q.d) && SortedIds(q.d) && q.from < |q.d.nodes| && q.to < |q.d.nodes|
  }

  ghost function OnRecords(q: Query): Problem<nat>
    requires ValidQuery(q)
  {
    I.QueryProblem(q.d, q.f64, q.o, q.from, q.to, q.byIndex)
  }

  ghost function OnIds(q: Query): Problem<int>
    requires ValidQuery(q)
  {
    N.QueryProblem(Exported(q.d, q.f64), q.o, q.d.nodes[q.from].id, q.d.nodes[q.to].id, q.byId)
  }

  lemma RecordArcs(q: Query, i: nat)
    requires ValidQuery(q)
    ensures OnRecords(q).arcs(i) == I.ArcsOf(q.d, q.f64, q.o, i)
    ensures OnRecords(q).start == q.from && (OnRecords(q).goal(i) <==> i == q.to)
  {}

  lemma IdArcs(q: Query, id: int)
    requires ValidQuery(q)
    ensures OnIds(q).arcs(id) == UsableArcs(Exported(q.d, q.f64).Edges(id), N.Usable(q.o), N.ArcOf(q.o))
    ensures OnIds(q).start == q.d.nodes[q.from].id && (OnIds(q).goal(id) <==> id == q.d.nodes[q.to].id)
  {}

  lemma ArcsAgree(q: Query, e: EdgeRec)
    requires ValidQuery(q) && e.target < |q.d.nodes| && e.attribute < |q.d.attributes|
    ensures var (a, edge) := (I.ArcOf(q.d, q.f64, q.o)(e), EdgeOf(q.d, q.f64, e));
      && a.to == e.target && I.Usable(q.d, q.f64, q.o)(e) == N.Usable(q.o)(edge)
      && N.ArcOf(q.o)(edge) == Arc(q.d.nodes[e.target].id, a.cost)
  {
    assert q.d.attributes[e.attribute] in q.d.attributes;
    hide BaseCost;
    hide AttributesAllowed;
  }

  lemma StepToIds(q: Query, i: nat, a: Arc<nat>)
    requires ValidQuery(q) && a in I.ArcsOf(q.d, q.f64, q.o, i)
    ensures i < |q.d.nodes| && a.to < |q.d.nodes|
    ensures Arc(q.d.nodes[a.to].id, a.cost) in OnIds(q).arcs(q.d.nodes[i].id)
  {
    var e := I.ArcIsEdge(q.d, q.f64, q.o, i, a);
    hide I.ArcsOf;
    hide I.ArcOf;
    hide I.Usable;
    hide N.ArcOf;
    hide Exported;
    hide UsableArcs;
    hide OnIds;
    ExportedEdges(q.d, q.f64, i);
    var k :| 0 <= k < |CompactEdges(q.d, i)| && CompactEdges(q.d, i)[k] == e;
    assert EdgesAt(q.d, q.f64, i)[k] == EdgeOf(q.d, q.f64, e);
    ArcsAgree(q, e);
    IdArcs(q, q.d.nodes[i].id);
    UsableArcsComplete(EdgesAt(q.d, q.f64, i), N.Usable(q.o), N.ArcOf(q.o), EdgeOf(q.d, q.f64, e));
  }

  lemma StepToRecords(q: Query, i: nat, b: Arc<int>) returns (a: Arc<nat>)
    requires ValidQuery(q) && i < |q.d.nodes| && b in OnIds(q).arcs(q.d.nodes[i].id)
    ensures a in I.ArcsOf(q.d, q.f64, q.o, i) && a.to < |q.d.nodes| && b == Arc(q.d.nodes[a.to].id, a.cost)
  {
    hide I.ArcOf;
    hide I.Usable;
    hide N.ArcOf;
    hide N.Usable;
    hide Exported;
    hide UsableArcs;
    hide OnIds;
    hide Readable;
    IdArcs(q, q.d.nodes[i].id);
    ExportedEdges(q.d, q.f64, i);
    var es := EdgesAt(q.d, q.f64, i);
    UsableArcsMembers(es, N.Usable(q.o), N.ArcOf(q.o), b);
    var edge :| edge in es && N.Usable(q.o)(edge) && b == N.ArcOf(q.o)(edge);
    var k :| 0 <= k < |es| && es[k] == edge;
    var e := CompactEdges(q.d, i)[k];
    assert e in CompactEdges(q.d, i);
    ArcsAgree(q, e);
    UsableArcsComplete(CompactEdges(q.d, i), I.Usable(q.d, q.f64, q.o), I.ArcOf(q.d, q.f64, q.o), e);
    a := I.ArcOf(q.d, q.f64, q.o)(e);
  }

  ghost function IdsOf(q: Query, t: seq<Stop<nat>>): (names: seq<Stop<int>>)
    ensures |names| == |t| && forall i :: 0 <= i < |t| ==> names[i] == Stop(IdAt(q.d, t[i].at), t[i].cost)
  {
    seq(|t|, i requires 0 <= i < |t| => Stop(IdAt(q.d, t[i].at), t[i].cost))
  }

  lemma StopsToIds(q: Query, a: Stop<nat>, b: Stop<nat>)
    requires ValidQuery(q) && Step(OnRecords(q).arcs, a, b)
    ensures a.at < |q.d.nodes| && b.at < |q.d.nodes|
    ensures Step(OnIds(q).arcs, Stop(IdAt(q.d, a.at), a.cost), Stop(IdAt(q.d, b.at), b.cost))
  {
    hide OnRecords;
    hide OnIds;
    hide Readable;
    hide SortedIds;
    hide I.ArcsOf;
    RecordArcs(q, a.at);
    StepToIds(q, a.at, Arc(b.at, b.cost - a.cost));
  }

  lemma SolutionToIds(q: Query, t: seq<Stop<nat>>)
    requires ValidQuery(q) && Solves(OnRecords(q), t)
    ensures Solves(OnIds(q), IdsOf(q, t)) && IdsOf(q, t)[|t| - 1].cost == t[|t| - 1].cost
  {
    hide OnRecords;
    hide OnIds;
    hide Readable;
    hide Step;
    var names, last := IdsOf(q, t), |t| - 1;
    RecordArcs(q, t[last].at);
    IdArcs(q, names[last].at);
    forall i | 0 <= i < last
      ensures Step(OnIds(q).arcs, names[i], names[i + 1])
    {
      assert Step(OnRecords(q).arcs, t[i], t[i + 1]);
      StopsToIds(q, t[i], t[i + 1]);
    }
  }

  lemma {:induction false} TrailToRecords(q: Query, names: seq<Stop<int>>, n: nat) returns (t: seq<Stop<nat>>)
    requires ValidQuery(q) && Trail(OnIds(q).arcs, names) && n < |names| && names[0].at == q.d.nodes[q.from].id
    ensures Trail(OnRecords(q).arcs, t) && |t| == n + 1 && t[0].at == q.from
    ensures t[n].at < |q.d.nodes| && names[n] == Stop(q.d.nodes[t[n].at].id, t[n].cost)
    decreases n
  {
    hide OnRecords;
    hide OnIds;
    hide Readable;
    hide SortedIds;
    hide I.ArcsOf;
    if n == 0 {
      RecordArcs(q, q.from);
      t := [Stop(q.from, 0.0)];
    } else {
      t := TrailToRecords(q, names, n - 1);
      var k := n - 1;
      assert Step(OnIds(q).arcs, names[k], names[k + 1]);
      var a := StepToRecords(q, t[k].at, Arc(names[n].at, names[n].cost - names[k].cost));
      RecordArcs(q, t[k].at);
      var t' := t + [Stop(a.to, names[n].cost)];
      forall i | 0 <= i < |t'| - 1
        ensures Step(OnRecords(q).arcs, t'[i], t'[i + 1])
      {
        if i < k {
          assert Step(OnRecords(q).arcs, t[i], t[i + 1]);
        }
      }
      t := t';
    }
  }

  lemma SolutionToRecords(q: Query, names: seq<Stop<int>>) returns (t: seq<Stop<nat>>)
    requires ValidQuery(q) && Solves(OnIds(q), names)
    ensures Solves(OnRecords(q), t) && t[|t| - 1].cost == names[|names| - 1].cost
  {
    hide OnRecords;
    hide OnIds;
    hide Readable;
    hide Step;
    var last := |names| - 1;
    IdArcs(q, names[last].at);
    t := TrailToRecords(q, names, last);
    RecordArcs(q, t[last].at);
  }

  /** The search over record indices and the search over ids have the same minimum. */
  lemma SameMinimum(q: Query, cost: real)
    requires ValidQuery(q)
    ensures IsMinimum(OnRecords(q), cost) <==> IsMinimum(OnIds(q), cost)
  {
    hide OnRecords;
    hide OnIds;
    hide Readable;
    hide Step;
    if IsMinimum(OnRecords(q), cost) {
      var t: seq<Stop<nat>> :| Solves(OnRecords(q), t) && t[|t| - 1].cost == cost;
      SolutionToIds(q, t);
      forall names: seq<Stop<int>> | Solves(OnIds(q), names)
        ensures cost <= names[|names| - 1].cost
      {
        var t' := SolutionToRecords(q, names);
      }
    }
    if IsMinimum(OnIds(q), cost) {
      var names: seq<Stop<int>> :| Solves(OnIds(q), names) && names[|names| - 1].cost == cost;
      var t := SolutionToRecords(q, names);
      forall t: seq<Stop<nat>> | Solves(OnRecords(q), t)
        ensures cost <= t[|t| - 1].cost
      {
        SolutionToIds(q, t);
      }
    }
  }

  /** Routes survive the file: whatever was packed, a query on the written records has the minimum that
      the same query has on the original graph, and it has a route exactly when the original has one. */
  lemma RoutesSurvive(g: Graph, q: Query, cost: real)
    requires WellFormed(g) && A.Accepts(q.d) && Lossless(g, q.d) && q.from < |g.ids| && q.to < |g.ids|
    ensures ValidQuery(q)
    ensures var original := N.QueryProblem(InMemory(g, q.f64), q.o, g.ids[q.from], g.ids[q.to], q.byId);
      && (IsMinimum(OnRecords(q), cost) <==> IsMinimum(original, cost))
      && ((exists t: seq<Stop<nat>> :: Solves(OnRecords(q), t)) <==> (exists t: seq<Stop<int>> :: Solves(original, t)))
  {
    hide A.Accepts;
    hide Readable;
    hide DecodeNode;
    hide IsMinimum;
    hide Step;
    hide Solves;
    A.AcceptedReadable(q.d);
    ExportedIsOriginal(g, q.d, q.f64);
    assert q.d.nodes[q.from].id == g.ids[q.from] && q.d.nodes[q.to].id == g.ids[q.to];
    var original := N.QueryProblem(InMemory(g, q.f64), q.o, g.ids[q.from], g.ids[q.to], q.byId);
    assert original == OnIds(q);
    hide OnIds;
    hide OnRecords;
    hide N.QueryProblem;
    SameMinimum(q, cost);
    if t: seq<Stop<nat>> :| Solves(OnRecords(q), t) {
      SolutionToIds(q, t);
    }
    if t: seq<Stop<int>> :| Solves(OnIds(q), t) {
      var t' := SolutionToRecords(q, t);
    }
  }
}
