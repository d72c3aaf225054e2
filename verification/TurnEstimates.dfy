/** The landmark estimate under turn-aware searches (`queryHeuristic` in core/router_landmarks.go as `astar` in
    core/router.go and `indexTurnSearch` in core/router_turn_index.go use it). */
module TurnEstimates {
  import opened Common
  import opened RouteCosts
  import opened GraphStore
  import opened AttributeCosts
  import opened SearchTheory
  import opened LandmarkEstimates
  import opened GraphExport
  import T = TurnSearch
  import N = NodeSearch
  import I = IndexSearch
  import P = PackedTurns
  import S = StoredRoutes
  import LandmarkBuild
  import IndexTurnSearch

  // ---- Walks with their turns are walks the estimate covers ----

  /** The current nodes along a trail of packed turn states. */
  ghost function Currents(t: seq<Stop<nat>>): (r: seq<Stop<nat>>)
    ensures |r| == |t| && forall i :: 0 <= i < |t| ==> r[i] == Stop(P.CurrentOf(t[i].at), t[i].cost)
  {
    seq(|t|, i requires 0 <= i < |t| => Stop(P.CurrentOf(t[i].at), t[i].cost))
  }

  lemma TurnStepIsCharged(q: P.TurnQuery, a: Stop<nat>, b: Stop<nat>)
    requires P.ValidQuery(q) && T.NonNegativeWeights(q.o) && Arc(b.at, b.cost - a.cost) in P.ArcsOf(q, a.at)
    ensures ChargedStep(QueryArcs(q.d, q.f64, q.o), Stop(P.CurrentOf(a.at), a.cost), Stop(P.CurrentOf(b.at), b.cost))
  {
    hide Readable;
    hide P.ArcsOf;
    hide UsableArcs;
    hide P.Penalty;
    hide BaseCost;
    hide AttributesAllowed;
    var e := P.ArcIsEdge(q, a.at, Arc(b.at, b.cost - a.cost));
    var node := P.CurrentOf(a.at);
    P.ArcsAgree(q, a.at, e);
    P.PenaltyAgrees(q, a.at, e.target);
    T.PenaltyNonNegative(Exported(q.d, q.f64), q.o, q.kind, P.NameOf(q, a.at).prev, P.NameOf(q, a.at).cur,
      IdAt(q.d, e.target));
    UsableArcsComplete(CompactEdges(q.d, node), I.Usable(q.d, q.f64, q.o), I.ArcOf(q.d, q.f64, q.o), e);
    assert I.ArcOf(q.d, q.f64, q.o)(e) in QueryArcs(q.d, q.f64, q.o)(node);
  }

  /** Every trail of turn states, with its non-negative penalties, is a charged walk of the query. */
  lemma TurnTrailIsCharged(q: P.TurnQuery, t: seq<Stop<nat>>)
    requires P.ValidQuery(q) && T.NonNegativeWeights(q.o) && Trail(P.Packed(q).arcs, t)
    ensures Charged(QueryArcs(q.d, q.f64, q.o), Currents(t))
  {
    hide Readable;
    hide P.CurrentOf;
    hide ChargedStep;
    hide P.ArcsOf;
    hide QueryArcs;
    var r := Currents(t);
    forall i | 0 <= i < |r| - 1
      ensures ChargedStep(QueryArcs(q.d, q.f64, q.o), r[i], r[i + 1])
    {
      assert Step(P.Packed(q).arcs, t[i], t[i + 1]);
      P.PackedArcs(q, t[i].at);
      TurnStepIsCharged(q, t[i], t[i + 1]);
    }
  }

  lemma {:induction false} TurnTrailNonNegative(q: P.TurnQuery, t: seq<Stop<nat>>, n: nat)
    requires P.ValidQuery(q) && T.NonNegativeWeights(q.o) && I.NonNegativeLengths(q.d, q.f64)
    requires Trail(P.Packed(q).arcs, t) && n < |t|
    ensures t[n].cost >= 0.0
  {
    if n > 0 {
      var k := n - 1;
      TurnTrailNonNegative(q, t, k);
      TurnTrailIsCharged(q, t);
      assert ChargedStep(QueryArcs(q.d, q.f64, q.o), Currents(t)[k], Currents(t)[k + 1]);
      hide Readable;
      hide I.ArcsOf;
      var node := P.CurrentOf(t[k].at);
      var a :| a in QueryArcs(q.d, q.f64, q.o)(node) && a.to == P.CurrentOf(t[n].at) && t[k].cost + a.cost <= t[n].cost;
      var e := I.ArcIsEdge(q.d, q.f64, q.o, node, a);
      BaseCostNonNegative(q.o, AttributesOf(q.d, q.f64, e.attribute), q.f64(e.distance));
    }
  }

  /** The estimate never exceeds the cost of a walk to the target with all its turn penalties. */
  lemma EstimateUndercutsTurns(q: P.TurnQuery, x: Option<Index>, great: nat -> real, t: seq<Stop<nat>>)
    requires P.ValidQuery(q) && T.NonNegativeWeights(q.o) && I.NonNegativeLengths(q.d, q.f64)
    requires q.o.weights.maxSpeed >= 3.0
    requires x.Some? ==> IndexFor(q.d, q.f64, x.value) && TablesCover(x.value, |q.d.nodes|)
    requires GreatCircleLower(q.d, q.f64, great, q.to)
    requires Trail(P.Packed(q).arcs, t) && P.CurrentOf(t[|t| - 1].at) == q.to
    ensures var node := P.CurrentOf(t[0].at);
      Estimate(q.o, x, |q.d.nodes|, great(node), node, q.to) <= t[|t| - 1].cost
  {
    TurnTrailIsCharged(q, t);
    TurnTrailNonNegative(q, t, |t| - 1);
    hide *;
    EstimateUndercutsWalk(q.d, q.f64, q.o, x, great, q.to, Currents(t));
  }

  // ---- The estimate over ids ----

  /** The record of an id among the first `n`. */
  function FindRecord(d: Store, id: int, n: nat): (r: Option<nat>)
    requires n <= |d.nodes|
    ensures r.Some? ==> r.value < n && d.nodes[r.value].id == id
    ensures r.None? ==> forall i :: 0 <= i < n ==> d.nodes[i].id != id
  {
    if n == 0 then None
    else if d.nodes[n - 1].id == id then Some(n - 1)
    else FindRecord(d, id, n - 1)
  }

  /** The estimate of the node with a given id. */
  function EstimateById(d: Store, o: Options, x: Option<Index>, great: nat -> real, target: nat): int -> real
    requires o.weights.maxSpeed > 0.0 && (x.Some? ==> TablesCover(x.value, |d.nodes|))
  {
    (id: int) => match FindRecord(d, id, |d.nodes|)
      case Some(i) => EstimateOf(d, o, x, great, target)(i)
      case None => 0.0
  }

  lemma LengthsExported(d: Store, f64: Float64)
    requires Readable(d) && SortedIds(d) && I.NonNegativeLengths(d, f64)
    ensures N.NonNegativeLengths(Exported(d, f64))
  {
    var g := Exported(d, f64);
    forall id, edge | id in g.adj && edge in g.adj[id]
      ensures edge.dist >= 0.0
    {
      var i := ExportedFrom(d, f64, id);
      ExportedAt(d, f64, i);
      hide Exported;
      hide Readable;
      var k :| 0 <= k < |EdgesAt(d, f64, i)| && EdgesAt(d, f64, i)[k] == edge;
      assert CompactEdges(d, i)[k] in CompactEdges(d, i);
    }
  }

  lemma {:induction false} PlainNonNegative(g: N.MemoryGraph, o: Options, nodes: seq<int>, edges: seq<Edge>, n: nat)
    requires N.NonNegativeLengths(g) && T.IsWalk(g, o, nodes, edges) && n <= |edges|
    ensures T.PlainCost(o, edges[..n]) >= 0.0
  {
    if n > 0 {
      PlainNonNegative(g, o, nodes, edges, n - 1);
      var e := edges[n - 1];
      assert e in g.Edges(nodes[n - 1]) && edges[..n][..n - 1] == edges[..n - 1];
      BaseCostNonNegative(o, e.attributes, e.dist);
    }
  }

  /** A walk of the exported graph is a walk over records, on which the estimate is admissible. */
  lemma EstimateBelowWalk(d: Store, f64: Float64, o: Options, x: Option<Index>, great: nat -> real, start: nat,
      target: nat, nodes: seq<int>, edges: seq<Edge>)
    requires Readable(d) && SortedIds(d) && I.NonNegativeLengths(d, f64) && o.weights.maxSpeed >= 3.0
    requires x.Some? ==> IndexFor(d, f64, x.value) && TablesCover(x.value, |d.nodes|)
    requires start < |d.nodes| && target < |d.nodes| && GreatCircleLower(d, f64, great, target)
    requires T.Connects(Exported(d, f64), o, nodes, edges, d.nodes[start].id, d.nodes[target].id)
    ensures EstimateOf(d, o, x, great, target)(start) <= T.PlainCost(o, edges)
  {
    hide Readable;
    hide SortedIds;
    hide I.NonNegativeLengths;
    hide IndexFor;
    hide TablesCover;
    hide GreatCircleLower;
    hide Estimate;
    hide Exported;
    hide T.PlainCost;
    hide Step;
    hide UsableArcs;
    var byIndex, byId := EstimateOf(d, o, x, great, target), (_: int) => 0.0;
    var q := S.Query(d, f64, o, start, target, byIndex, byId);
    var g := Exported(d, f64);
    var t := T.WalkGivesNodeTrail(g, o, d.nodes[target].id, byId, nodes, edges);
    assert edges[..|edges|] == edges;
    assert S.OnIds(q) == N.QueryProblem(g, o, nodes[0], d.nodes[target].id, byId);
    assert |nodes| == |edges| + 1;
    assert Solves(S.OnIds(q), t);
    var u := S.SolutionToRecords(q, t);
    EstimateIsAdmissible(d, f64, o, x, great, start, target);
    assert S.OnRecords(q) == I.QueryProblem(d, f64, o, start, target, byIndex);
    assert byIndex(u[0].at) <= u[|u| - 1].cost;
  }

  /** The landmark estimate is a lower bound for every walk of the exported graph, so it serves the
      turn-aware searches as well. */
  lemma EstimateServesTurns(d: Store, f64: Float64, o: Options, x: Option<Index>, great: nat -> real, target: nat)
    requires Readable(d) && SortedIds(d) && I.NonNegativeLengths(d, f64) && o.weights.maxSpeed >= 3.0
    requires x.Some? ==> IndexFor(d, f64, x.value) && TablesCover(x.value, |d.nodes|)
    requires target < |d.nodes| && GreatCircleLower(d, f64, great, target)
    ensures T.EstimateIsLower(Exported(d, f64), o, d.nodes[target].id, EstimateById(d, o, x, great, target))
  {
    hide Readable;
    hide SortedIds;
    hide I.NonNegativeLengths;
    hide IndexFor;
    hide TablesCover;
    hide GreatCircleLower;
    hide Estimate;
    hide Exported;
    hide T.IsWalk;
    hide T.PlainCost;
    var (g, byId) := (Exported(d, f64), EstimateById(d, o, x, great, target));
    forall nodes, edges, from | T.Connects(g, o, nodes, edges, from, d.nodes[target].id)
      ensures byId(from) <= T.PlainCost(o, edges)
    {
      if i: nat :| FindRecord(d, from, |d.nodes|) == Some(i) {
        EstimateBelowWalk(d, f64, o, x, great, i, target, nodes, edges);
      } else {
        LengthsExported(d, f64);
        PlainNonNegative(g, o, nodes, edges, |edges|);
        assert edges[..|edges|] == edges;
      }
    }
  }

  /** Without a target to estimate towards, zero is a lower bound. */
  lemma ZeroServesTurns(d: Store, f64: Float64, o: Options, to: int)
    requires Readable(d) && SortedIds(d) && I.NonNegativeLengths(d, f64)
    ensures T.EstimateIsLower(Exported(d, f64), o, to, (_: int) => 0.0)
  {
    hide Readable;
    hide SortedIds;
    hide I.NonNegativeLengths;
    hide Exported;
    hide T.IsWalk;
    hide T.PlainCost;
    var g := Exported(d, f64);
    forall nodes, edges, from | T.Connects(g, o, nodes, edges, from, to)
      ensures 0.0 <= T.PlainCost(o, edges)
    {
      LengthsExported(d, f64);
      PlainNonNegative(g, o, nodes, edges, |edges|);
      assert edges[..|edges|] == edges;
    }
  }

  lemma EstimatesNonNegative(d: Store, f64: Float64, o: Options, x: Option<Index>, great: nat -> real, target: nat)
    requires Readable(d) && o.weights.maxSpeed > 0.0 && (x.Some? ==> TablesCover(x.value, |d.nodes|))
    requires GreatCircleLower(d, f64, great, target)
    ensures forall id: int :: EstimateById(d, o, x, great, target)(id) >= 0.0
  {
    forall id: int
      ensures EstimateById(d, o, x, great, target)(id) >= 0.0
    {
      hide Readable;
      hide GreatCircleLower;
      hide Estimate;
      if i: nat :| FindRecord(d, id, |d.nodes|) == Some(i) {
        LandmarkBuild.EstimateOfNonNegative(d, f64, o, x, great, target, i);
      }
    }
  }

  // ---- Routing ----

  /** A turn-aware query on the compact store: with or without landmarks, whatever the profile, it answers the
      minimum over all walks of edge costs and turn penalties. */
  method RouteTurnsWithLandmarks(d: Store, f64: Float64, q: Options, x: Option<Index>, from: int, to: int,
      kind: T.Classifier, great: nat -> nat -> real, wantPath: bool, hash: nat -> nat)
    returns (r: Outcome)
    requires Readable(d) && SortedIds(d) && |d.nodes| < WORD && I.NonNegativeLengths(d, f64)
    requires T.NonNegativeWeights(WithDefaults(q))
    requires x.Some? ==> IndexFor(d, f64, x.value) && TablesCover(x.value, |d.nodes|)
    requires forall j: nat :: GreatCircleLower(d, f64, great(j), j)
    ensures T.Answers(Exported(d, f64), from, to, WithDefaults(q), kind, wantPath, r)
  {
    hide *;
    var o := WithDefaults(q);
    LandmarkBuild.SpeedPositive(o);
    LengthsExported(d, f64);
    var target := I.NodeIndex(d, to);
    if target.None? {
      ZeroServesTurns(d, f64, o, to);
      r := IndexTurnSearch.IndexTurnSearch(d, f64, from, to, o, kind, (_: int) => 0.0, wantPath, hash);
      return;
    }
    EstimateServesTurns(d, f64, o, x, great(target.value), target.value);
    EstimatesNonNegative(d, f64, o, x, great(target.value), target.value);
    r := IndexTurnSearch.IndexTurnSearch(d, f64, from, to, o, kind,
      EstimateById(d, o, x, great(target.value), target.value),
                                         wantPath, hash);
  }
}
