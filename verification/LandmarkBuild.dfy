/** Preparing the landmark tables of a graph and routing with them
    (`WriteLandmarks` in core/router_landmarks.go). */
module LandmarkBuild {
  import opened Common
  import opened RouteCosts
  import opened GraphStore
  import opened AttributeCosts
  import opened ChainRuns
  import opened SearchTheory
  import opened Landmarks
  import opened LandmarkEstimates
  import opened LandmarkReverse
  import opened LandmarkDistances
  import opened LandmarkSpread
  import LandmarkSeed
  import IndexSearch

  function EdgesFrom(d: Store, i: nat): seq<EdgeRec>
    requires Readable(d)
  {
    if i < |d.nodes| then CompactEdges(d, i) else []
  }

  /** The adjacency a reader of the store sees. */
  function AdjacencyOf(d: Store): (adj: Adjacency)
    requires Readable(d)
    ensures |adj| == |d.nodes| && forall i :: 0 <= i < |adj| ==> adj[i] == CompactEdges(d, i)
  {
    seq(|d.nodes|, i requires 0 <= i < |d.nodes| => CompactEdges(d, i))
  }

  lemma AdjacencyExists(d: Store)
    requires Readable(d)
    ensures TargetsExist(AdjacencyOf(d))
  {}

  // ---- Walking the transposed graph is walking backwards ----

  ghost predicate Opposite(a: Arcs, b: Arcs) {
    forall x: nat, y: nat, c: real :: Arc(y, c) in a(x) <==> Arc(x, c) in b(y)
  }

  function Backwards(t: seq<Stop<nat>>): (r: seq<Stop<nat>>)
    requires |t| > 0
    ensures |r| == |t|
  {
    seq(|t|, i requires 0 <= i < |t| => Stop(t[|t| - 1 - i].at, t[|t| - 1].cost - t[|t| - 1 - i].cost))
  }

  lemma BackwardsWalks(a: Arcs, b: Arcs, x: nat, y: nat, t: seq<Stop<nat>>)
    requires Opposite(a, b) && WalkBetween(a, x, y, t)
    ensures WalkBetween(b, y, x, Backwards(t)) && Backwards(t)[|t| - 1].cost == t[|t| - 1].cost
  {
    var r := Backwards(t);
    forall i | 0 <= i < |r| - 1
      ensures Step(b, r[i], r[i + 1])
    {
      var k := |t| - 2 - i;
      assert Step(a, t[k], t[k + 1]);
      assert r[i + 1].cost - r[i].cost == t[k + 1].cost - t[k].cost;
    }
  }

  lemma OppositeBack(a: Arcs, b: Arcs)
    requires Opposite(a, b)
    ensures Opposite(b, a)
  {}

  lemma DistanceBackwards(a: Arcs, b: Arcs, x: nat, y: nat, dist: Ext)
    requires Opposite(a, b) && IsDistance(a, x, y, dist)
    ensures IsDistance(b, y, x, dist)
  {
    OppositeBack(a, b);
    forall t: seq<Stop<nat>> | WalkBetween(b, y, x, t)
      ensures dist.Fin? && dist.v <= t[|t| - 1].cost
    {
      BackwardsWalks(b, a, y, x, t);
    }
    if dist.Fin? {
      var t: seq<Stop<nat>> :| WalkBetween(a, x, y, t) && t[|t| - 1].cost == dist.v;
      BackwardsWalks(a, b, x, y, t);
    }
  }

  function ReverseArcs(d: Store, f64: Float64, timed: bool, rev: Reverse): Arcs {
    (i: nat) => UsableArcs(Row(rev, i), _ => true, MetricArc(d, f64, timed))
  }

  lemma {:induction false} ArcMembers(d: Store, f64: Float64, timed: bool, es: seq<EdgeRec>, a: Arc<nat>)
    ensures a in UsableArcs(es, _ => true, MetricArc(d, f64, timed)) <==>
      exists e :: e in es && MetricArc(d, f64, timed)(e) == a
  {
    var arc := MetricArc(d, f64, timed);
    if a in UsableArcs(es, _ => true, arc) {
      UsableArcsMembers(es, _ => true, arc, a);
    }
    if exists e :: e in es && arc(e) == a {
      var e :| e in es && arc(e) == a;
      UsableArcsComplete(es, _ => true, arc, e);
    }
  }

  lemma RowRead(d: Store, rev: Reverse, v: nat)
    requires Readable(d) && IsTranspose(AdjacencyOf(d), rev)
    ensures Row(rev, v) == if v < |d.nodes| then InEdges(AdjacencyOf(d), v, |d.nodes|) else []
  {
    if v < |d.nodes| {
      assert RowIs(AdjacencyOf(d), rev, v);
    }
  }

  /** An edge of the graph is an entry of the transposed graph the other way round. */
  lemma EdgeTurned(d: Store, rev: Reverse, x: nat, y: nat, attribute: nat, distance: nat)
    requires Readable(d) && IsTranspose(AdjacencyOf(d), rev)
    ensures EdgeRec(y, attribute, distance) in EdgesFrom(d, x) <==> EdgeRec(x, attribute, distance) in Row(rev, y)
  {
    RowRead(d, rev, y);
    var adj := AdjacencyOf(d);
    if y < |d.nodes| {
      RowMembers(adj, y, |adj|, EdgeRec(x, attribute, distance));
    }
    hide IsTranspose;
    hide InEdges;
    assert x < |d.nodes| ==> adj[x] == CompactEdges(d, x);
  }

  lemma ArcLength(d: Store, f64: Float64, timed: bool, e: EdgeRec, x: nat)
    ensures MetricArc(d, f64, timed)(e).to == e.target
    ensures MetricArc(d, f64, timed)(EdgeRec(x, e.attribute, e.distance)) == Arc(x, MetricArc(d, f64, timed)(e).cost)
  {}

  lemma ArcTurned(d: Store, f64: Float64, timed: bool, rev: Reverse, x: nat, y: nat, c: real)
    requires Readable(d) && IsTranspose(AdjacencyOf(d), rev)
    ensures Arc(y, c) in MetricArcs(d, f64, timed)(x) <==> Arc(x, c) in ReverseArcs(d, f64, timed, rev)(y)
  {
    ArcsRead(d, f64, timed, rev, x, y);
    hide *;
    ArcMembers(d, f64, timed, EdgesFrom(d, x), Arc(y, c));
    ArcMembers(d, f64, timed, Row(rev, y), Arc(x, c));
    if Arc(y, c) in MetricArcs(d, f64, timed)(x) {
      var e :| e in EdgesFrom(d, x) && MetricArc(d, f64, timed)(e) == Arc(y, c);
      ArcLength(d, f64, timed, e, x);
      EdgeTurned(d, rev, x, y, e.attribute, e.distance);
    }
    if Arc(x, c) in ReverseArcs(d, f64, timed, rev)(y) {
      var e :| e in Row(rev, y) && MetricArc(d, f64, timed)(e) == Arc(x, c);
      ArcLength(d, f64, timed, e, y);
      EdgeTurned(d, rev, x, y, e.attribute, e.distance);
    }
  }

  lemma ArcsRead(d: Store, f64: Float64, timed: bool, rev: Reverse, x: nat, y: nat)
    requires Readable(d)
    ensures MetricArcs(d, f64, timed)(x) == UsableArcs(EdgesFrom(d, x), _ => true, MetricArc(d, f64, timed))
    ensures ReverseArcs(d, f64, timed, rev)(y) == UsableArcs(Row(rev, y), _ => true, MetricArc(d, f64, timed))
  {}

  lemma GraphsOpposite(d: Store, f64: Float64, timed: bool, rev: Reverse)
    requires Readable(d) && IsTranspose(AdjacencyOf(d), rev)
    ensures Opposite(ReverseArcs(d, f64, timed, rev), MetricArcs(d, f64, timed))
  {
    hide MetricArcs;
    hide ReverseArcs;
    forall x: nat, y: nat, c: real
      ensures Arc(y, c) in ReverseArcs(d, f64, timed, rev)(x) <==> Arc(x, c) in MetricArcs(d, f64, timed)(y)
    {
      ArcTurned(d, f64, timed, rev, y, x, c);
    }
  }

  // ---- One landmark ----

  lemma LinksGiven(d: Store, f64: Float64, timed: bool, rev: Reverse)
    requires Readable(d) && IsTranspose(AdjacencyOf(d), rev)
    ensures Gives(Links((i: nat) => EdgesFrom(d, i), MetricArc(d, f64, timed)), MetricArcs(d, f64, timed))
    ensures Gives(Links((i: nat) => Row(rev, i), MetricArc(d, f64, timed)), ReverseArcs(d, f64, timed, rev))
  {
    hide Row;
  }

  lemma ArcsStayWithin(d: Store, f64: Float64, timed: bool, rev: Reverse)
    requires Readable(d) && IsTranspose(AdjacencyOf(d), rev)
    ensures ArcsWithin(MetricArcs(d, f64, timed), |d.nodes|) && ArcsWithin(ReverseArcs(d, f64, timed, rev), |d.nodes|)
  {
    hide Readable;
    forall i: nat, a | a in MetricArcs(d, f64, timed)(i)
      ensures a.to < |d.nodes|
    {
      UsableArcsMembers(EdgesFrom(d, i), _ => true, MetricArc(d, f64, timed), a);
    }
    forall i: nat, a | a in ReverseArcs(d, f64, timed, rev)(i)
      ensures a.to < |d.nodes|
    {
      ArcTurned(d, f64, timed, rev, a.to, i, a.cost);
      assert Arc(i, a.cost) in MetricArcs(d, f64, timed)(a.to);
    }
  }

  lemma ReverseNonNegative(d: Store, f64: Float64, timed: bool, rev: Reverse)
    requires Readable(d) && IsTranspose(AdjacencyOf(d), rev) && IndexSearch.NonNegativeLengths(d, f64)
    ensures NonNegative(MetricArcs(d, f64, timed)) && NonNegative(ReverseArcs(d, f64, timed, rev))
  {
    hide MetricArcs;
    hide ReverseArcs;
    hide Readable;
    hide IsTranspose;
    hide IndexSearch.NonNegativeLengths;
    MetricNonNegative(d, f64, timed);
    forall i: nat, a | a in ReverseArcs(d, f64, timed, rev)(i)
      ensures a.cost >= 0.0
    {
      ArcTurned(d, f64, timed, rev, a.to, i, a.cost);
      assert Arc(i, a.cost) in MetricArcs(d, f64, timed)(a.to);
    }
  }

  lemma DistancesNonNegative(arcs: Arcs, n: nat, seed: nat, distances: seq<Ext>)
    requires NonNegative(arcs) && AllDistances(arcs, n, seed, distances)
    ensures NoneNegative(distances)
  {
    forall v | 0 <= v < n && distances[v].Fin?
      ensures distances[v].v >= 0.0
    {
      assert IsDistance(arcs, seed, v, distances[v]);
      var t: seq<Stop<nat>> :| WalkBetween(arcs, seed, v, t) && t[|t| - 1].cost == distances[v].v;
      WalkNonNegative(arcs, seed, v, t);
    }
  }

  lemma CodesCover(arcs: Arcs, n: nat, seed: nat, distances: seq<Ext>, step: real, codes: seq<nat>)
    requires AllDistances(arcs, n, seed, distances) && Quantised(distances, step, codes)
    ensures |codes| == n && forall v :: 0 <= v < n ==> Coded(arcs, seed, v, codes[v], step)
  {
    hide IsDistance;
    hide Brackets;
  }

  lemma CodesBack(a: Arcs, b: Arcs, n: nat, seed: nat, codes: seq<nat>, step: real)
    requires Opposite(a, b) && |codes| == n && forall v :: 0 <= v < n ==> Coded(a, seed, v, codes[v], step)
    ensures forall v :: 0 <= v < n ==> Coded(b, v, seed, codes[v], step)
  {
    hide IsDistance;
    hide Opposite;
    forall v | 0 <= v < n
      ensures Coded(b, v, seed, codes[v], step)
    {
      var x := CodedDistance(a, seed, v, codes[v], step);
      DistanceBackwards(a, b, seed, v, x);
    }
  }

  /** The tables of one landmark under one metric. */
  method OneLandmark(d: Store, f64: Float64, timed: bool, seed: nat, rev: Reverse)
    returns (t: Table, forward: seq<Ext>, backward: seq<Ext>)
    requires Readable(d) && IsTranspose(AdjacencyOf(d), rev)
    requires IndexSearch.NonNegativeLengths(d, f64) && seed < |d.nodes|
    ensures TableOf(MetricArcs(d, f64, timed), |d.nodes|, seed, t)
    ensures AllDistances(MetricArcs(d, f64, timed), |d.nodes|, seed, forward)
    ensures AllDistances(ReverseArcs(d, f64, timed, rev), |d.nodes|, seed, backward)
    ensures NoneNegative(forward) && NoneNegative(backward) && |forward| == |backward| == |d.nodes|
  {
    hide *;
    ghost var n, ahead, behind := |d.nodes|, MetricArcs(d, f64, timed), ReverseArcs(d, f64, timed, rev);
    LinksGiven(d, f64, timed, rev);
    ArcsStayWithin(d, f64, timed, rev);
    ReverseNonNegative(d, f64, timed, rev);
    GraphsOpposite(d, f64, timed, rev);
    forward := Distances(Links((i: nat) => EdgesFrom(d, i), MetricArc(d, f64, timed)), ahead, |d.nodes|, seed);
    backward := Distances(Links((i: nat) => Row(rev, i), MetricArc(d, f64, timed)), behind, |d.nodes|, seed);
    DistancesNonNegative(ahead, n, seed, forward);
    DistancesNonNegative(behind, n, seed, backward);
    var initial := if timed then 1.0 / 16.0 else 1.0;
    var fromStep, from := Quantise(forward, initial);
    var toStep, to := Quantise(backward, initial);
    CodesCover(ahead, n, seed, forward, fromStep, from);
    CodesCover(behind, n, seed, backward, toStep, to);
    CodesBack(behind, ahead, n, seed, to, toStep);
    t := Table(from, fromStep, to, toStep);
    IsTable(ahead, n, seed, t);
    DistanceCounts(ahead, n, seed, forward);
    DistanceCounts(behind, n, seed, backward);
  }

  lemma IsTable(arcs: Arcs, n: nat, seed: nat, t: Table)
    requires |t.from| == |t.to| == n && t.fromStep > 0.0 && t.toStep > 0.0
    requires forall v :: 0 <= v < n ==> Coded(arcs, seed, v, t.from[v], t.fromStep)
    requires forall v :: 0 <= v < n ==> Coded(arcs, v, seed, t.to[v], t.toStep)
    ensures TableOf(arcs, n, seed, t)
  {}

  lemma DistanceCounts(arcs: Arcs, n: nat, seed: nat, distances: seq<Ext>)
    requires AllDistances(arcs, n, seed, distances)
    ensures |distances| == n
  {}

  method CheckLengths(d: Store, f64: Float64) returns (ok: bool)
    requires Readable(d)
    ensures ok <==> IndexSearch.NonNegativeLengths(d, f64)
  {
    hide Readable;
    hide CompactEdges;
    ok := true;
    for i := 0 to |d.nodes|
      invariant forall v, e :: 0 <= v < i && e in CompactEdges(d, v) ==> f64(e.distance) >= 0.0
    {
      var es := CompactEdges(d, i);
      for k := 0 to |es|
        invariant forall j :: 0 <= j < k ==> f64(es[j].distance) >= 0.0
      {
        if f64(es[k].distance) < 0.0 {
          assert es[k] in CompactEdges(d, i);
          return false;
        }
      }
    }
  }

  /** The limits of the landmark file. */
  predicate FitsIndex(d: Store) {
    0 < |d.nodes| <= 0x7FFF_FFFF && d.edgeCount <= 0xFFFF_FFFF
  }

  lemma Limits(d: Store)
    ensures FitsIndex(d) <==> 0 < |d.nodes| <= 0x7FFF_FFFF && d.edgeCount <= 0xFFFF_FFFF
  {}

  /** Prepares four landmarks: two under either metric, both pairs starting at the same seed, the second of
      each pair as far from it as possible. */
  method WriteLandmarks(d: Store, f64: Float64) returns (r: Option<Index>, seeds: seq<nat>)
    requires Readable(d)
    ensures r.Some? <==>
      0 < |d.nodes| <= 0x7FFF_FFFF && d.edgeCount <= 0xFFFF_FFFF && IndexSearch.NonNegativeLengths(d, f64)
    ensures r.Some? ==> IndexFor(d, f64, r.value) && TablesCover(r.value, |d.nodes|)
    ensures r.Some? ==> |seeds| == 4 && seeds[2] == seeds[0] && LandmarkSeed.IsSeed(AdjacencyOf(d), seeds[0])
    ensures r.Some? ==>
      && IsFarthest(MetricArcs(d, f64, false), MetricArcs(d, f64, false), |d.nodes|, seeds[0], seeds[1])
      && IsFarthest(MetricArcs(d, f64, false), MetricArcs(d, f64, true), |d.nodes|, seeds[2], seeds[3])
  {
    hide *;
    seeds := [];
    Limits(d);
    var ok := CheckLengths(d, f64);
    if !FitsIndex(d) || !ok {
      return None, seeds;
    }
    var adj := AdjacencyOf(d);
    AdjacencyExists(d);
    var rev := BuildReverse(adj);
    var initialSeed := LandmarkSeed.FindSeed(adj);
    var seed: nat := initialSeed;
    var selected: set<nat> := {};
    var closest := seq(|d.nodes|, _ => Inf);
    var eligible: seq<bool> := [];
    var tables: seq<Table> := [];
    NothingNegative(closest);
    ghost var n, plain := |d.nodes|, MetricArcs(d, f64, false);
    var landmark := 0;
    while landmark < 4
      invariant landmark <= 4 && |tables| == |seeds| == landmark && seed < |d.nodes|
      invariant |closest| == |d.nodes| && NoneNegative(closest)
      invariant landmark > 0 ==> |eligible| == |d.nodes|
      invariant forall i :: 0 <= i < landmark ==> LandmarkTable(d, f64, i >= 2, tables[i])
      invariant landmark == 0 ==> seed == initialSeed
      invariant landmark > 0 ==> seeds[0] == initialSeed
      invariant landmark > 2 ==> seeds[2] == initialSeed
      invariant landmark > 0 ==> InComponent(plain, n, initialSeed, eligible)
      invariant landmark == 1 ==> IsFarthest(plain, plain, n, initialSeed, seed)
      invariant landmark == 3 ==> IsFarthest(plain, MetricArcs(d, f64, true), n, initialSeed, seed)
      invariant landmark > 1 ==> IsFarthest(plain, plain, n, seeds[0], seeds[1])
      invariant landmark > 3 ==> IsFarthest(plain, MetricArcs(d, f64, true), n, seeds[2], seeds[3])
      invariant landmark == 0 ==> selected == {} && NoneYet(closest)
    {
      if landmark == 2 {
        seed, selected := initialSeed, {};
        closest := seq(|d.nodes|, _ => Inf);
        NothingNegative(closest);
      }
      seeds, selected := seeds + [seed], selected + {seed};
      ghost var arcs, first := MetricArcs(d, f64, landmark >= 2), seed;
      var t, forward, backward := OneLandmark(d, f64, landmark >= 2, seed, rev);
      HasTable(d, f64, landmark >= 2, seed, t);
      BackwardsAreTo(d, f64, landmark >= 2, rev, seed, backward);
      if landmark == 0 {
        eligible := BothWays(forward, backward);
        Component(plain, n, initialSeed, forward, backward, eligible);
      }
      tables := tables + [t];
      ghost var before := closest;
      closest, seed := NextSeed(closest, eligible, selected, forward, backward, seed);
      if landmark % 2 == 0 {
        assert selected == {first};
        FarthestChosen(plain, arcs, n, first, eligible, before, forward, backward, closest, seed);
      }
      landmark := landmark + 1;
    }
    r := Some(Index(tables));
    IsIndex(d, f64, r.value);
  }

  lemma NothingNegative(distances: seq<Ext>)
    requires forall i :: 0 <= i < |distances| ==> distances[i] == Inf
    ensures NoneNegative(distances) && NoneYet(distances)
  {}

  /** The distances found backwards are the distances to the landmark. */
  lemma BackwardsAreTo(d: Store, f64: Float64, timed: bool, rev: Reverse, seed: nat, backward: seq<Ext>)
    requires Readable(d) && IsTranspose(AdjacencyOf(d), rev)
    requires AllDistances(ReverseArcs(d, f64, timed, rev), |d.nodes|, seed, backward)
    ensures AllDistancesTo(MetricArcs(d, f64, timed), |d.nodes|, seed, backward)
  {
    hide IsDistance;
    hide Readable;
    hide MetricArcs;
    hide ReverseArcs;
    GraphsOpposite(d, f64, timed, rev);
    forall v | 0 <= v < |d.nodes|
      ensures IsDistance(MetricArcs(d, f64, timed), v, seed, backward[v])
    {
      DistanceBackwards(ReverseArcs(d, f64, timed, rev), MetricArcs(d, f64, timed), seed, v, backward[v]);
    }
  }

  lemma HasTable(d: Store, f64: Float64, timed: bool, seed: nat, t: Table)
    requires Readable(d) && seed < |d.nodes| && TableOf(MetricArcs(d, f64, timed), |d.nodes|, seed, t)
    ensures LandmarkTable(d, f64, timed, t)
  {}

  lemma IsIndex(d: Store, f64: Float64, x: Index)
    requires Readable(d) && |x.tables| == 4 && forall i :: 0 <= i < 4 ==> LandmarkTable(d, f64, i >= 2, x.tables[i])
    ensures IndexFor(d, f64, x) && TablesCover(x, |d.nodes|)
  {
    forall i | 0 <= i < 4
      ensures |x.tables[i].from| == |x.tables[i].to| == |d.nodes|
    {
      assert LandmarkTable(d, f64, i >= 2, x.tables[i]);
    }
  }

  // ---- Routing with the tables ----

  lemma OneTarget(d: Store, to: int, i: nat, j: nat)
    requires SortedIds(d) && i < |d.nodes| && d.nodes[i].id == to && IndexSearch.IsRecord(d, j, to)
    ensures i == j
  {}

  lemma NoTarget(d: Store, to: int, j: nat)
    requires forall i :: 0 <= i < |d.nodes| ==> d.nodes[i].id != to
    ensures !IndexSearch.IsRecord(d, j, to)
  {}

  /** A turn-free query on the compact store: with or without landmarks, with or without eager chain
      walking, whatever the profile and options, it answers the minimum over all allowed walks. */
  method RouteWithLandmarks(d: Store, f64: Float64, q: Options, x: Option<Index>, from: int, to: int,
                            great: nat -> nat -> real, walkChains: bool, wantPath: bool, hash: nat -> nat)
    returns (r: Outcome, ghost estimate: nat -> real)
    requires Readable(d) && SortedIds(d) && IndexSearch.NonNegativeLengths(d, f64)
    requires x.Some? ==> IndexFor(d, f64, x.value) && TablesCover(x.value, |d.nodes|)
    requires forall j: nat :: GreatCircleLower(d, f64, great(j), j)
    ensures IndexSearch.Answers(d, f64, WithDefaults(q), from, to, estimate, wantPath, r)
  {
    hide *;
    var o := WithDefaults(q);
    SpeedPositive(o);
    var target := IndexSearch.NodeIndex(d, to);
    if target.None? {
      forall j: nat
        ensures !IndexSearch.IsRecord(d, j, to)
      {
        NoTarget(d, to, j);
      }
      estimate := (_: nat) => 0.0;
      r := IndexSearch.IndexNodeSearch(d, f64, o, from, to, (_: nat) => 0.0, walkChains, wantPath, hash);
      return;
    }
    var t: nat := target.value;
    var e := EstimateOf(d, o, x, great(t), t);
    estimate := e;
    forall i: nat, j: nat | IndexSearch.IsRecord(d, j, to)
      ensures Admissible(IndexSearch.QueryProblem(d, f64, o, i, j, e))
    {
      OneTarget(d, to, t, j);
      EstimateIsAdmissible(d, f64, o, x, great(t), i, t);
    }
    forall i: nat
      ensures e(i) >= 0.0
    {
      EstimateOfNonNegative(d, f64, o, x, great(t), t, i);
    }
    r := IndexSearch.IndexNodeSearch(d, f64, o, from, to, e, walkChains, wantPath, hash);
  }

  lemma SpeedPositive(o: Options)
    requires o.weights.maxSpeed >= 5.0
    ensures o.weights.maxSpeed > 0.0
  {}

  lemma EstimateOfNonNegative(d: Store, f64: Float64, o: Options, x: Option<Index>, great: nat -> real, target: nat,
      i: nat)
    requires Readable(d) && o.weights.maxSpeed > 0.0 && (x.Some? ==> TablesCover(x.value, |d.nodes|))
    requires GreatCircleLower(d, f64, great, target)
    ensures EstimateOf(d, o, x, great, target)(i) >= 0.0
  {
    EstimateNonNegative(o, x, |d.nodes|, great(i), i, target);
  }
}
