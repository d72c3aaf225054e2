/** The turn-free search on the compact store's node indices (core/router_node_index.go).
    Interiors of packed chains are labelled while walking along the chain and are not queued. */
module IndexSearch {
  import opened Common
  import opened RouteCosts
  import opened RouteHeap
  import opened GraphStore
  import opened AttributeCosts
  import opened LabelTable
  import opened SearchTheory
  import opened Pigeonhole

  predicate InRange(d: Store, e: EdgeRec) {
    e.attribute < |d.attributes| && d.attributes[e.attribute].class_ < |d.classes|
  }

  function Usable(d: Store, f64: Float64, o: Options): EdgeRec -> bool {
    (e: EdgeRec) => InRange(d, e) && AttributesAllowed(o, AttributesOf(d, f64, e.attribute))
  }

  function ArcOf(d: Store, f64: Float64, o: Options): EdgeRec -> Arc<nat> {
    (e: EdgeRec) =>
      Arc(e.target, if InRange(d, e) then BaseCost(o, AttributesOf(d, f64, e.attribute), f64(e.distance)) else 0.0)
  }

  function ArcsOf(d: Store, f64: Float64, o: Options, i: nat): seq<Arc<nat>>
    requires Readable(d)
  {
    if i < |d.nodes| then UsableArcs(CompactEdges(d, i), Usable(d, f64, o), ArcOf(d, f64, o)) else []
  }

  /** The search problem of a query on the compact store. */
  ghost function QueryProblem(d: Store, f64: Float64, o: Options, from: nat, to: nat,
      estimate: nat -> real): Problem<nat>
    requires Readable(d)
  {
    Problem((i: nat) => ArcsOf(d, f64, o, i), from, (i: nat) => i == to, estimate, Below(|d.nodes|))
  }

  ghost predicate NonNegativeLengths(d: Store, f64: Float64)
    requires Readable(d)
  {
    forall i, e :: 0 <= i < |d.nodes| && e in CompactEdges(d, i) ==> f64(e.distance) >= 0.0
  }

  lemma ArcIsEdge(d: Store, f64: Float64, o: Options, i: nat, a: Arc<nat>) returns (e: EdgeRec)
    requires Readable(d) && a in ArcsOf(d, f64, o, i)
    ensures i < |d.nodes| && e in CompactEdges(d, i) && Usable(d, f64, o)(e) && a == ArcOf(d, f64, o)(e)
  {
    UsableArcsMembers(CompactEdges(d, i), Usable(d, f64, o), ArcOf(d, f64, o), a);
    e :| e in CompactEdges(d, i) && Usable(d, f64, o)(e) && a == ArcOf(d, f64, o)(e);
  }

  lemma QueryIsWellPosed(d: Store, f64: Float64, o: Options, from: nat, to: nat, estimate: nat -> real)
    requires Readable(d) && NonNegativeLengths(d, f64) && from < |d.nodes|
    requires Admissible(QueryProblem(d, f64, o, from, to, estimate)) && forall i :: estimate(i) >= 0.0
    ensures WellPosed(QueryProblem(d, f64, o, from, to, estimate))
  {
    var p := QueryProblem(d, f64, o, from, to, estimate);
    forall i: nat, a | a in p.arcs(i)
      ensures a.cost >= 0.0 && a.to in p.universe
    {
      var e := ArcIsEdge(d, f64, o, i, a);
      BaseCostNonNegative(o, AttributesOf(d, f64, e.attribute), f64(e.distance));
    }
  }

  /** Entered from `previous`, a chain node has nothing left to relax but its continuation. */
  lemma ContinuationHalfDone(p: Problem<nat>, d: Store, f64: Float64, o: Options, labels: map<nat, Label<nat>>,
                             node: nat, previous: nat)
    requires Readable(d) && node < |d.nodes| && NonNegative(p.arcs)
    requires p.arcs(node) == ArcsOf(d, f64, o, node) && !p.goal(node)
    requires ChainContinuation(d, node, previous).Some?
    requires node in labels && previous in labels && labels[previous].cost <= labels[node].cost
    ensures var on := ChainContinuation(d, node, previous).value;
      HalfDone(p, labels, node, ArcOf(d, f64, o)(on), Usable(d, f64, o)(on))
  {
    var on := ChainContinuation(d, node, previous).value;
    ContinuationIsAnEdge(d, node, previous);
    if Usable(d, f64, o)(on) {
      UsableArcsComplete(CompactEdges(d, node), Usable(d, f64, o), ArcOf(d, f64, o), on);
    }
    forall b | b in p.arcs(node)
      ensures Done(labels, node, b) || (Usable(d, f64, o)(on) && b == ArcOf(d, f64, o)(on))
    {
      var e := ArcIsEdge(d, f64, o, node, b);
      ContinuationIsTheOnlyWayOn(d, node, previous, e);
    }
  }

  /** Where the inner loop stands: about to relax edge `e` out of `x`, which costs `cost` to reach.
      First `x` is the expanded node `u`; from then on a chain node walked to but never queued. */
  ghost predicate Walking(p: Problem<nat>, usable: EdgeRec -> bool, arc: EdgeRec -> Arc<nat>, st: State<nat>,
                          u: nat, k: nat, first: bool, x: nat, cost: real, e: EdgeRec) {
    && DoneUpTo(p, st.labels, u, k)
    && x in st.labels && st.labels[x].cost == cost && st.labels[u].cost <= cost
    && if first then
         && x == u && Inv(p, st, {u})
         && (usable(e) ==> k < |p.arcs(u)| && p.arcs(u)[k] == arc(e))
       else
         Inv(p, st, {u} + {x}) && HalfDone(p, st.labels, x, arc(e), usable(e))
  }

  /** How many arcs of `u` are done after the edge. */
  ghost function DoneAfter(usable: EdgeRec -> bool, k: nat, first: bool, e: EdgeRec): nat {
    if first && usable(e) then k + 1 else k
  }

  /** The edge may not be used or does not improve: the walk ends here. */
  lemma NothingToGain(p: Problem<nat>, usable: EdgeRec -> bool, arc: EdgeRec -> Arc<nat>, st: State<nat>,
                      u: nat, k: nat, first: bool, x: nat, cost: real, e: EdgeRec)
    requires Walking(p, usable, arc, st, u, k, first, x, cost, e)
    requires usable(e) ==> !Improves(st.labels, arc(e).to, cost + arc(e).cost)
    ensures Inv(p, st, {u}) && DoneUpTo(p, st.labels, u, DoneAfter(usable, k, first, e))
  {
    hide Inv;
    hide DoneUpTo;
    hide HalfDone;
    if first {
      if usable(e) {
        ArcAlreadyDone(p, st.labels, u, k);
      }
    } else {
      WalkStops(p, st, u, x, arc(e), usable(e));
    }
  }

  /** The edge improves its target, which is queued or left for the walk to go on from. */
  lemma Gain(p: Problem<nat>, usable: EdgeRec -> bool, arc: EdgeRec -> Arc<nat>, st: State<nat>,
             u: nat, k: nat, first: bool, x: nat, cost: real, e: EdgeRec, queued: bool)
    requires WellPosed(p) && Walking(p, usable, arc, st, u, k, first, x, cost, e)
    requires usable(e) && Improves(st.labels, arc(e).to, cost + arc(e).cost)
    ensures x in st.routes
    ensures var st' := Relaxed(p, st, x, arc(e).to, cost + arc(e).cost, queued);
      && Inv(p, st', if queued then {u} else {u} + {arc(e).to})
      && DoneUpTo(p, st'.labels, u, DoneAfter(usable, k, first, e))
      && st'.labels[u] == st.labels[u] && st'.labels[x] == st.labels[x] && arc(e).to != u
      && Remaining(p, st'.labels) < Remaining(p, st.labels)
  {
    hide Inv;
    hide WellPosed;
    hide DoneUpTo;
    hide Remaining;
    if first {
      RelaxArc(p, st, u, k, queued);
    } else {
      WalkRelaxes(p, st, u, k, x, arc(e), queued);
    }
  }

  /** What stays fixed during one query. */
  datatype Query =
      Query(d: Store, f64: Float64, o: Options, from: nat, to: nat, estimate: nat -> real, walkChains: bool)

  ghost predicate Serves(p: Problem<nat>, q: Query) {
    && WellPosed(p) && Readable(q.d)
    && (forall i: nat :: p.arcs(i) == ArcsOf(q.d, q.f64, q.o, i))
    && (forall i: nat :: p.goal(i) <==> i == q.to)
    && p.start == q.from && p.estimate == q.estimate && p.universe == Below(|q.d.nodes|)
  }

  ghost predicate IdsOf(d: Store, nodes: seq<nat>, path: seq<int>) {
    |nodes| == |path| && forall i :: 0 <= i < |nodes| ==> nodes[i] < |d.nodes| && path[i] == d.nodes[nodes[i]].id
  }

  /** The heap objects of a search agree with the abstract state. */
  ghost predicate InSync(labels: IndexedRouteLabels, pq: ValueHeap<nat>, st: State<nat>)
    reads labels, pq
  {
    labels.Valid() && pq.Valid() && labels.labels == st.labels && multiset(pq.items) == st.queue
  }

  /** Going on along the chain re-establishes the loop's situation at the next node. */
  lemma WalksOn(p: Problem<nat>, q: Query, st: State<nat>, u: nat, k: nat, x: nat, to: nat)
    requires Serves(p, q) && to < |q.d.nodes| && to != q.to
    requires ChainContinuation(q.d, to, x).Some?
    requires Inv(p, st, {u} + {to}) && DoneUpTo(p, st.labels, u, k)
    requires x in st.labels && to in st.labels && st.labels[x].cost <= st.labels[to].cost
    requires st.labels[u].cost <= st.labels[to].cost
    ensures Walking(p, Usable(q.d, q.f64, q.o), ArcOf(q.d, q.f64, q.o), st, u, k, false, to, st.labels[to].cost,
                    ChainContinuation(q.d, to, x).value)
  {
    hide Inv;
    hide DoneUpTo;
    ContinuationHalfDone(p, q.d, q.f64, q.o, st.labels, to, x);
  }

  lemma ServesWell(p: Problem<nat>, q: Query)
    requires Serves(p, q)
    ensures WellPosed(p) && Readable(q.d) && p.estimate == q.estimate
  {}

  lemma EdgeMeansArc(q: Query, e: EdgeRec)
    requires Readable(q.d) && e.attribute < |q.d.attributes|
    ensures q.d.attributes[e.attribute].class_ < |q.d.classes|
    ensures var a := AttributesOf(q.d, q.f64, e.attribute);
      && Usable(q.d, q.f64, q.o)(e) == AttributesAllowed(q.o, a)
      && ArcOf(q.d, q.f64, q.o)(e) == Arc(e.target, BaseCost(q.o, a, q.f64(e.distance)))
  {
    assert q.d.attributes[e.attribute] in q.d.attributes;
  }

  lemma WalkingLabels(p: Problem<nat>, usable: EdgeRec -> bool, arc: EdgeRec -> Arc<nat>, st: State<nat>,
                      u: nat, k: nat, first: bool, x: nat, cost: real, e: EdgeRec)
    requires Walking(p, usable, arc, st, u, k, first, x, cost, e)
    ensures x in st.labels && u in st.labels && st.labels[x].cost == cost && st.labels[u].cost <= cost
  {}

  lemma RelaxedParts(p: Problem<nat>, st: State<nat>, x: nat, to: nat, cost: real, queued: bool)
    requires x in st.routes
    ensures Relaxed(p, st, x, to, cost, queued).labels == st.labels[to := Label(cost, x)]
    ensures Relaxed(p, st, x, to, cost, queued).queue
      == if queued then st.queue + multiset{CandidateOf(p, to, cost)} else st.queue
  {}

  lemma ImprovedLabel(st: State<nat>, x: nat, to: nat, cost: real, queued: bool, p: Problem<nat>)
    requires x in st.routes
    ensures to in Relaxed(p, st, x, to, cost, queued).labels
    ensures Relaxed(p, st, x, to, cost, queued).labels[to].cost == cost
  {}

  /** What one round leaves behind: the walk is over, or stands at the target of `e` with the way `on`. */
  ghost predicate RoundDone(p: Problem<nat>, q: Query, st: State<nat>, u: nat, k: nat, first: bool, e: EdgeRec,
                            on: Option<EdgeRec>, reached: real, st': State<nat>)
    requires Readable(q.d)
  {
    var usable, arc := Usable(q.d, q.f64, q.o), ArcOf(q.d, q.f64, q.o);
    && u in st.labels && u in st'.labels && st'.labels[u] == st.labels[u]
    && (st' == st || Remaining(p, st'.labels) < Remaining(p, st.labels))
    && match on
       case None => Inv(p, st', {u}) && DoneUpTo(p, st'.labels, u, DoneAfter(usable, k, first, e))
       case Some(e') =>
         && e'.target < |q.d.nodes| && e'.attribute < |q.d.attributes|
         && Walking(p, usable, arc, st', u, DoneAfter(usable, k, first, e), false, e.target, reached, e')
  }

  lemma EndWithoutGain(p: Problem<nat>, q: Query, st: State<nat>, u: nat, k: nat, first: bool, x: nat, cost: real,
      e: EdgeRec, reached: real)
    requires Readable(q.d)
    requires Walking(p, Usable(q.d, q.f64, q.o), ArcOf(q.d, q.f64, q.o), st, u, k, first, x, cost, e)
    requires Usable(q.d, q.f64, q.o)(e) ==>
      var a := ArcOf(q.d, q.f64, q.o)(e); !Improves(st.labels, a.to, cost + a.cost)
    ensures RoundDone(p, q, st, u, k, first, e, None, reached, st)
  {
    var usable, arc := Usable(q.d, q.f64, q.o), ArcOf(q.d, q.f64, q.o);
    hide Inv;
    hide DoneUpTo;
    hide HalfDone;
    hide Usable;
    hide ArcOf;
    WalkingLabels(p, usable, arc, st, u, k, first, x, cost, e);
    NothingToGain(p, usable, arc, st, u, k, first, x, cost, e);
  }

  lemma EndQueued(p: Problem<nat>, q: Query, st: State<nat>, u: nat, k: nat, first: bool, x: nat, cost: real,
      e: EdgeRec)
    requires Serves(p, q)
    requires Walking(p, Usable(q.d, q.f64, q.o), ArcOf(q.d, q.f64, q.o), st, u, k, first, x, cost, e)
    requires Usable(q.d, q.f64, q.o)(e)
    requires var a := ArcOf(q.d, q.f64, q.o)(e); a.to == e.target && Improves(st.labels, e.target, cost + a.cost)
    ensures x in st.routes && Readable(q.d)
    ensures var reached := cost + ArcOf(q.d, q.f64, q.o)(e).cost;
      RoundDone(p, q, st, u, k, first, e, None, reached, Relaxed(p, st, x, e.target, reached, true))
  {
    hide Inv;
    hide WellPosed;
    hide Readable;
    hide DoneUpTo;
    hide HalfDone;
    hide Remaining;
    hide Usable;
    hide ArcOf;
    ServesWell(p, q);
    var usable, arc := Usable(q.d, q.f64, q.o), ArcOf(q.d, q.f64, q.o);
    WalkingLabels(p, usable, arc, st, u, k, first, x, cost, e);
    Gain(p, usable, arc, st, u, k, first, x, cost, e, true);
  }

  lemma EndWalking(p: Problem<nat>, q: Query, st: State<nat>, u: nat, k: nat, first: bool, x: nat, cost: real,
      e: EdgeRec)
    requires Serves(p, q) && e.target < |q.d.nodes| && e.target != q.to
    requires ChainContinuation(q.d, e.target, x).Some?
    requires Walking(p, Usable(q.d, q.f64, q.o), ArcOf(q.d, q.f64, q.o), st, u, k, first, x, cost, e)
    requires Usable(q.d, q.f64, q.o)(e)
    requires var a := ArcOf(q.d, q.f64, q.o)(e);
      a.to == e.target && a.cost >= 0.0 && Improves(st.labels, e.target, cost + a.cost)
    ensures x in st.routes && Readable(q.d)
    ensures var reached := cost + ArcOf(q.d, q.f64, q.o)(e).cost;
      RoundDone(p, q, st, u, k, first, e, ChainContinuation(q.d, e.target, x), reached,
                Relaxed(p, st, x, e.target, reached, false))
  {
    hide *;
    ServesWell(p, q);
    var usable, arc := Usable(q.d, q.f64, q.o), ArcOf(q.d, q.f64, q.o);
    WalkingLabels(p, usable, arc, st, u, k, first, x, cost, e);
    Gain(p, usable, arc, st, u, k, first, x, cost, e, false);
    var st' := Relaxed(p, st, x, e.target, cost + arc(e).cost, false);
    ImprovedLabel(st, x, e.target, cost + arc(e).cost, false, p);
    RelaxedParts(p, st, x, e.target, cost + arc(e).cost, false);
    WalksOn(p, q, st', u, DoneAfter(usable, k, first, e), x, e.target);
    ContinuationRead(q.d, e.target, x);
    GoesOn(p, q, st, u, k, first, e, ChainContinuation(q.d, e.target, x).value, cost + arc(e).cost, st');
  }

  lemma ContinuationRead(d: Store, node: nat, previous: nat)
    requires Readable(d) && node < |d.nodes| && ChainContinuation(d, node, previous).Some?
    ensures ChainContinuation(d, node, previous).value.target < |d.nodes|
    ensures ChainContinuation(d, node, previous).value.attribute < |d.attributes|
  {}

  lemma GoesOn(p: Problem<nat>, q: Query, st: State<nat>, u: nat, k: nat, first: bool, e: EdgeRec, on: EdgeRec,
      reached: real, st': State<nat>)
    requires Readable(q.d) && on.target < |q.d.nodes| && on.attribute < |q.d.attributes|
    requires u in st.labels && u in st'.labels && st'.labels[u] == st.labels[u]
    requires st' == st || Remaining(p, st'.labels) < Remaining(p, st.labels)
    requires Walking(p, Usable(q.d, q.f64, q.o), ArcOf(q.d, q.f64, q.o), st', u,
      DoneAfter(Usable(q.d, q.f64, q.o), k, first, e), false,
                     e.target, reached, on)
    ensures RoundDone(p, q, st, u, k, first, e, Some(on), reached, st')
  {
    hide Walking;
    hide Remaining;
    hide Usable;
    hide ArcOf;
    hide DoneAfter;
  }

  /** One round of the inner loop: relaxes `e` out of `x`; `on` is the edge to go on with, if any. */
  method RelaxOnce(ghost p: Problem<nat>, q: Query, ghost u: nat, ghost k: nat, ghost first: bool, x: nat, cost: real,
      e: EdgeRec, mayWalk: bool, costs: CompactRouteCosts, labels: IndexedRouteLabels, pq: ValueHeap<nat>,
                     ghost st: State<nat>)
    returns (on: Option<EdgeRec>, reached: real, ghost st': State<nat>)
    requires Serves(p, q) && e.target < |q.d.nodes| && e.attribute < |q.d.attributes|
    requires costs.Valid() && costs.d == q.d && costs.f64 == q.f64 && costs.options == q.o
    requires InSync(labels, pq, st)
    requires Walking(p, Usable(q.d, q.f64, q.o), ArcOf(q.d, q.f64, q.o), st, u, k, first, x, cost, e)
    modifies costs.slots, labels, pq
    ensures costs.Valid() && InSync(labels, pq, st')
    ensures RoundDone(p, q, st, u, k, first, e, on, reached, st')
    ensures !mayWalk ==> on.None?
  {
    hide Inv;
    hide Serves;
    hide WellPosed;
    hide Readable;
    hide Walking;
    hide RoundDone;
    hide Relaxed;
    hide Usable;
    hide ArcOf;
    hide BaseCost;
    hide AttributesAllowed;
    hide AttributesOf;
    hide ChainContinuation;
    hide CompactRouteCosts.Valid;
    hide IndexedRouteLabels.Valid;
    hide ValueHeap.Valid;
    ServesWell(p, q);
    EdgeMeansArc(q, e);
    st', on, reached := st, None, cost;
    var edgeCost, allowed := costs.EdgeCost(e.attribute, q.f64(e.distance));
    if !allowed {
      EndWithoutGain(p, q, st, u, k, first, x, cost, e, reached);
      return;
    }
    reached := cost + edgeCost;
    var improved := labels.Relax(e.target, reached, x);
    if !improved {
      EndWithoutGain(p, q, st, u, k, first, x, cost, e, reached);
      return;
    }
    if q.walkChains && e.target != q.to && mayWalk && edgeCost >= 0.0 {
      on := ChainContinuation(q.d, e.target, x);
    }
    if on.None? {
      EndQueued(p, q, st, u, k, first, x, cost, e);
      pq.Push(Candidate(e.target, reached, reached + q.estimate(e.target)));
    } else {
      EndWalking(p, q, st, u, k, first, x, cost, e);
    }
    RelaxedParts(p, st, x, e.target, reached, on.None?);
    st' := Relaxed(p, st, x, e.target, reached, on.None?);
  }

  /** A finished round that goes on starts the next one; its result then counts from the first round. */
  lemma NextRound(p: Problem<nat>, q: Query, st: State<nat>, u: nat, k: nat, first: bool, e: EdgeRec,
                  on: Option<EdgeRec>, reached: real, st': State<nat>)
    requires Readable(q.d) && RoundDone(p, q, st, u, k, first, e, on, reached, st')
    ensures u in st.labels && u in st'.labels && st'.labels[u] == st.labels[u]
    ensures st' == st || Remaining(p, st'.labels) < Remaining(p, st.labels)
    ensures on.Some? ==>
      && on.value.target < |q.d.nodes| && on.value.attribute < |q.d.attributes|
      && Walking(p, Usable(q.d, q.f64, q.o), ArcOf(q.d, q.f64, q.o), st', u,
        DoneAfter(Usable(q.d, q.f64, q.o), k, first, e),
                 false, e.target, reached, on.value)
    ensures on.None? ==> Inv(p, st', {u}) && DoneUpTo(p, st'.labels, u, DoneAfter(Usable(q.d, q.f64, q.o), k, first, e))
  {}

  /** The inner loop: relaxes one outgoing edge of `current` and, where it enters a packed chain,
      the edges that lead on along the chain, at most 32 in all. */
  method RelaxEdge(ghost p: Problem<nat>, q: Query, current: Candidate<nat>, edge: EdgeRec, costs: CompactRouteCosts,
                   labels: IndexedRouteLabels, pq: ValueHeap<nat>, ghost st: State<nat>, ghost k: nat)
    returns (ghost st': State<nat>)
    requires Serves(p, q) && edge.target < |q.d.nodes| && edge.attribute < |q.d.attributes|
    requires costs.Valid() && costs.d == q.d && costs.f64 == q.f64 && costs.options == q.o
    requires InSync(labels, pq, st)
    requires Walking(p, Usable(q.d, q.f64, q.o), ArcOf(q.d, q.f64, q.o), st, current.id, k, true, current.id,
      current.dist, edge)
    modifies costs.slots, labels, pq
    ensures costs.Valid() && InSync(labels, pq, st')
    ensures RoundDone(p, q, st, current.id, k, true, edge, None, current.dist, st')
  {
    hide Inv;
    hide Serves;
    hide WellPosed;
    hide Readable;
    hide Remaining;
    hide Walking;
    hide RoundDone;
    hide DoneUpTo;
    hide CompactRouteCosts.Valid;
    hide IndexedRouteLabels.Valid;
    hide ValueHeap.Valid;
    hide Usable;
    hide ArcOf;
    ServesWell(p, q);
    ghost var usable, arc := Usable(q.d, q.f64, q.o), ArcOf(q.d, q.f64, q.o);
    ghost var u := current.id;
    var e := edge;
    var on, reached;
    on, reached, st' := RelaxOnce(p, q, u, k, true, current.id, current.dist, edge, true, costs, labels, pq, st);
    NextRound(p, q, st, u, k, true, edge, on, reached, st');
    ghost var k' := DoneAfter(usable, k, true, edge);
    var steps := 1;
    while on.Some?
      invariant 1 <= steps <= 33
      invariant costs.Valid() && InSync(labels, pq, st')
      invariant u in st'.labels && st'.labels[u] == st.labels[u]
      invariant st' == st || Remaining(p, st'.labels) < Remaining(p, st.labels)
      invariant on.Some? ==>
        && steps <= 32
        && on.value.target < |q.d.nodes| && on.value.attribute < |q.d.attributes|
        && Walking(p, usable, arc, st', u, k', false, e.target, reached, on.value)
      invariant on.None? ==> Inv(p, st', {u}) && DoneUpTo(p, st'.labels, u, k')
      decreases 33 - steps
    {
      var x, before := e.target, on.value;
      ghost var was := st';
      on, reached, st' := RelaxOnce(p, q, u, k', false, x, reached, before, steps < 31, costs, labels, pq, st');
      NextRound(p, q, was, u, k', false, before, on, reached, st');
      e, steps := before, steps + 1;
    }
    Finished(p, q, st, u, k, edge, current.dist, st');
  }

  lemma Finished(p: Problem<nat>, q: Query, st: State<nat>, u: nat, k: nat, e: EdgeRec, reached: real, st': State<nat>)
    requires Readable(q.d)
    requires u in st.labels && u in st'.labels && st'.labels[u] == st.labels[u]
    requires st' == st || Remaining(p, st'.labels) < Remaining(p, st.labels)
    requires Inv(p, st', {u}) && DoneUpTo(p, st'.labels, u, DoneAfter(Usable(q.d, q.f64, q.o), k, true, e))
    ensures RoundDone(p, q, st, u, k, true, e, None, reached, st')
  {}

  lemma FirstRound(p: Problem<nat>, q: Query, st: State<nat>, u: nat, k: nat, i: nat)
    requires Serves(p, q) && u < |q.d.nodes| && i < |CompactEdges(q.d, u)|
    requires Inv(p, st, {u}) && DoneUpTo(p, st.labels, u, k)
    requires k == ArcCount(CompactEdges(q.d, u), Usable(q.d, q.f64, q.o), ArcOf(q.d, q.f64, q.o), i)
    ensures Walking(p, Usable(q.d, q.f64, q.o), ArcOf(q.d, q.f64, q.o), st, u, k, true, u, st.labels[u].cost,
      CompactEdges(q.d, u)[i])
    ensures DoneAfter(Usable(q.d, q.f64, q.o), k, true, CompactEdges(q.d, u)[i])
      == ArcCount(CompactEdges(q.d, u), Usable(q.d, q.f64, q.o), ArcOf(q.d, q.f64, q.o), i + 1)
  {
    hide Inv;
    hide WellPosed;
    hide HalfDone;
    hide ArcCount;
    hide UsableArcs;
    ArcOfEdge(CompactEdges(q.d, u), Usable(q.d, q.f64, q.o), ArcOf(q.d, q.f64, q.o), i);
  }

  /** Relaxes the outgoing edges of a popped node, each with the chain it leads into. */
  method Expand(ghost p: Problem<nat>, q: Query, current: Candidate<nat>, costs: CompactRouteCosts,
                labels: IndexedRouteLabels, pq: ValueHeap<nat>, ghost st: State<nat>)
    returns (ghost st': State<nat>)
    requires Serves(p, q) && current.id < |q.d.nodes| && current.id != q.to
    requires costs.Valid() && costs.d == q.d && costs.f64 == q.f64 && costs.options == q.o
    requires InSync(labels, pq, st)
    requires Inv(p, st, {current.id}) && current.id in st.labels && st.labels[current.id].cost == current.dist
    modifies costs.slots, labels, pq
    ensures costs.Valid() && InSync(labels, pq, st')
    ensures Inv(p, st', {})
    ensures st' == st || Remaining(p, st'.labels) < Remaining(p, st.labels)
  {
    hide Inv;
    hide WellPosed;
    hide Remaining;
    hide Walking;
    hide RoundDone;
    hide DoneUpTo;
    hide CompactRouteCosts.Valid;
    hide IndexedRouteLabels.Valid;
    hide ValueHeap.Valid;
    hide Usable;
    hide ArcOf;
    hide ArcCount;
    hide UsableArcs;
    hide DoneAfter;
    ghost var usable, arc := Usable(q.d, q.f64, q.o), ArcOf(q.d, q.f64, q.o);
    ghost var u := current.id;
    var edges := CompactEdges(q.d, current.id);
    ghost var k := 0;
    NothingDone(p, st.labels, u);
    ArcCountEnds(edges, usable, arc);
    st' := st;
    for i := 0 to |edges|
      invariant costs.Valid() && InSync(labels, pq, st')
      invariant Inv(p, st', {u}) && DoneUpTo(p, st'.labels, u, k)
      invariant u in st'.labels && st'.labels[u].cost == current.dist
      invariant k == ArcCount(edges, usable, arc, i)
      invariant st' == st || Remaining(p, st'.labels) < Remaining(p, st.labels)
    {
      FirstRound(p, q, st', u, k, i);
      ghost var was := st';
      assert edges[i] in edges;
      st' := RelaxEdge(p, q, current, edges[i], costs, labels, pq, st', k);
      NextRound(p, q, was, u, k, true, edges[i], None, current.dist, st');
      k := DoneAfter(usable, k, true, edges[i]);
    }
    ExpansionEnds(p, st', u);
  }

  lemma LabelledInRange(p: Problem<nat>, q: Query, st: State<nat>, pending: set<nat>)
    requires Serves(p, q) && Inv(p, st, pending)
    ensures forall v :: v in st.labels ==> v < |q.d.nodes|
    ensures NonNegative(p.arcs)
  {}

  /** Follows the predecessors back from the target and translates the indices to OSM ids. */
  method PathBack(ghost p: Problem<nat>, q: Query, labels: IndexedRouteLabels, ghost st: State<nat>)
    returns (path: seq<int>, ghost nodes: seq<nat>)
    requires Serves(p, q) && Inv(p, st, {}) && labels.Valid() && labels.wantPath && labels.labels == st.labels
    requires q.to in st.labels && IsMinimum(p, st.labels[q.to].cost)
    ensures IsPath(p, nodes, st.labels[q.to].cost) && IdsOf(q.d, nodes, path)
  {
    hide Inv;
    hide AllLinked;
    hide Serves;
    hide IndexedRouteLabels.Valid;
    hide IdsOf;
    hide TailFrom;
    LabelledInRange(p, q, st, {});
    ServesStart(p, q);
    LinksOf(p, st, {});
    nodes := [q.to];
    path := [q.d.nodes[q.to].id];
    ghost var costs: seq<real> := [];
    StartTail(p, st, q.to);
    FirstId(q.d, q.to);
    var node := q.to;
    while node != q.from
      invariant |nodes| > 0 && nodes[0] == node && node in st.labels
      invariant TailFrom(p, st.labels, nodes, costs, q.to)
      invariant IdsOf(q.d, nodes, path)
      decreases Earlier(st.labels, st.times, node)
    {
      ghost var cost := LinkExtendsTail(p, st, nodes, costs, q.to);
      node := labels.Previous(node);
      MoreIds(q.d, nodes, path, node);
      nodes, costs := [node] + nodes, [cost] + costs;
      path := [q.d.nodes[node].id] + path;
    }
    TailIsPath(p, st, nodes, costs, q.to);
  }

  lemma FirstId(d: Store, node: nat)
    requires node < |d.nodes|
    ensures IdsOf(d, [node], [d.nodes[node].id])
  {}

  lemma MoreIds(d: Store, nodes: seq<nat>, path: seq<int>, node: nat)
    requires IdsOf(d, nodes, path) && node < |d.nodes|
    ensures IdsOf(d, [node] + nodes, [d.nodes[node].id] + path)
  {}

  /** The record of an OSM id, by binary search in the sorted node table. */
  method NodeIndex(d: Store, id: int) returns (r: Option<nat>)
    requires SortedIds(d)
    ensures r.Some? ==> r.value < |d.nodes| && d.nodes[r.value].id == id
    ensures r.None? ==> forall i :: 0 <= i < |d.nodes| ==> d.nodes[i].id != id
  {
    var lo, hi := 0, |d.nodes|;
    while lo < hi
      invariant 0 <= lo <= hi <= |d.nodes|
      invariant forall i :: 0 <= i < lo ==> d.nodes[i].id < id
      invariant forall i :: hi <= i < |d.nodes| ==> d.nodes[i].id >= id
    {
      var mid := (lo + hi) / 2;
      if d.nodes[mid].id >= id {
        hi := mid;
      } else {
        lo := mid + 1;
      }
    }
    if lo == |d.nodes| || d.nodes[lo].id != id {
      return None;
    }
    return Some(lo);
  }

  /** Takes the least candidate out; it is stale when its node has been labelled anew since. */
  method PopNext(ghost p: Problem<nat>, q: Query, labels: IndexedRouteLabels, pq: ValueHeap<nat>, ghost st: State<nat>)
    returns (current: Candidate<nat>, stale: bool)
    requires Serves(p, q) && InSync(labels, pq, st) && Inv(p, st, {}) && |pq.items| > 0
    modifies pq
    ensures InSync(labels, pq, Without(st, current))
    ensures current in st.queue && forall c :: c in st.queue ==> current.priority <= c.priority
    ensures current.id in st.labels && current.id < |q.d.nodes|
    ensures stale <==> current.dist != st.labels[current.id].cost
    ensures stale ==> Inv(p, Without(st, current), {})
  {
    hide Inv;
    hide Serves;
    hide IndexedRouteLabels.Valid;
    hide ValueHeap.Valid;
    current := pq.Pop();
    QueuedIsLabelled(p, st, current);
    LabelledInRange(p, q, st, {});
    var known := labels.Distance(current.id);
    stale := current.dist != known;
    if stale {
      DropStale(p, st, current);
    }
  }

  /** The main loop: pops until the target comes up with its label or nothing is left. */
  method Search(ghost p: Problem<nat>, q: Query, wantPath: bool, hash: nat -> nat) returns (r: Outcome)
    requires Serves(p, q) && q.to < |q.d.nodes|
    ensures r.NoPath? || r.Found?
    ensures r.NoPath? ==> !exists t: seq<Stop<nat>> :: Solves(p, t)
    ensures r.Found? ==> IsMinimum(p, r.cost)
    ensures r.Found? ==>
      if wantPath then exists nodes :: IsPath(p, nodes, r.cost) && IdsOf(q.d, nodes, r.path) else r.path == []
  {
    hide Inv;
    hide Serves;
    hide WellPosed;
    hide Readable;
    hide Remaining;
    hide IsMinimum;
    hide IsPath;
    hide IdsOf;
    hide Initial;
    hide CompactRouteCosts.Valid;
    hide IndexedRouteLabels.Valid;
    hide ValueHeap.Valid;
    ServesWell(p, q);
    ghost var st := Initial(p, 0);
    InitialInv(p, 0);
    ServesStart(p, q);
    var costs := new CompactRouteCosts(q.o, q.d, q.f64);
    var labels := new IndexedRouteLabels(wantPath, hash);
    var _ := labels.Relax(q.from, 0.0, 0);
    var pq := new ValueHeap<nat>();
    pq.Push(Candidate(q.from, 0.0, 0.0 + q.estimate(q.from)));
    while |pq.items| > 0
      invariant fresh(pq) && fresh(labels) && fresh(costs.slots)
      invariant costs.Valid() && InSync(labels, pq, st)
      invariant Inv(p, st, {})
      decreases Remaining(p, st.labels), |st.queue|
    {
      var current, stale := PopNext(p, q, labels, pq, st);
      if stale {
        st := Without(st, current);
        continue;
      }
      if current.id == q.to {
        PoppedGoalIsMinimum(p, st, current);
        if !wantPath {
          return Found([], current.dist);
        }
        var path, nodes := PathBack(p, q, labels, st);
        assert IsPath(p, nodes, current.dist) && IdsOf(q.d, nodes, path);
        return Found(path, current.dist);
      }
      TakeCurrent(p, st, current);
      st := Without(st, current);
      st := Expand(p, q, current, costs, labels, pq, st);
    }
    ExhaustedMeansNoPath(p, st);
    return NoPath;
  }

  lemma ServesStart(p: Problem<nat>, q: Query)
    requires Serves(p, q)
    ensures p.start == q.from && p.goal(q.to)
    ensures Initial(p, 0).labels == map[q.from := Label(0.0, 0)]
    ensures Initial(p, 0).queue == multiset{Candidate(q.from, 0.0, 0.0 + q.estimate(q.from))}
  {}

  /** What a query between OSM ids must answer: the error the source reports first, else the
      minimum over all allowed walks of the stored graph. */
  ghost predicate Answers(d: Store, f64: Float64, o: Options, from: int, to: int, estimate: nat -> real, wantPath: bool,
      r: Outcome)
    requires Readable(d)
  {
    if from == to then r == Found(if wantPath then [from] else [], 0.0)
    else if forall i :: 0 <= i < |d.nodes| ==> d.nodes[i].id != from then r == StartUnreachable
    else if forall i :: 0 <= i < |d.nodes| ==> d.nodes[i].id != to then r == TargetUnreachable
    else exists i: nat, j: nat ::
      && IsRecord(d, i, from) && IsRecord(d, j, to)
      && AnswersAt(d, f64, o, i, j, estimate, wantPath, r)
  }

  ghost predicate IsRecord(d: Store, i: nat, id: int) {
    i < |d.nodes| && d.nodes[i].id == id
  }

  ghost predicate AnswersAt(d: Store, f64: Float64, o: Options, i: nat, j: nat, estimate: nat -> real, wantPath: bool,
      r: Outcome)
    requires Readable(d) && i < |d.nodes|
  {
    var p := QueryProblem(d, f64, o, i, j, estimate);
    match r
    case StartUnreachable => o.engine != DijkstraNode && CompactEdges(d, i) == []
    case TargetUnreachable => false
    case NoPath => (o.engine == DijkstraNode || CompactEdges(d, i) != []) && !exists t: seq<Stop<nat>> :: Solves(p, t)
    case Found(path, cost) =>
      && (o.engine == DijkstraNode || CompactEdges(d, i) != [])
      && IsMinimum(p, cost)
      && if wantPath then exists nodes :: IsPath(p, nodes, cost) && IdsOf(d, nodes, path) else path == []
  }

  /** Walking chains eagerly loses nothing: whatever `walkChains` and the hash say, the answer is the
      minimum over all allowed walks for every admissible estimate. */
  method IndexNodeSearch(d: Store, f64: Float64, o: Options, from: int, to: int, estimate: nat -> real,
                         walkChains: bool, wantPath: bool, hash: nat -> nat)
    returns (r: Outcome)
    requires Readable(d) && SortedIds(d) && NonNegativeLengths(d, f64)
    requires forall i: nat :: estimate(i) >= 0.0
    requires forall i: nat, j: nat :: i < |d.nodes| && IsRecord(d, j, to) ==>
      Admissible(QueryProblem(d, f64, o, i, j, estimate))
    ensures Answers(d, f64, o, from, to, estimate, wantPath, r)
  {
    hide Readable;
    hide UsableArcs;
    hide Admissible;
    hide IsMinimum;
    hide WellPosed;
    if from == to {
      return Found(if wantPath then [from] else [], 0.0);
    }
    var start := NodeIndex(d, from);
    var target := NodeIndex(d, to);
    if start.None? {
      return StartUnreachable;
    }
    if target.None? {
      return TargetUnreachable;
    }
    var i, j := start.value, target.value;
    assert IsRecord(d, i, from) && IsRecord(d, j, to);
    if CompactEdges(d, i) == [] && o.engine != DijkstraNode {
      r := StartUnreachable;
    } else {
      var q := Query(d, f64, o, i, j, estimate, walkChains);
      ghost var p := QueryProblem(d, f64, o, i, j, estimate);
      QueryIsWellPosed(d, f64, o, i, j, estimate);
      r := Search(p, q, wantPath, hash);
    }
    assert AnswersAt(d, f64, o, i, j, estimate, wantPath, r);
  }
}
