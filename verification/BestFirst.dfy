/** The best-first search with labels in a map, shared by the turn-free search over OSM ids
    (core/router_node.go) and the turn-state search (astar in core/router.go). */
module BestFirst {
  import opened Common
  import opened RouteHeap
  import opened SearchTheory

  /** Distances with predecessors when a path is wanted, otherwise distances alone. */
  datatype NodeLabels<S> = NodeLabels(wantPath: bool, distances: map<S, real>, paths: map<S, Label<S>>) {
    function Distance(id: S): Option<real> {
      if wantPath then (if id in paths then Some(paths[id].cost) else None)
      else if id in distances then Some(distances[id]) else None
    }

    function Set(id: S, distance: real, previous: S): NodeLabels<S> {
      if wantPath then this.(paths := paths[id := Label(distance, previous)])
      else this.(distances := distances[id := distance])
    }

    ghost predicate Mirrors(labels: map<S, Label<S>>) {
      if wantPath then paths == labels
      else distances.Keys == labels.Keys && forall id :: id in labels ==> distances[id] == labels[id].cost
    }
  }

  lemma SetMirrors<S(!new)>(l: NodeLabels<S>, labels: map<S, Label<S>>, id: S, distance: real, previous: S)
    requires l.Mirrors(labels)
    ensures l.Set(id, distance, previous).Mirrors(labels[id := Label(distance, previous)])
    ensures l.Set(id, distance, previous).wantPath == l.wantPath
  {}

  lemma DistanceMirrors<S(!new)>(l: NodeLabels<S>, labels: map<S, Label<S>>, id: S)
    requires l.Mirrors(labels)
    ensures l.Distance(id) == if id in labels then Some(labels[id].cost) else None
  {}

  /** Relaxes one allowed edge of the expanded node: the k-th arc of `current`. */
  method RelaxEdge<S(!new, ==)>(ghost p: Problem<S>, current: Candidate<S>, to: S, cost: real, priority: real,
                   pq: ValueHeap<S>, labels: NodeLabels<S>, ghost st: State<S>, ghost k: nat)
    returns (labels': NodeLabels<S>, ghost st': State<S>)
    requires WellPosed(p) && Inv(p, st, {current.id}) && DoneUpTo(p, st.labels, current.id, k)
    requires current.dist == st.labels[current.id].cost
    requires k < |p.arcs(current.id)| && p.arcs(current.id)[k].to == to
    requires cost == current.dist + p.arcs(current.id)[k].cost
    requires Candidate(to, cost, priority) == CandidateOf(p, to, cost)
    requires pq.Valid() && multiset(pq.items) == st.queue && labels.Mirrors(st.labels)
    modifies pq
    ensures pq.Valid() && multiset(pq.items) == st'.queue
    ensures labels'.Mirrors(st'.labels) && labels'.wantPath == labels.wantPath
    ensures Inv(p, st', {current.id}) && DoneUpTo(p, st'.labels, current.id, k + 1)
    ensures st'.labels[current.id] == st.labels[current.id]
    ensures st' == st || Remaining(p, st'.labels) < Remaining(p, st.labels)
  {
    hide Inv;
    hide WellPosed;
    hide Remaining;
    hide NodeLabels.Mirrors;
    ghost var u := current.id;
    DistanceMirrors(labels, st.labels, to);
    var known := labels.Distance(to);
    if known.Some? && cost >= known.value {
      ArcAlreadyDone(p, st.labels, u, k);
      return labels, st;
    }
    RelaxArc(p, st, u, k, true);
    SetMirrors(labels, st.labels, to, cost, current.id);
    labels' := labels.Set(to, cost, current.id);
    pq.Push(Candidate(to, cost, priority));
    st' := Relaxed(p, st, u, to, cost, true);
  }

  /** The graph as a search reads it: the edges of a state, which of them it may use, and the arc of each. */
  datatype Network<!S, !E> = Network(edges: S -> seq<E>, usable: S -> E -> bool, arc: S -> E -> Arc<S>)

  ghost predicate Describes<S(!new), E>(net: Network<S, E>, p: Problem<S>) {
    forall s: S :: p.arcs(s) == UsableArcs(net.edges(s), net.usable(s), net.arc(s))
  }

  /** Relaxes the outgoing edges of a popped state. */
  method Expand<S(!new, ==), E>(ghost p: Problem<S>, net: Network<S, E>, estimate: S -> real, current: Candidate<S>,
                pq: ValueHeap<S>, labels: NodeLabels<S>, ghost st: State<S>)
    returns (labels': NodeLabels<S>, ghost st': State<S>)
    requires WellPosed(p) && p.estimate == estimate && Describes(net, p)
    requires Inv(p, st, {current.id}) && !p.goal(current.id)
    requires current.id in st.labels && current.dist == st.labels[current.id].cost
    requires pq.Valid() && multiset(pq.items) == st.queue
    requires labels.Mirrors(st.labels)
    modifies pq
    ensures pq.Valid() && multiset(pq.items) == st'.queue
    ensures labels'.Mirrors(st'.labels) && labels'.wantPath == labels.wantPath
    ensures Inv(p, st', {})
    ensures st' == st || Remaining(p, st'.labels) < Remaining(p, st.labels)
  {
    hide Inv;
    hide WellPosed;
    hide Remaining;
    hide UsableArcs;
    hide ArcCount;
    hide NodeLabels.Mirrors;
    labels', st' := labels, st;
    var u := current.id;
    var edges, usable, arc := net.edges(u), net.usable(u), net.arc(u);
    ghost var k := 0;
    NothingDone(p, st.labels, u);
    ArcCountEnds(edges, usable, arc);
    for i := 0 to |edges|
      invariant pq.Valid() && multiset(pq.items) == st'.queue
      invariant labels'.Mirrors(st'.labels) && labels'.wantPath == labels.wantPath
      invariant Inv(p, st', {u}) && DoneUpTo(p, st'.labels, u, k) && st'.labels[u].cost == current.dist
      invariant k == ArcCount(edges, usable, arc, i)
      invariant st' == st || Remaining(p, st'.labels) < Remaining(p, st.labels)
    {
      ArcOfEdge(edges, usable, arc, i);
      if usable(edges[i]) {
        var a := arc(edges[i]);
        var cost := current.dist + a.cost;
        labels', st' := RelaxEdge(p, current, a.to, cost, cost + estimate(a.to), pq, labels', st', k);
        k := k + 1;
      }
    }
    ExpansionEnds(p, st', u);
  }

  lemma MirrorsPaths<S(!new)>(l: NodeLabels<S>, labels: map<S, Label<S>>)
    requires l.Mirrors(labels) && l.wantPath
    ensures l.paths == labels
  {}

  /** Follows the predecessors from the goal; the source appends and reverses, here the path is prepended to. */
  method PathBack<S(!new, ==)>(ghost p: Problem<S>, paths: map<S, Label<S>>, from: S, to: S, ghost st: State<S>)
    returns (path: seq<S>)
    requires WellPosed(p) && Inv(p, st, {}) && st.labels == paths
    requires p.start == from && to in paths && p.goal(to)
    requires IsMinimum(p, paths[to].cost)
    ensures IsPath(p, path, paths[to].cost)
  {
    hide Routed;
    hide Covered;
    hide Queued;
    path := [to];
    ghost var costs: seq<real> := [];
    var id := to;
    while id != from
      invariant |path| > 0 && path[0] == id && id in paths
      invariant TailFrom(p, paths, path, costs, to)
      decreases Earlier(paths, st.times, id)
    {
      ghost var cost := LinkExtendsTail(p, st, path, costs, to);
      id := paths[id].previous;
      path, costs := [id] + path, [cost] + costs;
    }
    TailIsPath(p, st, path, costs, to);
  }

  datatype Result<+S> = Reached(goal: S, path: seq<S>, cost: real) | Exhausted

  /** The main loop: pops until a goal comes up with its current label or nothing is left. */
  method Search<S(!new, ==), E>(ghost p: Problem<S>, net: Network<S, E>, start: S, goal: S -> bool,
      estimate: S -> real, wantPath: bool)
    returns (r: Result<S>)
    requires WellPosed(p) && p.start == start && p.goal == goal && p.estimate == estimate && Describes(net, p)
    ensures r.Exhausted? ==> !exists t: seq<Stop<S>> :: Solves(p, t)
    ensures r.Reached? ==> p.goal(r.goal) && IsMinimum(p, r.cost)
    ensures r.Reached? ==> if wantPath then IsPath(p, r.path, r.cost) else r.path == []
  {
    hide Inv;
    hide WellPosed;
    hide Remaining;
    hide Describes;
    hide NodeLabels.Mirrors;
    hide IsMinimum;
    ghost var st := Initial(p, start);
    InitialInv(p, start);
    var labels := NodeLabels(wantPath, map[], map[]).Set(start, 0.0, start);
    SetMirrors(NodeLabels(wantPath, map[], map[]), map[], start, 0.0, start);
    var pq := new ValueHeap<S>();
    pq.Push(Candidate(start, 0.0, 0.0 + estimate(start)));
    while |pq.items| > 0
      invariant fresh(pq) && pq.Valid() && multiset(pq.items) == st.queue
      invariant labels.wantPath == wantPath && labels.Mirrors(st.labels)
      invariant Inv(p, st, {})
      decreases Remaining(p, st.labels), |st.queue|
    {
      var current := pq.Pop();
      QueuedIsLabelled(p, st, current);
      DistanceMirrors(labels, st.labels, current.id);
      if labels.Distance(current.id) != Some(current.dist) {
        DropStale(p, st, current);
        st := Without(st, current);
        continue;
      }
      if goal(current.id) {
        PoppedGoalIsMinimum(p, st, current);
        if !wantPath {
          return Reached(current.id, [], current.dist);
        }
        MirrorsPaths(labels, st.labels);
        var path := PathBack(p, labels.paths, start, current.id, st);
        return Reached(current.id, path, current.dist);
      }
      TakeCurrent(p, st, current);
      st := Without(st, current);
      labels, st := Expand(p, net, estimate, current, pq, labels, st);
    }
    ExhaustedMeansNoPath(p, st);
    return Exhausted;
  }
}
