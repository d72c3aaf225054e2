/** The turn-aware search on a compact store (`indexTurnSearch` in core/router_turn_index.go). */
module IndexTurnSearch {
  import opened RouteCosts
  import opened RouteHeap
  import opened GraphStore
  import opened AttributeCosts
  import opened LabelTable
  import opened SearchTheory
  import opened GraphExport
  import opened PackedTurns
  import T = TurnSearch
  import N = NodeSearch
  import I = IndexSearch

  /** The heap objects of a search and its cost cache agree with the abstract state. */
  ghost predicate InSync(q: TurnQuery, costs: CompactRouteCosts, labels: IndexedRouteLabels, pq: ValueHeap<nat>,
      st: State<nat>)
    reads costs.slots, labels, pq
  {
    && costs.Valid() && costs.d == q.d && costs.f64 == q.f64 && costs.options == q.o
    && labels.Valid() && pq.Valid() && labels.labels == st.labels && multiset(pq.items) == st.queue
  }

  /** A well-posed search for the query's packed problem. */
  ghost predicate Serves(p: Problem<nat>, q: TurnQuery) {
    ValidQuery(q) && p == Packed(q) && WellPosed(p)
  }

  lemma ServesWell(p: Problem<nat>, q: TurnQuery)
    requires Serves(p, q)
    ensures ValidQuery(q) && WellPosed(p) && Readable(q.d) && |q.d.nodes| < 0x1_0000_0000
    ensures NonNegative(p.arcs)
  {
    hide Packed;
    hide Readable;
  }

  lemma ProblemParts(p: Problem<nat>, q: TurnQuery, s: nat)
    requires Serves(p, q)
    ensures Readable(q.d) && q.from < |q.d.nodes| && q.to < |q.d.nodes|
    ensures p.arcs(s) == ArcsOf(q, s) && p.start == Pack(q.zero, q.from)
    ensures p.goal(s) <==> CurrentOf(s) == q.to
    ensures p.estimate(s) == q.estimate(IdAt(q.d, CurrentOf(s)))
  {
    hide ArcsOf;
    hide WellPosed;
  }

  lemma LabelledKnown(p: Problem<nat>, q: TurnQuery, st: State<nat>, pending: set<nat>, s: nat)
    requires Serves(p, q) && Inv(p, st, pending) && s in st.labels
    ensures Known(q, s)
  {
    assert s in p.universe;
    hide Inv;
    hide WellPosed;
    UniverseKnown(q, s);
  }

  /** What the arc of an edge costs, as the loop computes it: base cost plus penalty. */
  lemma ArcComputed(q: TurnQuery, s: nat, e: EdgeRec)
    requires ValidQuery(q) && Known(q, s) && e.target < |q.d.nodes| && e.attribute < |q.d.attributes|
    ensures q.d.attributes[e.attribute].class_ < |q.d.classes|
    ensures var a := AttributesOf(q.d, q.f64, e.attribute);
      && Usable(q)(e) == AttributesAllowed(q.o, a)
      && ArcOf(q, s)(e)
        == Arc(Pack(CurrentOf(s), e.target), BaseCost(q.o, a, q.f64(e.distance)) + Penalty(q, s, e.target))
  {
    assert q.d.attributes[e.attribute] in q.d.attributes;
    hide Penalty;
    hide BaseCost;
    hide AttributesAllowed;
  }

  /** The penalty of a turn: crossing first, then the classified turn. */
  method TurnPenalty(q: TurnQuery, s: nat, next: nat) returns (penalty: real)
    requires Known(q, s)
    ensures penalty == Penalty(q, s, next)
  {
    penalty := 0.0;
    if PreviousOf(s) != q.zero {
      var (_, count) := EdgeRange(q.d, CurrentOf(s));
      if T.CrossingPenalty(q.o) > 0.0 && count > 2 {
        penalty := T.CrossingPenalty(q.o);
      }
      if T.TurnDirections(q.o) {
        penalty :=
          penalty + KindPenalty(q.o, q.kind(IdAt(q.d, PreviousOf(s)), IdAt(q.d, CurrentOf(s)), IdAt(q.d, next)));
      }
    }
  }

  /** What relaxing edge number `i` of the popped state leaves behind. */
  ghost predicate EdgeDone(p: Problem<nat>, st: State<nat>, u: nat, k: nat, st': State<nat>) {
    && u in st.labels && u in st'.labels && st'.labels[u] == st.labels[u]
    && Inv(p, st', {u}) && DoneUpTo(p, st'.labels, u, k)
    && (st' == st || Remaining(p, st'.labels) < Remaining(p, st.labels))
  }

  lemma DoneSame(p: Problem<nat>, st: State<nat>, u: nat, k: nat)
    requires u in st.labels && Inv(p, st, {u}) && DoneUpTo(p, st.labels, u, k)
    ensures EdgeDone(p, st, u, k, st)
  {
    hide Inv;
    hide DoneUpTo;
  }

  lemma DoneRelaxed(p: Problem<nat>, st: State<nat>, u: nat, k: nat, to: nat, cost: real)
    requires WellPosed(p) && u in st.labels && Inv(p, st, {u}) && DoneUpTo(p, st.labels, u, k) && k < |p.arcs(u)|
    requires p.arcs(u)[k] == Arc(to, cost - st.labels[u].cost) && Improves(st.labels, to, cost)
    ensures u in st.routes
    ensures EdgeDone(p, st, u, k + 1, Relaxed(p, st, u, to, cost, true))
    ensures Relaxed(p, st, u, to, cost, true).labels == st.labels[to := Label(cost, u)]
    ensures Relaxed(p, st, u, to, cost, true).queue == st.queue + multiset{CandidateOf(p, to, cost)}
  {
    hide Inv;
    hide WellPosed;
    hide DoneUpTo;
    hide Remaining;
    hide CandidateOf;
    RelaxArc(p, st, u, k, true);
  }

  lemma DoneParts(p: Problem<nat>, st: State<nat>, u: nat, k: nat, st': State<nat>)
    requires EdgeDone(p, st, u, k, st')
    ensures u in st.labels && u in st'.labels && st'.labels[u] == st.labels[u]
    ensures Inv(p, st', {u}) && DoneUpTo(p, st'.labels, u, k)
    ensures st' == st || Remaining(p, st'.labels) < Remaining(p, st.labels)
  {
    hide Inv;
    hide DoneUpTo;
    hide Remaining;
  }

  lemma CandidatePriority(p: Problem<nat>, q: TurnQuery, next: nat, s: nat, cost: real)
    requires Serves(p, q) && CurrentOf(s) == next < |q.d.nodes|
    ensures CandidateOf(p, s, cost) == Candidate(s, cost, cost + q.estimate(q.d.nodes[next].id))
  {
    ProblemParts(p, q, s);
    hide Serves;
  }

  /** Relaxes one allowed edge of the popped state: its arc number `k`. */
  method RelaxEdge(ghost p: Problem<nat>, q: TurnQuery, current: Candidate<nat>, e: EdgeRec, base: real,
      costs: CompactRouteCosts, labels: IndexedRouteLabels, pq: ValueHeap<nat>, ghost st: State<nat>, ghost k: nat)
    returns (ghost st': State<nat>)
    requires Serves(p, q) && Known(q, current.id) && e.target < |q.d.nodes| < 0x1_0000_0000
    requires InSync(q, costs, labels, pq, st)
    requires current.id in st.labels && st.labels[current.id].cost == current.dist
    requires Inv(p, st, {current.id}) && DoneUpTo(p, st.labels, current.id, k) && k < |p.arcs(current.id)|
    requires p.arcs(current.id)[k]
      == Arc(Pack(CurrentOf(current.id), e.target), base + Penalty(q, current.id, e.target))
    modifies labels, pq
    ensures InSync(q, costs, labels, pq, st')
    ensures EdgeDone(p, st, current.id, k + 1, st')
  {
    hide Inv;
    hide Serves;
    hide WellPosed;
    hide DoneUpTo;
    hide Known;
    hide EdgeDone;
    hide Penalty;
    hide CurrentOf;
    hide PreviousOf;
    hide Relaxed;
    hide CandidateOf;
    hide Remaining;
    hide CompactRouteCosts.Valid;
    hide IndexedRouteLabels.Valid;
    hide ValueHeap.Valid;
    ServesWell(p, q);
    ghost var u := current.id;
    var penalty := TurnPenalty(q, current.id, e.target);
    var cost := current.dist + base + penalty;
    var state := Pack(CurrentOf(current.id), e.target);
    st' := st;
    var improved := labels.Relax(state, cost, current.id);
    if !improved {
      ArcAlreadyDone(p, st.labels, u, k);
      DoneSame(p, st, u, k + 1);
      return;
    }
    DoneRelaxed(p, st, u, k, state, cost);
    CandidatePriority(p, q, e.target, state, cost);
    pq.Push(Candidate(state, cost, cost + q.estimate(q.d.nodes[e.target].id)));
    st' := Relaxed(p, st, u, state, cost, true);
  }

  lemma EdgeArc(p: Problem<nat>, q: TurnQuery, s: nat, i: nat)
    requires Serves(p, q) && Known(q, s) && Readable(q.d) && i < |CompactEdges(q.d, CurrentOf(s))|
    ensures var (es, usable, arc) := (CompactEdges(q.d, CurrentOf(s)), Usable(q), ArcOf(q, s));
      && es[i].target < |q.d.nodes| && es[i].attribute < |q.d.attributes|
      && var k := ArcCount(es, usable, arc, i);
         if usable(es[i]) then
           k < |p.arcs(s)| && p.arcs(s)[k] == arc(es[i]) && ArcCount(es, usable, arc, i + 1) == k + 1
         else ArcCount(es, usable, arc, i + 1) == k
  {
    ProblemParts(p, q, s);
    var es := CompactEdges(q.d, CurrentOf(s));
    assert es[i] in es;
    ArcOfEdge(es, Usable(q), ArcOf(q, s), i);
    hide Serves;
    hide Usable;
    hide ArcOf;
    hide UsableArcs;
    hide ArcCount;
    hide Readable;
    hide CompactEdges;
  }

  lemma ArcsEnd(p: Problem<nat>, q: TurnQuery, s: nat)
    requires Serves(p, q) && Known(q, s) && Readable(q.d)
    ensures var (es, usable, arc) := (CompactEdges(q.d, CurrentOf(s)), Usable(q), ArcOf(q, s));
      ArcCount(es, usable, arc, 0) == 0 && ArcCount(es, usable, arc, |es|) == |p.arcs(s)|
  {
    ProblemParts(p, q, s);
    ArcCountEnds(CompactEdges(q.d, CurrentOf(s)), Usable(q), ArcOf(q, s));
  }

  lemma KnownCurrent(q: TurnQuery, s: nat)
    requires Known(q, s)
    ensures CurrentOf(s) < |q.d.nodes|
  {}

  /** Relaxes the outgoing edges of a popped state. */
  method Expand(ghost p: Problem<nat>, q: TurnQuery, current: Candidate<nat>, costs: CompactRouteCosts,
                labels: IndexedRouteLabels, pq: ValueHeap<nat>, ghost st: State<nat>)
    returns (ghost st': State<nat>)
    requires Serves(p, q) && Known(q, current.id) && !p.goal(current.id)
    requires InSync(q, costs, labels, pq, st)
    requires Inv(p, st, {current.id}) && current.id in st.labels && st.labels[current.id].cost == current.dist
    modifies costs.slots, labels, pq
    ensures InSync(q, costs, labels, pq, st')
    ensures Inv(p, st', {})
    ensures st' == st || Remaining(p, st'.labels) < Remaining(p, st.labels)
  {
    hide Inv;
    hide Serves;
    hide WellPosed;
    hide Remaining;
    hide DoneUpTo;
    hide Known;
    hide EdgeDone;
    hide Penalty;
    hide Usable;
    hide ArcOf;
    hide ArcCount;
    hide UsableArcs;
    hide BaseCost;
    hide AttributesAllowed;
    hide AttributesOf;
    hide Readable;
    hide CompactEdges;
    hide CurrentOf;
    hide PreviousOf;
    hide Pack;
    hide CompactRouteCosts.Valid;
    hide IndexedRouteLabels.Valid;
    hide ValueHeap.Valid;
    ServesWell(p, q);
    KnownCurrent(q, current.id);
    ghost var u, usable, arc := current.id, Usable(q), ArcOf(q, current.id);
    var edges := CompactEdges(q.d, CurrentOf(current.id));
    ghost var k := 0;
    NothingDone(p, st.labels, u);
    ArcsEnd(p, q, u);
    DoneSame(p, st, u, 0);
    st' := st;
    for i := 0 to |edges|
      invariant InSync(q, costs, labels, pq, st')
      invariant EdgeDone(p, st, u, k, st')
      invariant k == ArcCount(edges, usable, arc, i)
    {
      DoneParts(p, st, u, k, st');
      EdgeArc(p, q, u, i);
      ArcComputed(q, u, edges[i]);
      var base, allowed := costs.EdgeCost(edges[i].attribute, q.f64(edges[i].distance));
      if allowed {
        ghost var was := st';
        st' := RelaxEdge(p, q, current, edges[i], base, costs, labels, pq, st', k);
        DoneParts(p, was, u, k + 1, st');
        DoneJoins(p, st, was, u, k, st');
        k := k + 1;
      }
    }
    DoneParts(p, st, u, k, st');
    ExpansionEnds(p, st', u);
  }

  lemma DoneJoins(p: Problem<nat>, st: State<nat>, was: State<nat>, u: nat, k: nat, st': State<nat>)
    requires EdgeDone(p, st, u, k, was) && EdgeDone(p, was, u, k + 1, st')
    ensures EdgeDone(p, st, u, k + 1, st')
  {
    hide Inv;
    hide DoneUpTo;
    hide Remaining;
  }

  /** The OSM ids of the current nodes along a path of packed states. */
  ghost predicate IdsOf(q: TurnQuery, states: seq<nat>, path: seq<int>) {
    |states| == |path| && forall i :: 0 <= i < |states| ==> path[i] == IdAt(q.d, CurrentOf(states[i]))
  }

  lemma FirstId(q: TurnQuery, s: nat)
    ensures IdsOf(q, [s], [IdAt(q.d, CurrentOf(s))])
  {}

  lemma MoreIds(q: TurnQuery, states: seq<nat>, path: seq<int>, s: nat)
    requires IdsOf(q, states, path)
    ensures IdsOf(q, [s] + states, [IdAt(q.d, CurrentOf(s))] + path)
  {}

  /** Follows the predecessors back to the start state and translates the current nodes to OSM ids. */
  method PathBack(ghost p: Problem<nat>, q: TurnQuery, labels: IndexedRouteLabels, goal: nat, ghost st: State<nat>)
    returns (path: seq<int>, ghost states: seq<nat>)
    requires Serves(p, q) && Inv(p, st, {}) && labels.Valid() && labels.wantPath && labels.labels == st.labels
    requires goal in st.labels && p.goal(goal) && IsMinimum(p, st.labels[goal].cost) && q.from < 0x1_0000_0000
    ensures IsPath(p, states, st.labels[goal].cost) && IdsOf(q, states, path)
  {
    hide Inv;
    hide AllLinked;
    hide Serves;
    hide IndexedRouteLabels.Valid;
    hide IdsOf;
    hide TailFrom;
    hide CurrentOf;
    hide PreviousOf;
    ServesWell(p, q);
    ProblemParts(p, q, goal);
    LinksOf(p, st, {});
    var start := Pack(q.zero, q.from);
    states := [goal];
    path := [IdAt(q.d, CurrentOf(goal))];
    ghost var costs: seq<real> := [];
    StartTail(p, st, goal);
    FirstId(q, goal);
    var state := goal;
    while state != start
      invariant |states| > 0 && states[0] == state && state in st.labels
      invariant TailFrom(p, st.labels, states, costs, goal)
      invariant IdsOf(q, states, path)
      decreases Earlier(st.labels, st.times, state)
    {
      ghost var cost := LinkExtendsTail(p, st, states, costs, goal);
      state := labels.Previous(state);
      MoreIds(q, states, path, state);
      states, costs := [state] + states, [cost] + costs;
      path := [IdAt(q.d, CurrentOf(state))] + path;
    }
    TailIsPath(p, st, states, costs, goal);
  }

  lemma StartState(p: Problem<nat>, q: TurnQuery)
    requires Serves(p, q) && q.from < 0x1_0000_0000
    ensures q.from < |q.d.nodes| && p.start == Pack(q.zero, q.from)
    ensures Initial(p, 0).labels == map[Pack(q.zero, q.from) := Label(0.0, 0)]
    ensures Initial(p, 0).queue
      == multiset{Candidate(Pack(q.zero, q.from), 0.0, 0.0 + q.estimate(q.d.nodes[q.from].id))}
  {
    ProblemParts(p, q, Pack(q.zero, q.from));
    hide Serves;
  }

  /** Takes the least candidate out; it is stale when its state has been labelled anew since. */
  method PopNext(ghost p: Problem<nat>, q: TurnQuery, costs: CompactRouteCosts, labels: IndexedRouteLabels,
      pq: ValueHeap<nat>, ghost st: State<nat>)
    returns (current: Candidate<nat>, stale: bool)
    requires Serves(p, q) && InSync(q, costs, labels, pq, st) && Inv(p, st, {}) && |pq.items| > 0
    modifies pq
    ensures InSync(q, costs, labels, pq, Without(st, current))
    ensures current in st.queue && forall c :: c in st.queue ==> current.priority <= c.priority
    ensures current.id in st.labels && Known(q, current.id)
    ensures stale <==> current.dist > st.labels[current.id].cost
    ensures stale ==> Inv(p, Without(st, current), {})
    ensures !stale ==> current.dist == st.labels[current.id].cost
  {
    hide Inv;
    hide Serves;
    hide CompactRouteCosts.Valid;
    hide IndexedRouteLabels.Valid;
    hide ValueHeap.Valid;
    current := pq.Pop();
    QueuedIsLabelled(p, st, current);
    LabelledKnown(p, q, st, {}, current.id);
    var known := labels.Distance(current.id);
    stale := current.dist > known;
    if stale {
      DropStale(p, st, current);
    }
  }

  /** The main loop: pops until the target comes up with its label or nothing is left. */
  method Search(ghost p: Problem<nat>, q: TurnQuery, wantPath: bool, hash: nat -> nat) returns (r: Outcome)
    requires Serves(p, q)
    ensures r.NoPath? || r.Found?
    ensures r.NoPath? ==> !exists t: seq<Stop<nat>> :: Solves(p, t)
    ensures r.Found? ==> IsMinimum(p, r.cost)
    ensures r.Found? ==>
      if wantPath then exists states :: IsPath(p, states, r.cost) && IdsOf(q, states, r.path) else r.path == []
  {
    hide Inv;
    hide Serves;
    hide WellPosed;
    hide Readable;
    hide Remaining;
    hide IsMinimum;
    hide IsPath;
    hide IdsOf;
    hide Initial;
    hide Known;
    hide CurrentOf;
    hide PreviousOf;
    hide Pack;
    hide CompactRouteCosts.Valid;
    hide IndexedRouteLabels.Valid;
    hide ValueHeap.Valid;
    ServesWell(p, q);
    ghost var st := Initial(p, 0);
    InitialInv(p, 0);
    StartState(p, q);
    var costs := new CompactRouteCosts(q.o, q.d, q.f64);
    var labels := new IndexedRouteLabels(wantPath, hash);
    var start := Pack(q.zero, q.from);
    var _ := labels.Relax(start, 0.0, 0);
    var pq := new ValueHeap<nat>();
    pq.Push(Candidate(start, 0.0, 0.0 + q.estimate(q.d.nodes[q.from].id)));
    while |pq.items| > 0
      invariant fresh(pq) && fresh(labels) && fresh(costs.slots)
      invariant InSync(q, costs, labels, pq, st)
      invariant Inv(p, st, {})
      decreases Remaining(p, st.labels), |st.queue|
    {
      var current, stale := PopNext(p, q, costs, labels, pq, st);
      if stale {
        st := Without(st, current);
        continue;
      }
      ProblemParts(p, q, current.id);
      if CurrentOf(current.id) == q.to {
        PoppedGoalIsMinimum(p, st, current);
        if !wantPath {
          return Found([], current.dist);
        }
        var path, states := PathBack(p, q, labels, current.id, st);
        assert IsPath(p, states, current.dist) && IdsOf(q, states, path);
        return Found(path, current.dist);
      }
      TakeCurrent(p, st, current);
      st := Without(st, current);
      st := Expand(p, q, current, costs, labels, pq, st);
    }
    ExhaustedMeansNoPath(p, st);
    return NoPath;
  }

  /** The index of the node with OSM id 0, or the largest word. */
  method ZeroNode(d: Store) returns (zero: nat)
    requires SortedIds(d) && |d.nodes| < WORD
    ensures if zero < |d.nodes| then d.nodes[zero].id == 0
            else zero == WORD - 1 && forall i :: 0 <= i < |d.nodes| ==> d.nodes[i].id != 0
  {
    var r := I.NodeIndex(d, 0);
    zero := if r.Some? then r.value else WORD - 1;
  }

  lemma WellPosedQuery(q: TurnQuery)
    requires ValidQuery(q) && T.NonNegativeWeights(q.o) && N.NonNegativeLengths(Exported(q.d, q.f64))
    requires T.EstimateIsLower(Exported(q.d, q.f64), q.o, q.d.nodes[q.to].id, q.estimate)
    requires forall id :: q.estimate(id) >= 0.0
    ensures Serves(Packed(q), q)
  {
    hide Readable;
    hide WellPosed;
    hide T.EstimateIsLower;
    hide Exported;
    var (g, from, to) := (Exported(q.d, q.f64), q.d.nodes[q.from].id, q.d.nodes[q.to].id);
    T.LowerBoundIsAdmissible(g, q.o, q.kind, from, to, q.estimate);
    T.TurnProblemIsWellPosed(g, q.o, q.kind, from, to, q.estimate);
    PackedIsWellPosed(q);
  }

  /** The ids along a path of packed states are the nodes of the named path. */
  lemma IdsAreNodes(q: TurnQuery, states: seq<nat>, path: seq<int>)
    requires IdsOf(q, states, path)
    ensures path == T.NodesOf(NamedPath(q, states))
  {
    forall i | 0 <= i < |path|
      ensures path[i] == T.NodesOf(NamedPath(q, states))[i]
    {
      assert NamedPath(q, states)[i] == NameOf(q, states[i]);
    }
  }

  /** The search's result, read over OSM ids. */
  lemma FoundUnpacks(q: TurnQuery, wantPath: bool, path: seq<int>, cost: real)
    requires ValidQuery(q) && IsMinimum(Packed(q), cost)
    requires if wantPath then exists states :: IsPath(Packed(q), states, cost) && IdsOf(q, states, path) else path == []
    ensures var (g, from, to) := (Exported(q.d, q.f64), q.d.nodes[q.from].id, q.d.nodes[q.to].id);
      && T.IsCheapest(g, q.o, q.kind, from, to, cost)
      && if wantPath then T.IsCheapestPath(g, q.o, q.kind, from, to, path, cost) else path == []
  {
    hide Readable;
    hide Packed;
    hide IsMinimum;
    hide IsPath;
    hide IdsOf;
    hide T.IsCheapest;
    hide T.IsCheapestPath;
    hide Exported;
    hide T.TurnProblem;
    var (g, from, to) := (Exported(q.d, q.f64), q.d.nodes[q.from].id, q.d.nodes[q.to].id);
    MinimumUnpacks(q, cost);
    T.MinimumIsCheapest(g, q.o, q.kind, from, to, q.estimate, cost);
    if wantPath {
      var states :| IsPath(Packed(q), states, cost) && IdsOf(q, states, path);
      PathUnpacks(q, states, cost);
      T.PathIsCheapest(g, q.o, q.kind, from, to, q.estimate, NamedPath(q, states), cost);
      IdsAreNodes(q, states, path);
    }
  }

  /** Packed states, the label table and the cost cache change nothing: the answer meets the contract of the
      search over OSM ids on the graph that the store stands for. */
  method IndexTurnSearch(d: Store, f64: Float64, from: int, to: int, o: Options, kind: T.Classifier,
      estimate: int -> real, wantPath: bool, hash: nat -> nat)
    returns (r: Outcome)
    requires Readable(d) && SortedIds(d) && |d.nodes| < WORD
    requires N.NonNegativeLengths(Exported(d, f64)) && T.NonNegativeWeights(o)
    requires T.EstimateIsLower(Exported(d, f64), o, to, estimate) && forall id :: estimate(id) >= 0.0
    ensures T.Answers(Exported(d, f64), from, to, o, kind, wantPath, r)
  {
    hide Readable;
    hide SortedIds;
    hide Exported;
    hide Packed;
    hide Unpacked;
    hide IsMinimum;
    hide IsPath;
    hide IdsOf;
    hide Serves;
    hide T.IsCheapest;
    hide T.IsCheapestPath;
    hide T.EstimateIsLower;
    hide T.Connects;
    if from == to {
      return Found(if wantPath then [from] else [], 0.0);
    }
    var start := I.NodeIndex(d, from);
    var target := I.NodeIndex(d, to);
    if start.None? {
      NotStored(d, f64, from);
      return StartUnreachable;
    }
    IsStored(d, f64, start.value);
    if target.None? {
      NotStored(d, f64, to);
      return TargetUnreachable;
    }
    IsStored(d, f64, target.value);
    var (_, count) := EdgeRange(d, start.value);
    if count == 0 {
      return StartUnreachable;
    }
    var zero := ZeroNode(d);
    var q := TurnQuery(d, f64, o, kind, zero, start.value, target.value, estimate);
    WellPosedQuery(q);
    r := Search(Packed(q), q, wantPath, hash);
    match r {
      case Found(path, cost) =>
        FoundUnpacks(q, wantPath, path, cost);
      case NoPath =>
        NoSolutionUnpacks(q);
        NothingConnects(q);
      case _ =>
    }
  }

  lemma NothingConnects(q: TurnQuery)
    requires ValidQuery(q) && !exists t: seq<Stop<T.TurnState>> :: Solves(Unpacked(q), t)
    ensures !exists nodes, edges ::
      T.Connects(Exported(q.d, q.f64), q.o, nodes, edges, q.d.nodes[q.from].id, q.d.nodes[q.to].id)
  {
    hide Readable;
    hide Exported;
    hide T.TurnProblem;
    hide T.Connects;
    hide Solves;
    assert Unpacked(q)
      == T.TurnProblem(Exported(q.d, q.f64), q.o, q.kind, q.d.nodes[q.from].id, q.d.nodes[q.to].id, q.estimate);
    T.NoTrailNoWalk(Exported(q.d, q.f64), q.o, q.kind, q.d.nodes[q.from].id, q.d.nodes[q.to].id, q.estimate);
  }

  lemma NotStored(d: Store, f64: Float64, id: int)
    requires Readable(d) && SortedIds(d) && forall i :: 0 <= i < |d.nodes| ==> d.nodes[i].id != id
    ensures id !in Exported(d, f64).coords
  {
    if id in Exported(d, f64).coords {
      var i := ExportedFrom(d, f64, id);
    }
  }

  lemma IsStored(d: Store, f64: Float64, i: nat)
    requires Readable(d) && SortedIds(d) && i < |d.nodes|
    ensures d.nodes[i].id in Exported(d, f64).coords
    ensures Exported(d, f64).Edges(d.nodes[i].id) == [] <==> EdgeRange(d, i).1 == 0
  {
    ExportedEdges(d, f64, i);
    hide Exported;
    hide Readable;
  }
}
