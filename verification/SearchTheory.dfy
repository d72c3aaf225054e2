/** What the best-first label-correcting searches share: trails and their costs, the
    invariant every relaxation keeps, and what the first popped goal means. The estimate
    only has to be admissible, so labels may be corrected after they were expanded. */
module SearchTheory {
  import opened Pigeonhole
  import opened RouteHeap

  datatype Arc<+S> = Arc(to: S, cost: real)

  /** A state on a walk together with the cost of getting there. */
  datatype Stop<+S> = Stop(at: S, cost: real)

  /** The arcs of the usable edges among those given, in their order. */
  function UsableArcs<E, S>(edges: seq<E>, usable: E -> bool, arc: E -> Arc<S>): (arcs: seq<Arc<S>>) {
    if edges == [] then [] else
      var last := edges[|edges| - 1];
      UsableArcs(edges[..|edges| - 1], usable, arc) + if usable(last) then [arc(last)] else []
  }

  /** The number of arcs that stem from the first `i` edges. */
  function ArcCount<E, S>(edges: seq<E>, usable: E -> bool, arc: E -> Arc<S>, i: nat): nat
    requires i <= |edges|
  {
    |UsableArcs(edges[..i], usable, arc)|
  }

  lemma ArcCountEnds<E, S>(edges: seq<E>, usable: E -> bool, arc: E -> Arc<S>)
    ensures ArcCount(edges, usable, arc, 0) == 0
    ensures ArcCount(edges, usable, arc, |edges|) == |UsableArcs(edges, usable, arc)|
  {
    assert edges[..|edges|] == edges;
  }

  lemma {:induction false} ArcOfEdge<E, S>(edges: seq<E>, usable: E -> bool, arc: E -> Arc<S>, i: nat)
    requires i < |edges|
    ensures var k := ArcCount(edges, usable, arc, i);
      if usable(edges[i]) then
        && k < |UsableArcs(edges, usable, arc)| && UsableArcs(edges, usable, arc)[k] == arc(edges[i])
        && ArcCount(edges, usable, arc, i + 1) == k + 1
      else
        ArcCount(edges, usable, arc, i + 1) == k
    decreases |edges|
  {
    assert edges[..i + 1][..i] == edges[..i];
    var n := |edges| - 1;
    if i == n {
      assert edges[..i + 1] == edges;
    } else {
      ArcOfEdge(edges[..n], usable, arc, i);
      assert edges[..n][..i] == edges[..i] && edges[..n][..i + 1] == edges[..i + 1];
    }
  }

  lemma {:induction false} UsableArcsMembers<E, S>(edges: seq<E>, usable: E -> bool, arc: E -> Arc<S>, a: Arc<S>)
    requires a in UsableArcs(edges, usable, arc)
    ensures exists e :: e in edges && usable(e) && a == arc(e)
  {
    var n := |edges| - 1;
    if a in UsableArcs(edges[..n], usable, arc) {
      UsableArcsMembers(edges[..n], usable, arc, a);
      var e :| e in edges[..n] && usable(e) && a == arc(e);
      assert e in edges;
    } else {
      assert edges[n] in edges;
    }
  }

  lemma {:induction false} UsableArcsComplete<E, S>(edges: seq<E>, usable: E -> bool, arc: E -> Arc<S>, e: E)
    requires e in edges && usable(e)
    ensures arc(e) in UsableArcs(edges, usable, arc)
  {
    var n := |edges| - 1;
    if e != edges[n] {
      assert e in edges[..n];
      UsableArcsComplete(edges[..n], usable, arc, e);
    }
  }

  /** Find a cheapest walk from `start` to a goal; `estimate` orders the queue. */
  datatype Problem<!S> = Problem(
    arcs: S -> seq<Arc<S>>, start: S, goal: S -> bool, estimate: S -> real, universe: set<S>)

  ghost predicate Step<S(!new)>(arcs: S -> seq<Arc<S>>, a: Stop<S>, b: Stop<S>) {
    Arc(b.at, b.cost - a.cost) in arcs(a.at)
  }

  ghost predicate Trail<S(!new)>(arcs: S -> seq<Arc<S>>, t: seq<Stop<S>>) {
    && |t| > 0
    && t[0].cost == 0.0
    && forall i :: 0 <= i < |t| - 1 ==> Step(arcs, t[i], t[i + 1])
  }

  /** A walk of the problem from its start to one of its goals. */
  ghost predicate Solves<S(!new)>(p: Problem<S>, t: seq<Stop<S>>) {
    Trail(p.arcs, t) && t[0].at == p.start && p.goal(t[|t| - 1].at)
  }

  /** The least cost over all solving walks, and attained. */
  ghost predicate IsMinimum<S(!new)>(p: Problem<S>, cost: real) {
    && (exists t: seq<Stop<S>> :: Solves(p, t) && t[|t| - 1].cost == cost)
    && (forall t: seq<Stop<S>> :: Solves(p, t) ==> cost <= t[|t| - 1].cost)
  }

  /** Some solving walk visits exactly the states of `path` at the given cost. */
  ghost predicate IsPath<S(!new)>(p: Problem<S>, path: seq<S>, cost: real) {
    exists t: seq<Stop<S>> :: Solves(p, t) && Visits(t, path) && t[|t| - 1].cost == cost
  }

  ghost predicate Visits<S>(t: seq<Stop<S>>, path: seq<S>) {
    |t| == |path| && forall i :: 0 <= i < |t| ==> t[i].at == path[i]
  }

  ghost predicate NonNegative<S(!new)>(arcs: S -> seq<Arc<S>>) {
    forall s: S, a :: a in arcs(s) ==> a.cost >= 0.0
  }

  /** The estimate never exceeds the cost of a walk to a goal. */
  ghost predicate Admissible<S(!new)>(p: Problem<S>) {
    forall t: seq<Stop<S>> :: Trail(p.arcs, t) && p.goal(t[|t| - 1].at) ==> p.estimate(t[0].at) <= t[|t| - 1].cost
  }

  ghost predicate WellPosed<S(!new)>(p: Problem<S>) {
    && p.start in p.universe
    && (forall s, a :: s in p.universe && a in p.arcs(s) ==> a.to in p.universe)
    && NonNegative(p.arcs)
    && Admissible(p)
    && (forall s: S :: p.estimate(s) >= 0.0)
  }

  datatype Label<+S> = Label(cost: real, previous: S)

  /** A search in progress. `routes` remembers the walk each label was first found by, `times`
      when it was last set; both are for the proof only. */
  datatype State<S> = State(
    labels: map<S, Label<S>>, routes: map<S, seq<Stop<S>>>, times: map<S, nat>, now: nat,
    queue: multiset<Candidate<S>>)

  ghost predicate RouteOf<S(!new)>(p: Problem<S>, labels: map<S, Label<S>>, v: S, t: seq<Stop<S>>)
    requires v in labels
  {
    && Trail(p.arcs, t) && t[0].at == p.start
    && t[|t| - 1] == Stop(v, labels[v].cost)
    && (forall i :: 0 <= i < |t| ==> t[i].at in labels && labels[t[i].at].cost <= t[i].cost)
    && (forall i, j :: 0 <= i < j < |t| ==> t[i].at != t[j].at)
  }

  /** The predecessor explains the label, and is strictly earlier in the order by cost and time. */
  ghost predicate Linked<S(!new)>(p: Problem<S>, labels: map<S, Label<S>>, times: map<S, nat>, v: S)
    requires v in labels && labels.Keys == times.Keys
  {
    var u := labels[v].previous;
    && u in labels
    && (exists a :: a in p.arcs(u) && a.to == v && labels[u].cost + a.cost <= labels[v].cost)
    && (labels[u].cost < labels[v].cost || times[u] < times[v])
  }

  function CandidateOf<S>(p: Problem<S>, v: S, cost: real): Candidate<S> {
    Candidate(v, cost, cost + p.estimate(v))
  }

  ghost predicate Open<S>(p: Problem<S>, queue: multiset<Candidate<S>>, v: S, cost: real) {
    CandidateOf(p, v, cost) in queue
  }

  /** The arc needs no relaxation from `v`. */
  ghost predicate Done<S(!new)>(labels: map<S, Label<S>>, v: S, a: Arc<S>)
    requires v in labels
  {
    a.to in labels && labels[a.to].cost <= labels[v].cost + a.cost
  }

  ghost predicate Settled<S(!new)>(p: Problem<S>, labels: map<S, Label<S>>, v: S)
    requires v in labels
  {
    !p.goal(v) && forall a :: a in p.arcs(v) ==> Done(labels, v, a)
  }

  ghost predicate Shape<S(!new)>(p: Problem<S>, st: State<S>) {
    && st.labels.Keys == st.routes.Keys == st.times.Keys
    && st.labels.Keys <= p.universe
    && p.start in st.labels && st.labels[p.start].cost == 0.0
    && (forall v :: v in st.labels ==> st.times[v] < st.now)
  }

  ghost predicate Routed<S(!new)>(p: Problem<S>, labels: map<S, Label<S>>, routes: map<S, seq<Stop<S>>>)
    requires labels.Keys == routes.Keys
  {
    forall v :: v in labels ==> RouteOf(p, labels, v, routes[v])
  }

  ghost predicate AllLinked<S(!new)>(p: Problem<S>, labels: map<S, Label<S>>, times: map<S, nat>)
    requires labels.Keys == times.Keys
  {
    forall v :: v in labels && v != p.start ==> Linked(p, labels, times, v)
  }

  ghost predicate Queued<S(!new)>(p: Problem<S>, labels: map<S, Label<S>>, queue: multiset<Candidate<S>>) {
    forall c :: c in queue ==> c.id in labels && labels[c.id].cost <= c.dist && c == CandidateOf(p, c.id, c.dist)
  }

  /** Every labelled state outside `pending` is queued with its label or fully relaxed. */
  ghost predicate Covered<S(!new)>(p: Problem<S>, labels: map<S, Label<S>>, queue: multiset<Candidate<S>>,
      pending: set<S>) {
    forall v :: v in labels && v !in pending ==> Open(p, queue, v, labels[v].cost) || Settled(p, labels, v)
  }

  ghost predicate Inv<S(!new)>(p: Problem<S>, st: State<S>, pending: set<S>) {
    && Shape(p, st)
    && Routed(p, st.labels, st.routes)
    && AllLinked(p, st.labels, st.times)
    && Queued(p, st.labels, st.queue)
    && Covered(p, st.labels, st.queue, pending)
  }

  function Initial<S>(p: Problem<S>, previous: S): State<S> {
    State(map[p.start := Label(0.0, previous)], map[p.start := [Stop(p.start, 0.0)]], map[p.start := 0], 1,
          multiset{CandidateOf(p, p.start, 0.0)})
  }

  lemma InitialInv<S(!new)>(p: Problem<S>, previous: S)
    requires WellPosed(p)
    ensures Inv(p, Initial(p, previous), {})
  {
    var st := Initial(p, previous);
    assert RouteOf(p, st.labels, p.start, st.routes[p.start]);
    assert Open(p, st.queue, p.start, 0.0);
  }

  // ---- Taking a candidate out of the queue ----

  function Without<S>(st: State<S>, c: Candidate<S>): State<S> {
    st.(queue := st.queue - multiset{c})
  }

  lemma OthersStayOpen<S(!new)>(p: Problem<S>, labels: map<S, Label<S>>, queue: multiset<Candidate<S>>, c: Candidate<S>,
                                pending: set<S>)
    requires Covered(p, labels, queue, {})
    requires c.id in labels && (c.id in pending || c.dist != labels[c.id].cost)
    ensures Covered(p, labels, queue - multiset{c}, pending)
  {
    forall v | v in labels && v !in pending && Open(p, queue, v, labels[v].cost)
      ensures Open(p, queue - multiset{c}, v, labels[v].cost)
    {
      assert CandidateOf(p, v, labels[v].cost) != c;
    }
  }

  lemma QueuedIsLabelled<S(!new)>(p: Problem<S>, st: State<S>, c: Candidate<S>)
    requires Inv(p, st, {}) && c in st.queue
    ensures c.id in st.labels && c == CandidateOf(p, c.id, c.dist) && st.labels[c.id].cost <= c.dist
  {}

  /** An outdated candidate can be dropped. */
  lemma DropStale<S(!new)>(p: Problem<S>, st: State<S>, c: Candidate<S>)
    requires Inv(p, st, {}) && c in st.queue
    requires c.dist != st.labels[c.id].cost
    ensures Inv(p, Without(st, c), {})
  {
    hide Routed;
    hide AllLinked;
    hide Covered;
    OthersStayOpen(p, st.labels, st.queue, c, {});
  }

  /** A current candidate leaves its state to be expanded. */
  lemma TakeCurrent<S(!new)>(p: Problem<S>, st: State<S>, c: Candidate<S>)
    requires Inv(p, st, {}) && c in st.queue
    ensures Inv(p, Without(st, c), {c.id})
  {
    hide Routed;
    hide AllLinked;
    hide Covered;
    OthersStayOpen(p, st.labels, st.queue, c, {c.id});
  }

  /** An expanded state is no longer pending. */
  lemma Expanded<S(!new)>(p: Problem<S>, st: State<S>, u: S, pending: set<S>)
    requires Inv(p, st, pending + {u}) && u in st.labels
    requires Settled(p, st.labels, u)
    ensures Inv(p, st, pending)
  {}

  // ---- Relaxing an arc ----

  ghost predicate Improves<S>(labels: map<S, Label<S>>, v: S, cost: real) {
    v !in labels || cost < labels[v].cost
  }

  /** The state after labelling `v` through `u`; the candidate is queued unless the caller
      goes on with `v` itself. */
  function Relaxed<S>(p: Problem<S>, st: State<S>, u: S, v: S, cost: real, queued: bool): State<S>
    requires u in st.routes
  {
    State(st.labels[v := Label(cost, u)], st.routes[v := st.routes[u] + [Stop(v, cost)]], st.times[v := st.now],
          st.now + 1, if queued then st.queue + multiset{CandidateOf(p, v, cost)} else st.queue)
  }

  /** A relaxation that improves a label happens at a state whose own route does not pass there. */
  lemma ImprovementIsElsewhere<S(!new)>(p: Problem<S>, st: State<S>, u: S, a: Arc<S>)
    requires Shape(p, st) && Routed(p, st.labels, st.routes) && NonNegative(p.arcs)
    requires u in st.labels && a in p.arcs(u)
    requires Improves(st.labels, a.to, st.labels[u].cost + a.cost)
    ensures a.to != u && a.to != p.start
    ensures forall i :: 0 <= i < |st.routes[u]| ==> st.routes[u][i].at != a.to
  {
    var t := st.routes[u];
    assert RouteOf(p, st.labels, u, t);
    CostsRise(p, t);
    assert t[|t| - 1].at == u && t[0].at == p.start;
  }

  lemma {:induction false} CostsRise<S(!new)>(p: Problem<S>, t: seq<Stop<S>>)
    requires Trail(p.arcs, t) && NonNegative(p.arcs)
    ensures forall i :: 0 <= i < |t| ==> 0.0 <= t[i].cost <= t[|t| - 1].cost
  {
    var n := |t| - 1;
    if n > 0 {
      var init := t[..n];
      assert Trail(p.arcs, init) by {
        forall i | 0 <= i < |init| - 1
          ensures Step(p.arcs, init[i], init[i + 1])
        {
          assert Step(p.arcs, t[i], t[i + 1]);
        }
      }
      CostsRise(p, init);
      assert Step(p.arcs, t[n - 1], t[n]);
      assert init[n - 1] == t[n - 1];
      forall i | 0 <= i < |t|
        ensures 0.0 <= t[i].cost <= t[n].cost
      {
        if i < n {
          assert init[i] == t[i];
        }
      }
    }
  }

  lemma TrailExtends<S(!new)>(arcs: S -> seq<Arc<S>>, t: seq<Stop<S>>, a: Arc<S>)
    requires Trail(arcs, t) && a in arcs(t[|t| - 1].at)
    ensures Trail(arcs, t + [Stop(a.to, t[|t| - 1].cost + a.cost)])
  {
    var t' := t + [Stop(a.to, t[|t| - 1].cost + a.cost)];
    forall i | 0 <= i < |t'| - 1
      ensures Step(arcs, t'[i], t'[i + 1])
    {
      if i < |t| - 1 {
        assert Step(arcs, t[i], t[i + 1]);
      } else {
        assert Arc(t'[i + 1].at, t'[i + 1].cost - t'[i].cost) == a;
      }
    }
  }

  lemma RelaxKeepsRoutes<S(!new)>(p: Problem<S>, st: State<S>, u: S, a: Arc<S>, st': State<S>)
    requires Shape(p, st) && Routed(p, st.labels, st.routes) && NonNegative(p.arcs)
    requires u in st.labels && a in p.arcs(u)
    requires Improves(st.labels, a.to, st.labels[u].cost + a.cost)
    requires st'.labels == st.labels[a.to := Label(st.labels[u].cost + a.cost, u)]
    requires st'.routes == st.routes[a.to := st.routes[u] + [Stop(a.to, st.labels[u].cost + a.cost)]]
    ensures Routed(p, st'.labels, st'.routes)
  {
    ImprovementIsElsewhere(p, st, u, a);
    assert RouteOf(p, st.labels, u, st.routes[u]);
    TrailExtends(p.arcs, st.routes[u], a);
    forall v | v in st'.labels
      ensures RouteOf(p, st'.labels, v, st'.routes[v])
    {
      if v != a.to {
        assert RouteOf(p, st.labels, v, st.routes[v]);
      }
    }
  }

  lemma RelaxKeepsLinks<S(!new)>(p: Problem<S>, st: State<S>, u: S, a: Arc<S>, st': State<S>)
    requires Shape(p, st) && AllLinked(p, st.labels, st.times) && NonNegative(p.arcs)
    requires u in st.labels && a in p.arcs(u) && a.to != u && a.to != p.start
    requires Improves(st.labels, a.to, st.labels[u].cost + a.cost)
    requires st'.labels == st.labels[a.to := Label(st.labels[u].cost + a.cost, u)]
    requires st'.times == st.times[a.to := st.now]
    ensures AllLinked(p, st'.labels, st'.times)
  {
    forall v | v in st'.labels && v != p.start
      ensures Linked(p, st'.labels, st'.times, v)
    {
      if v == a.to {
        assert st.labels[u].cost + a.cost <= st'.labels[v].cost;
      } else {
        assert Linked(p, st.labels, st.times, v);
        var u' := st.labels[v].previous;
        var b :| b in p.arcs(u') && b.to == v && st.labels[u'].cost + b.cost <= st.labels[v].cost;
        assert b.cost >= 0.0;
        assert st'.labels[u'].cost + b.cost <= st'.labels[v].cost;
      }
    }
  }

  lemma RelaxKeepsQueue<S(!new)>(p: Problem<S>, labels: map<S, Label<S>>, queue: multiset<Candidate<S>>, v: S,
      l: Label<S>, queue': multiset<Candidate<S>>)
    requires Queued(p, labels, queue) && Improves(labels, v, l.cost)
    requires queue' == queue || queue' == queue + multiset{CandidateOf(p, v, l.cost)}
    ensures Queued(p, labels[v := l], queue')
  {}

  lemma RelaxKeepsCover<S(!new)>(p: Problem<S>, st: State<S>, u: S, a: Arc<S>, labels': map<S, Label<S>>,
                                 queue': multiset<Candidate<S>>, pending: set<S>, pending': set<S>)
    requires Covered(p, st.labels, st.queue, pending)
    requires u in st.labels
    requires Improves(st.labels, a.to, st.labels[u].cost + a.cost)
    requires labels' == st.labels[a.to := Label(st.labels[u].cost + a.cost, u)]
    requires st.queue <= queue' && pending <= pending'
    requires a.to in pending' || Open(p, queue', a.to, labels'[a.to].cost)
    ensures Covered(p, labels', queue', pending')
  {
    forall v | v in labels' && v !in pending'
      ensures Open(p, queue', v, labels'[v].cost) || Settled(p, labels', v)
    {
      if v != a.to && Settled(p, st.labels, v) {
        forall b | b in p.arcs(v)
          ensures Done(labels', v, b)
        {
          assert Done(st.labels, v, b);
        }
      }
    }
  }

  /** Relaxing an improving arc keeps the invariant; a state that is not queued becomes pending. */
  lemma Relax<S(!new)>(p: Problem<S>, st: State<S>, u: S, a: Arc<S>, queued: bool, pending: set<S>)
    requires WellPosed(p) && Inv(p, st, pending)
    requires u in st.labels && a in p.arcs(u)
    requires Improves(st.labels, a.to, st.labels[u].cost + a.cost)
    ensures Inv(p, Relaxed(p, st, u, a.to, st.labels[u].cost + a.cost, queued), if queued then pending
      else pending + {a.to})
    ensures a.to != u
  {
    hide AllLinked;
    hide Routed;
    hide Covered;
    hide Queued;
    hide RouteOf;
    var cost := st.labels[u].cost + a.cost;
    var st' := Relaxed(p, st, u, a.to, cost, queued);
    ImprovementIsElsewhere(p, st, u, a);
    RelaxKeepsRoutes(p, st, u, a, st');
    RelaxKeepsLinks(p, st, u, a, st');
    RelaxKeepsQueue(p, st.labels, st.queue, a.to, Label(cost, u), st'.queue);
    RelaxKeepsCover(p, st, u, a, st'.labels, st'.queue, pending, if queued then pending else pending + {a.to});
  }

  /** The arcs of an expanded state that have been looked at. */
  ghost predicate DoneUpTo<S(!new)>(p: Problem<S>, labels: map<S, Label<S>>, u: S, k: nat) {
    u in labels && forall j :: 0 <= j < k && j < |p.arcs(u)| ==> Done(labels, u, p.arcs(u)[j])
  }

  lemma AllDone<S(!new)>(p: Problem<S>, labels: map<S, Label<S>>, u: S)
    requires DoneUpTo(p, labels, u, |p.arcs(u)|) && !p.goal(u)
    ensures Settled(p, labels, u)
  {
    forall a | a in p.arcs(u)
      ensures Done(labels, u, a)
    {
      var j :| 0 <= j < |p.arcs(u)| && p.arcs(u)[j] == a;
      assert Done(labels, u, p.arcs(u)[j]);
    }
  }

  /** Labels that only fall keep what was done, and the arc just tried is done either way. */
  lemma OneMoreDone<S(!new)>(p: Problem<S>, labels: map<S, Label<S>>, u: S, k: nat, labels': map<S, Label<S>>)
    requires DoneUpTo(p, labels, u, k) && k < |p.arcs(u)|
    requires Lower(labels, labels') && labels'[u].cost == labels[u].cost
    requires !Improves(labels', p.arcs(u)[k].to, labels[u].cost + p.arcs(u)[k].cost)
    ensures DoneUpTo(p, labels', u, k + 1)
  {
    forall j | 0 <= j < k + 1
      ensures Done(labels', u, p.arcs(u)[j])
    {
      if j < k {
        assert Done(labels, u, p.arcs(u)[j]);
      }
    }
  }

  /** Labels are only added or lowered. */
  ghost predicate Lower<S>(labels: map<S, Label<S>>, labels': map<S, Label<S>>) {
    forall v :: v in labels ==> v in labels' && labels'[v].cost <= labels[v].cost
  }

  // ---- Termination ----

  /** All pairs of a state and the cost of some walk of at most `n` arcs to it: finitely many. */
  ghost function Pool<S(!new)>(p: Problem<S>, n: nat): set<(S, real)> {
    if n == 0 then {(p.start, 0.0)} else
      var near := Pool(p, n - 1);
      near + set q, a | q in near && a in p.arcs(q.0) :: (a.to, q.1 + a.cost)
  }

  lemma PoolStart<S(!new)>(p: Problem<S>)
    ensures (p.start, 0.0) in Pool(p, 0)
  {}

  lemma PoolStep<S(!new)>(p: Problem<S>, n: nat, v: S, cost: real, a: Arc<S>)
    requires (v, cost) in Pool(p, n) && a in p.arcs(v)
    ensures (a.to, cost + a.cost) in Pool(p, n + 1)
  {
    var q := (v, cost);
    assert q in Pool(p, n) && a in p.arcs(q.0);
  }

  /** A trail of at most n arcs from the start ends in the pool. */
  lemma {:induction false} TrailInPool<S(!new)>(p: Problem<S>, t: seq<Stop<S>>, i: nat)
    requires Trail(p.arcs, t) && t[0].at == p.start && i < |t|
    ensures (t[i].at, t[i].cost) in Pool(p, i)
    decreases i
  {
    hide Pool;
    if i == 0 {
      PoolStart(p);
    } else {
      TrailInPool(p, t, i - 1);
      assert Step(p.arcs, t[i - 1], t[i]);
      PoolStep(p, i - 1, t[i - 1].at, t[i - 1].cost, Arc(t[i].at, t[i].cost - t[i - 1].cost));
    }
  }

  lemma {:induction false} PoolGrows<S(!new)>(p: Problem<S>, m: nat, n: nat)
    requires m <= n
    ensures Pool(p, m) <= Pool(p, n)
    decreases n - m
  {
    if m < n {
      PoolGrows(p, m + 1, n);
    }
  }

  /** The labels that could still be found. Every relaxation removes one. */
  ghost function Remaining<S(!new)>(p: Problem<S>, labels: map<S, Label<S>>): set<(S, real)> {
    set q | q in Pool(p, |p.universe|) && Improves(labels, q.0, q.1)
  }

  lemma RelaxProgresses<S(!new)>(p: Problem<S>, st: State<S>, u: S, a: Arc<S>, pending: set<S>)
    requires WellPosed(p) && Inv(p, st, pending)
    requires u in st.labels && a in p.arcs(u)
    requires Improves(st.labels, a.to, st.labels[u].cost + a.cost)
    ensures Remaining(p, st.labels[a.to := Label(st.labels[u].cost + a.cost, u)]) < Remaining(p, st.labels)
  {
    hide Covered;
    hide AllLinked;
    hide Queued;
    var cost := st.labels[u].cost + a.cost;
    var t := st.routes[u];
    assert RouteOf(p, st.labels, u, t);
    ImprovementIsElsewhere(p, st, u, a);
    TrailExtends(p.arcs, t, a);
    var t' := t + [Stop(a.to, cost)];
    RouteFits(p, st, u);
    TrailInPool(p, t', |t|);
    PoolGrows(p, |t|, |p.universe|);
    var labels' := st.labels[a.to := Label(cost, u)];
    assert (a.to, cost) in Remaining(p, st.labels) && (a.to, cost) !in Remaining(p, labels');
  }

  lemma RouteFits<S(!new)>(p: Problem<S>, st: State<S>, u: S)
    requires Shape(p, st) && u in st.labels && RouteOf(p, st.labels, u, st.routes[u])
    ensures |st.routes[u]| <= |p.universe|
  {
    var t := st.routes[u];
    var visited := seq(|t|, i requires 0 <= i < |t| => t[i].at);
    DistinctWithin(visited, p.universe);
  }

  lemma NothingDone<S(!new)>(p: Problem<S>, labels: map<S, Label<S>>, u: S)
    requires u in labels
    ensures DoneUpTo(p, labels, u, 0)
  {}

  lemma RelaxedArcIsDone<S(!new)>(p: Problem<S>, labels: map<S, Label<S>>, u: S, k: nat, labels': map<S, Label<S>>)
    requires DoneUpTo(p, labels, u, k) && k < |p.arcs(u)|
    requires var a := p.arcs(u)[k];
      && Improves(labels, a.to, labels[u].cost + a.cost) && a.to != u
      && labels' == labels[a.to := Label(labels[u].cost + a.cost, u)]
    ensures DoneUpTo(p, labels', u, k + 1) && labels'[u] == labels[u]
  {
    OneMoreDone(p, labels, u, k, labels');
  }

  lemma SameKeys<S(!new)>(p: Problem<S>, st: State<S>, pending: set<S>)
    requires Inv(p, st, pending)
    ensures st.labels.Keys == st.routes.Keys == st.times.Keys
  {}

  /** The step of the expansion loop of `u`: what it improves is queued, or left pending. */
  lemma RelaxArc<S(!new)>(p: Problem<S>, st: State<S>, u: S, k: nat, queued: bool)
    requires WellPosed(p) && Inv(p, st, {u}) && DoneUpTo(p, st.labels, u, k) && k < |p.arcs(u)|
    requires var a := p.arcs(u)[k]; Improves(st.labels, a.to, st.labels[u].cost + a.cost)
    ensures u in st.routes
    ensures var a := p.arcs(u)[k];
      var st' := Relaxed(p, st, u, a.to, st.labels[u].cost + a.cost, queued);
      && Inv(p, st', if queued then {u} else {u} + {a.to}) && DoneUpTo(p, st'.labels, u, k + 1)
      && st'.labels[u] == st.labels[u] && a.to != u
      && Remaining(p, st'.labels) < Remaining(p, st.labels)
  {
    hide Inv;
    hide Remaining;
    hide WellPosed;
    var a := p.arcs(u)[k];
    SameKeys(p, st, {u});
    var st' := Relaxed(p, st, u, a.to, st.labels[u].cost + a.cost, queued);
    Relax(p, st, u, a, queued, {u});
    RelaxProgresses(p, st, u, a, {u});
    RelaxedArcIsDone(p, st.labels, u, k, st'.labels);
  }

  lemma ArcAlreadyDone<S(!new)>(p: Problem<S>, labels: map<S, Label<S>>, u: S, k: nat)
    requires DoneUpTo(p, labels, u, k) && k < |p.arcs(u)|
    requires !Improves(labels, p.arcs(u)[k].to, labels[u].cost + p.arcs(u)[k].cost)
    ensures DoneUpTo(p, labels, u, k + 1)
  {
    OneMoreDone(p, labels, u, k, labels);
  }

  /** When every arc of `u` is done, nothing is pending any more. */
  lemma ExpansionEnds<S(!new)>(p: Problem<S>, st: State<S>, u: S)
    requires Inv(p, st, {u}) && DoneUpTo(p, st.labels, u, |p.arcs(u)|) && !p.goal(u)
    ensures Inv(p, st, {})
  {
    AllDone(p, st.labels, u);
    assert {} + {u} == {u};
    Expanded(p, st, u, {});
  }

  // ---- Walking on from a state instead of queueing it ----

  /** Every arc of `x` is done, except for `a` as long as that way is open. */
  ghost predicate HalfDone<S(!new)>(p: Problem<S>, labels: map<S, Label<S>>, x: S, a: Arc<S>, wayOpen: bool) {
    && x in labels && !p.goal(x)
    && (wayOpen ==> a in p.arcs(x))
    && forall b :: b in p.arcs(x) ==> Done(labels, x, b) || (wayOpen && b == a)
  }

  lemma LoweringKeepsDone<S(!new)>(p: Problem<S>, labels: map<S, Label<S>>, labels': map<S, Label<S>>, u: S, k: nat)
    requires DoneUpTo(p, labels, u, k) && Lower(labels, labels') && labels'[u].cost == labels[u].cost
    ensures DoneUpTo(p, labels', u, k)
  {
    forall j | 0 <= j < k && j < |p.arcs(u)|
      ensures Done(labels', u, p.arcs(u)[j])
    {
      assert Done(labels, u, p.arcs(u)[j]);
    }
  }

  lemma HalfDoneSettles<S(!new)>(p: Problem<S>, labels: map<S, Label<S>>, x: S, a: Arc<S>, wayOpen: bool,
      labels': map<S, Label<S>>)
    requires HalfDone(p, labels, x, a, wayOpen) && Lower(labels, labels') && labels'[x].cost == labels[x].cost
    requires wayOpen ==> Done(labels', x, a)
    ensures Settled(p, labels', x)
  {
    forall b | b in p.arcs(x)
      ensures Done(labels', x, b)
    {
      assert Done(labels, x, b) || b == a;
    }
  }

  /** The walk ends at `x` without an improvement: `x` is settled although it was never queued. */
  lemma WalkStops<S(!new)>(p: Problem<S>, st: State<S>, u: S, x: S, a: Arc<S>, wayOpen: bool)
    requires Inv(p, st, {u} + {x}) && HalfDone(p, st.labels, x, a, wayOpen)
    requires wayOpen ==> !Improves(st.labels, a.to, st.labels[x].cost + a.cost)
    ensures Inv(p, st, {u})
  {
    hide Inv;
    HalfDoneSettles(p, st.labels, x, a, wayOpen, st.labels);
    Expanded(p, st, x, {u});
  }

  /** The walk relaxes the one open arc of `x`; the expanded state `u` is not touched. */
  lemma WalkRelaxes<S(!new)>(p: Problem<S>, st: State<S>, u: S, k: nat, x: S, a: Arc<S>, queued: bool)
    requires WellPosed(p) && Inv(p, st, {u} + {x})
    requires DoneUpTo(p, st.labels, u, k) && HalfDone(p, st.labels, x, a, true)
    requires st.labels[u].cost <= st.labels[x].cost
    requires Improves(st.labels, a.to, st.labels[x].cost + a.cost)
    ensures x in st.routes
    ensures var st' := Relaxed(p, st, x, a.to, st.labels[x].cost + a.cost, queued);
      && Inv(p, st', if queued then {u} else {u} + {a.to})
      && DoneUpTo(p, st'.labels, u, k)
      && st'.labels[u] == st.labels[u] && st'.labels[x] == st.labels[x] && a.to != u
      && Remaining(p, st'.labels) < Remaining(p, st.labels)
  {
    hide Inv;
    hide Remaining;
    SameKeys(p, st, {u} + {x});
    var cost := st.labels[x].cost + a.cost;
    var st' := Relaxed(p, st, x, a.to, cost, queued);
    Relax(p, st, x, a, queued, {u} + {x});
    RelaxProgresses(p, st, x, a, {u} + {x});
    assert a.to != u && Lower(st.labels, st'.labels) && Done(st'.labels, x, a);
    LoweringKeepsDone(p, st.labels, st'.labels, u, k);
    HalfDoneSettles(p, st.labels, x, a, true, st'.labels);
    var pending := if queued then {u} else {u} + {a.to};
    assert (if queued then {u} + {x} else {u} + {x} + {a.to}) == pending + {x};
    Expanded(p, st', x, pending);
  }

  // ---- What the searches return ----

  /** The part of a trail from its i-th stop on, with costs counted from there. */
  ghost function Suffix<S>(t: seq<Stop<S>>, i: nat): (r: seq<Stop<S>>)
    requires i < |t|
    ensures |r| == |t| - i
    ensures forall j :: 0 <= j < |r| ==> r[j] == Stop(t[i + j].at, t[i + j].cost - t[i].cost)
  {
    seq(|t| - i, j requires 0 <= j < |t| - i => Stop(t[i + j].at, t[i + j].cost - t[i].cost))
  }

  lemma SuffixIsTrail<S(!new)>(arcs: S -> seq<Arc<S>>, t: seq<Stop<S>>, i: nat)
    requires Trail(arcs, t) && i < |t|
    ensures Trail(arcs, Suffix(t, i))
  {
    var r := Suffix(t, i);
    forall j | 0 <= j < |r| - 1
      ensures Step(arcs, r[j], r[j + 1])
    {
      assert Step(arcs, t[i + j], t[i + j + 1]);
    }
  }

  /** On every solving walk some state is queued with a priority that does not exceed the walk's cost. */
  lemma {:induction false} OpenOnWalk<S(!new)>(p: Problem<S>, st: State<S>, t: seq<Stop<S>>, i: nat)
    returns (c: Candidate<S>)
    requires Admissible(p) && Inv(p, st, {})
    requires Solves(p, t)
    requires i < |t| && t[i].at in st.labels && st.labels[t[i].at].cost <= t[i].cost
    ensures c in st.queue && c.priority <= t[|t| - 1].cost
    decreases |t| - i
  {
    hide Routed;
    hide AllLinked;
    hide Queued;
    var v := t[i].at;
    if Open(p, st.queue, v, st.labels[v].cost) {
      c := CandidateOf(p, v, st.labels[v].cost);
      SuffixIsTrail(p.arcs, t, i);
      var r := Suffix(t, i);
      assert p.goal(r[|r| - 1].at) && r[0].at == v;
    } else {
      assert Settled(p, st.labels, v);
      assert i < |t| - 1;
      assert Step(p.arcs, t[i], t[i + 1]);
      var a := Arc(t[i + 1].at, t[i + 1].cost - t[i].cost);
      assert Done(st.labels, v, a);
      c := OpenOnWalk(p, st, t, i + 1);
    }
  }

  /** A goal popped with its label has the least cost. */
  lemma PoppedGoalIsMinimum<S(!new)>(p: Problem<S>, st: State<S>, c: Candidate<S>)
    requires WellPosed(p) && Inv(p, st, {})
    requires c in st.queue && forall d :: d in st.queue ==> c.priority <= d.priority
    requires p.goal(c.id) && c.dist == st.labels[c.id].cost
    ensures IsMinimum(p, c.dist)
  {
    hide AllLinked;
    hide Covered;
    hide RouteOf;
    var route := st.routes[c.id];
    assert Solves(p, route) && route[|route| - 1].cost == c.dist by {
      RouteSolves(p, st.labels, c.id, route);
    }
    forall t: seq<Stop<S>> | Solves(p, t)
      ensures c.dist <= t[|t| - 1].cost
    {
      var d := OpenOnWalk(p, st, t, 0);
      assert c.dist <= c.priority <= d.priority;
    }
  }

  lemma RouteSolves<S(!new)>(p: Problem<S>, labels: map<S, Label<S>>, v: S, t: seq<Stop<S>>)
    requires v in labels && RouteOf(p, labels, v, t) && p.goal(v)
    ensures Solves(p, t) && t[|t| - 1].cost == labels[v].cost
  {}

  /** An exhausted queue means that no walk reaches a goal. */
  lemma ExhaustedMeansNoPath<S(!new)>(p: Problem<S>, st: State<S>)
    requires WellPosed(p) && Inv(p, st, {})
    requires st.queue == multiset{}
    ensures !exists t: seq<Stop<S>> :: Solves(p, t)
  {
    if t: seq<Stop<S>> :| Solves(p, t) {
      var c := OpenOnWalk(p, st, t, 0);
    }
  }

  // ---- Following the predecessors back ----

  /** States joined by arcs of the given costs. */
  ghost predicate Walk<S(!new)>(arcs: S -> seq<Arc<S>>, nodes: seq<S>, costs: seq<real>) {
    && |nodes| == |costs| + 1
    && forall i :: 0 <= i < |costs| ==> Arc(nodes[i + 1], costs[i]) in arcs(nodes[i])
  }

  ghost function Sum(costs: seq<real>): real {
    if costs == [] then 0.0 else costs[0] + Sum(costs[1..])
  }

  lemma {:induction false} WalkIsTrail<S(!new)>(arcs: S -> seq<Arc<S>>, nodes: seq<S>, costs: seq<real>)
    returns (t: seq<Stop<S>>)
    requires Walk(arcs, nodes, costs)
    ensures Trail(arcs, t) && Visits(t, nodes) && t[|t| - 1].cost == Sum(costs)
    decreases |costs|
  {
    if costs == [] {
      t := [Stop(nodes[0], 0.0)];
    } else {
      var rest := WalkIsTrail(arcs, nodes[1..], costs[1..]);
      t := [Stop(nodes[0], 0.0)] + seq(|rest|, i requires 0 <= i < |rest| => Stop(rest[i].at, rest[i].cost + costs[0]));
      forall i | 0 <= i < |t| - 1
        ensures Step(arcs, t[i], t[i + 1])
      {
        if i == 0 {
          assert Arc(nodes[1], costs[0]) in arcs(nodes[0]);
        } else {
          assert Step(arcs, rest[i - 1], rest[i]);
        }
      }
    }
  }

  /** The labelled states that come before `v` in the order by label and time. */
  ghost function Earlier<S(!new)>(labels: map<S, Label<S>>, times: map<S, nat>, v: S): set<S>
    requires v in labels && labels.Keys == times.Keys
  {
    set w | w in labels
      && (labels[w].cost < labels[v].cost || (labels[w].cost == labels[v].cost && times[w] < times[v]))
  }

  /** The part of the returned path from some state on to the goal. */
  ghost predicate TailFrom<S(!new)>(p: Problem<S>, labels: map<S, Label<S>>, nodes: seq<S>, costs: seq<real>, goal: S) {
    && Walk(p.arcs, nodes, costs)
    && nodes[|nodes| - 1] == goal
    && nodes[0] in labels && goal in labels
    && labels[nodes[0]].cost + Sum(costs) <= labels[goal].cost
  }

  lemma StartTail<S(!new)>(p: Problem<S>, st: State<S>, goal: S)
    requires goal in st.labels
    ensures TailFrom(p, st.labels, [goal], [], goal)
  {}

  lemma LinksOf<S(!new)>(p: Problem<S>, st: State<S>, pending: set<S>)
    requires Inv(p, st, pending)
    ensures Shape(p, st) && AllLinked(p, st.labels, st.times)
  {}

  /** One predecessor link lengthens the tail and moves strictly earlier, so the links form no cycle. */
  lemma LinkExtendsTail<S(!new)>(p: Problem<S>, st: State<S>, nodes: seq<S>, costs: seq<real>, goal: S)
    returns (cost: real)
    requires Shape(p, st) && AllLinked(p, st.labels, st.times) && NonNegative(p.arcs)
    requires TailFrom(p, st.labels, nodes, costs, goal)
    requires nodes[0] != p.start
    ensures st.labels[nodes[0]].previous in st.labels
    ensures TailFrom(p, st.labels, [st.labels[nodes[0]].previous] + nodes, [cost] + costs, goal)
    ensures Earlier(st.labels, st.times, st.labels[nodes[0]].previous) < Earlier(st.labels, st.times, nodes[0])
  {
    var v := nodes[0];
    assert Linked(p, st.labels, st.times, v);
    var u := st.labels[v].previous;
    var a :| a in p.arcs(u) && a.to == v && st.labels[u].cost + a.cost <= st.labels[v].cost;
    cost := a.cost;
    assert ([cost] + costs)[1..] == costs;
    assert Arc(v, cost) == a;
    assert u in Earlier(st.labels, st.times, v) && u !in Earlier(st.labels, st.times, u);
  }

  /** The finished tail is a solving path, and it costs exactly what the goal was labelled with. */
  lemma TailIsPath<S(!new)>(p: Problem<S>, st: State<S>, nodes: seq<S>, costs: seq<real>, goal: S)
    requires Shape(p, st)
    requires TailFrom(p, st.labels, nodes, costs, goal)
    requires nodes[0] == p.start && p.goal(goal)
    requires IsMinimum(p, st.labels[goal].cost)
    ensures IsPath(p, nodes, st.labels[goal].cost)
  {
    var t := WalkIsTrail(p.arcs, nodes, costs);
    assert Solves(p, t);
  }
}
