/** One-to-all distances from a landmark, forwards or on the transposed graph
    (`landmarkDistances` in core/router_landmarks.go). */
module LandmarkDistances {
  import opened Common
  import opened Pigeonhole
  import opened RouteHeap
  import opened SearchTheory
  import opened Landmarks

  /** The search without a goal or estimate. */
  ghost function ToAll(arcs: Arcs, n: nat, seed: nat): Problem<nat> {
    Problem(arcs, seed, (_: nat) => false, (_: nat) => 0.0, Below(n))
  }

  ghost predicate ArcsWithin(arcs: Arcs, n: nat) {
    forall i: nat, a :: a in arcs(i) ==> a.to < n
  }

  lemma ToAllWellPosed(arcs: Arcs, n: nat, seed: nat)
    requires seed < n && NonNegative(arcs) && ArcsWithin(arcs, n)
    ensures WellPosed(ToAll(arcs, n, seed))
  {
    var p := ToAll(arcs, n, seed);
    forall s: nat, a | s in p.universe && a in p.arcs(s)
      ensures a.to in p.universe
    {
      assert a in arcs(s);
    }
  }

  /** The array of distances says what the labels say. */
  ghost predicate Mirrors(n: nat, distances: seq<Ext>, labels: map<nat, Label<nat>>) {
    && |distances| == n
    && (forall v: nat :: v in labels ==> v < n && distances[v] == Fin(labels[v].cost))
    && (forall v: nat :: v < n && v !in labels ==> distances[v] == Inf)
  }

  lemma SetMirrors(n: nat, distances: seq<Ext>, labels: map<nat, Label<nat>>, v: nat, cost: real, previous: nat)
    requires Mirrors(n, distances, labels) && v < n
    ensures Mirrors(n, distances[v := Fin(cost)], labels[v := Label(cost, previous)])
  {}

  // ---- When the queue is empty every label is a distance ----

  lemma {:induction false} ReachedAtMost(arcs: Arcs, n: nat, seed: nat, st: State<nat>, t: seq<Stop<nat>>)
    requires Inv(ToAll(arcs, n, seed), st, {}) && st.queue == multiset{}
    requires Trail(arcs, t) && t[0].at == seed
    ensures t[|t| - 1].at in st.labels && st.labels[t[|t| - 1].at].cost <= t[|t| - 1].cost
  {
    hide Inv;
    var k := |t| - 1;
    if k == 0 {
      StartLabelled(ToAll(arcs, n, seed), st);
    } else {
      PrefixTrail(arcs, t, k);
      ReachedAtMost(arcs, n, seed, st, t[..k]);
      AllSettled(ToAll(arcs, n, seed), st, t[k - 1].at);
      assert Step(arcs, t[k - 1], t[k]);
      assert Done(st.labels, t[k - 1].at, Arc(t[k].at, t[k].cost - t[k - 1].cost));
    }
  }

  lemma PrefixTrail(arcs: Arcs, t: seq<Stop<nat>>, k: nat)
    requires Trail(arcs, t) && 0 < k <= |t|
    ensures Trail(arcs, t[..k])
  {
    forall i | 0 <= i < k - 1
      ensures Step(arcs, t[..k][i], t[..k][i + 1])
    {
      assert Step(arcs, t[i], t[i + 1]);
    }
  }

  lemma StartLabelled(p: Problem<nat>, st: State<nat>)
    requires Inv(p, st, {})
    ensures p.start in st.labels && st.labels[p.start].cost == 0.0
  {}

  lemma AllSettled(p: Problem<nat>, st: State<nat>, v: nat)
    requires Inv(p, st, {}) && st.queue == multiset{} && v in st.labels
    ensures Settled(p, st.labels, v)
  {}

  lemma LabelIsDistance(arcs: Arcs, n: nat, seed: nat, st: State<nat>, v: nat)
    requires Inv(ToAll(arcs, n, seed), st, {}) && st.queue == multiset{}
    ensures IsDistance(arcs, seed, v, if v in st.labels then Fin(st.labels[v].cost) else Inf)
  {
    forall t: seq<Stop<nat>> | WalkBetween(arcs, seed, v, t)
      ensures v in st.labels && st.labels[v].cost <= t[|t| - 1].cost
    {
      ReachedAtMost(arcs, n, seed, st, t);
    }
    if v in st.labels {
      var p := ToAll(arcs, n, seed);
      assert RouteOf(p, st.labels, v, st.routes[v]);
      assert WalkBetween(arcs, seed, v, st.routes[v]);
    }
  }

  ghost predicate AllDistances(arcs: Arcs, n: nat, seed: nat, distances: seq<Ext>) {
    |distances| == n && forall v :: 0 <= v < n ==> IsDistance(arcs, seed, v, distances[v])
  }

  lemma MirroredDistances(arcs: Arcs, n: nat, seed: nat, st: State<nat>, distances: seq<Ext>)
    requires Inv(ToAll(arcs, n, seed), st, {}) && st.queue == multiset{} && Mirrors(n, distances, st.labels)
    ensures AllDistances(arcs, n, seed, distances)
  {
    hide Inv;
    hide IsDistance;
    forall v | 0 <= v < n
      ensures IsDistance(arcs, seed, v, distances[v])
    {
      LabelIsDistance(arcs, n, seed, st, v);
    }
  }

  // ---- The search ----

  /** The links of a node, and what each costs. */
  datatype Links<!E> = Links(edges: nat -> seq<E>, arc: E -> Arc<nat>)

  ghost predicate Gives<E>(links: Links<E>, arcs: Arcs) {
    forall i: nat :: arcs(i) == UsableArcs(links.edges(i), _ => true, links.arc)
  }

  lemma {:induction false} AllAreArcs<E>(edges: seq<E>, arc: E -> Arc<nat>)
    ensures |UsableArcs(edges, _ => true, arc)| == |edges|
    ensures forall k :: 0 <= k < |edges| ==> UsableArcs(edges, _ => true, arc)[k] == arc(edges[k])
  {
    if edges != [] {
      AllAreArcs(edges[..|edges| - 1], arc);
    }
  }

  method RelaxOne(ghost p: Problem<nat>, current: Candidate<nat>, a: Arc<nat>, pq: ValueHeap<nat>,
      distances: array<Ext>, ghost st: State<nat>, ghost k: nat)
    returns (ghost st': State<nat>)
    requires WellPosed(p) && Inv(p, st, {current.id}) && DoneUpTo(p, st.labels, current.id, k)
    requires current.dist == st.labels[current.id].cost && a.to < distances.Length
    requires k < |p.arcs(current.id)| && p.arcs(current.id)[k] == a && forall i :: p.estimate(i) == 0.0
    requires pq.Valid() && multiset(pq.items) == st.queue && Mirrors(distances.Length, distances[..], st.labels)
    modifies pq, distances
    ensures pq.Valid() && multiset(pq.items) == st'.queue && Mirrors(distances.Length, distances[..], st'.labels)
    ensures Inv(p, st', {current.id}) && DoneUpTo(p, st'.labels, current.id, k + 1)
    ensures st'.labels[current.id] == st.labels[current.id]
    ensures st' == st || Remaining(p, st'.labels) < Remaining(p, st.labels)
  {
    hide Inv;
    hide WellPosed;
    hide Remaining;
    hide Mirrors;
    var distance := current.dist + a.cost;
    KnownLabel(distances.Length, distances[..], st.labels, a.to);
    if distances[a.to].Fin? && distances[a.to].v <= distance {
      ArcAlreadyDone(p, st.labels, current.id, k);
      return st;
    }
    RelaxArc(p, st, current.id, k, true);
    SetMirrors(distances.Length, distances[..], st.labels, a.to, distance, current.id);
    ghost var was := distances[..];
    distances[a.to] := Fin(distance);
    assert distances[..] == was[a.to := Fin(distance)];
    pq.Push(Candidate(a.to, distance, distance));
    st' := Relaxed(p, st, current.id, a.to, distance, true);
  }

  lemma KnownLabel(n: nat, distances: seq<Ext>, labels: map<nat, Label<nat>>, v: nat)
    requires Mirrors(n, distances, labels) && v < n
    ensures |distances| == n && distances[v] == if v in labels then Fin(labels[v].cost) else Inf
  {}

  /** Relaxes every link of a popped node. */
  method ExpandAll<E>(ghost p: Problem<nat>, links: Links<E>, current: Candidate<nat>, pq: ValueHeap<nat>,
      distances: array<Ext>, ghost st: State<nat>)
    returns (ghost st': State<nat>)
    requires WellPosed(p) && Inv(p, st, {current.id}) && Gives(links, p.arcs) && ArcsWithin(p.arcs, distances.Length)
    requires current.id in st.labels && current.dist == st.labels[current.id].cost && !p.goal(current.id)
    requires forall i :: p.estimate(i) == 0.0
    requires pq.Valid() && multiset(pq.items) == st.queue && Mirrors(distances.Length, distances[..], st.labels)
    modifies pq, distances
    ensures pq.Valid() && multiset(pq.items) == st'.queue && Mirrors(distances.Length, distances[..], st'.labels)
    ensures Inv(p, st', {}) && (st' == st || Remaining(p, st'.labels) < Remaining(p, st.labels))
  {
    hide Inv;
    hide WellPosed;
    hide Remaining;
    hide Mirrors;
    hide UsableArcs;
    var edges := links.edges(current.id);
    AllAreArcs(edges, links.arc);
    NothingDone(p, st.labels, current.id);
    st' := st;
    for k := 0 to |edges|
      invariant pq.Valid() && multiset(pq.items) == st'.queue && Mirrors(distances.Length, distances[..], st'.labels)
      invariant Inv(p, st', {current.id}) && DoneUpTo(p, st'.labels, current.id, k)
      invariant st'.labels[current.id].cost == current.dist
      invariant st' == st || Remaining(p, st'.labels) < Remaining(p, st.labels)
    {
      assert links.arc(edges[k]) in p.arcs(current.id);
      st' := RelaxOne(p, current, links.arc(edges[k]), pq, distances, st', k);
    }
    ExpansionEnds(p, st', current.id);
  }

  lemma StartMirrors(n: nat, seed: nat, distances: seq<Ext>)
    requires seed < n == |distances| && forall i :: 0 <= i < n ==> distances[i] == if i == seed then Fin(0.0) else Inf
    ensures Mirrors(n, distances, map[seed := Label(0.0, seed)])
  {}

  /** Exact distances from the seed to every node; infinite exactly where no walk leads. */
  method Distances<E>(links: Links<E>, ghost arcs: Arcs, n: nat, seed: nat) returns (result: seq<Ext>)
    requires seed < n && NonNegative(arcs) && ArcsWithin(arcs, n) && Gives(links, arcs)
    ensures AllDistances(arcs, n, seed, result)
  {
    hide *;
    ghost var p := ToAll(arcs, n, seed);
    ToAllWellPosed(arcs, n, seed);
    ToAllIs(arcs, n, seed);
    ghost var st := Initial(p, seed);
    InitialInv(p, seed);
    InitialIs(p, seed);
    var distances := new Ext[n](_ => Inf);
    distances[seed] := Fin(0.0);
    StartMirrors(n, seed, distances[..]);
    var pq := new ValueHeap<nat>();
    pq.Push(Candidate(seed, 0.0, 0.0));
    while |pq.items| > 0
      invariant fresh(pq) && fresh(distances) && distances.Length == n
      invariant pq.Valid() && multiset(pq.items) == st.queue && Mirrors(n, distances[..], st.labels)
      invariant Inv(p, st, {})
      decreases Remaining(p, st.labels), |st.queue|
    {
      var current := pq.Pop();
      QueuedIsLabelled(p, st, current);
      KeysWithin(p, st, n, current.id);
      KnownLabel(n, distances[..], st.labels, current.id);
      WithoutIs(st, current);
      if distances[current.id] != Fin(current.dist) {
        DropStale(p, st, current);
        st := Without(st, current);
        continue;
      }
      TakeCurrent(p, st, current);
      st := Without(st, current);
      st := ExpandAll(p, links, current, pq, distances, st);
    }
    MirroredDistances(arcs, n, seed, st, distances[..]);
    result := distances[..];
  }

  lemma ToAllIs(arcs: Arcs, n: nat, seed: nat)
    ensures var p := ToAll(arcs, n, seed);
      p.arcs == arcs && p.start == seed && p.universe == Below(n) && (forall i :: p.estimate(i) == 0.0) && forall i ::
        !p.goal(i)
  {}

  lemma InitialIs(p: Problem<nat>, seed: nat)
    requires p.start == seed && forall i :: p.estimate(i) == 0.0
    ensures Initial(p, seed).labels == map[seed := Label(0.0, seed)]
    ensures Initial(p, seed).queue == multiset{Candidate(seed, 0.0, 0.0)}
  {}

  lemma WithoutIs(st: State<nat>, c: Candidate<nat>)
    ensures Without(st, c).labels == st.labels && Without(st, c).queue == st.queue - multiset{c}
  {}

  lemma KeysWithin(p: Problem<nat>, st: State<nat>, n: nat, v: nat)
    requires Inv(p, st, {}) && v in st.labels && p.universe == Below(n)
    ensures v < n
  {}
}
