/** Turn states packed into one number: previous and current node index of a compact store
    (core/router_turn_index.go). The walks over packed states are exactly the walks over
    (previous id, current id) of the graph the store stands for, at the same costs. */
module PackedTurns {
  import opened RouteCosts
  import opened GraphStore
  import opened AttributeCosts
  import opened SearchTheory
  import opened GraphExport
  import T = TurnSearch
  import N = NodeSearch
  import I = IndexSearch

  /** What stays fixed during one query. `zero` is the record of the OSM id 0, or the largest
      word when no node has that id. */
  datatype TurnQuery = TurnQuery(d: Store, f64: Float64, o: Options, kind: T.Classifier, zero: nat, from: nat, to: nat,
                                 estimate: int -> real)

  function Pack(previous: nat, current: nat): (s: nat)
    requires current < WORD
    ensures PreviousOf(s) == previous && CurrentOf(s) == current
  {
    previous * 0x1_0000_0000 + current
  }

  function PreviousOf(s: nat): nat { s / 0x1_0000_0000 }

  function CurrentOf(s: nat): nat { s % 0x1_0000_0000 }

  ghost predicate ValidQuery(q: TurnQuery) {
    && Readable(q.d) && SortedIds(q.d) && |q.d.nodes| < WORD
    && (if q.zero < |q.d.nodes| then q.d.nodes[q.zero].id == 0
        else q.zero == WORD - 1 && forall i :: 0 <= i < |q.d.nodes| ==> q.d.nodes[i].id != 0)
    && q.from < |q.d.nodes| && q.to < |q.d.nodes|
  }

  predicate Known(q: TurnQuery, s: nat) {
    CurrentOf(s) < |q.d.nodes| && (PreviousOf(s) < |q.d.nodes| || PreviousOf(s) == q.zero)
  }

  function Crossing(q: TurnQuery, s: nat): real
    requires Known(q, s)
  {
    if T.CrossingPenalty(q.o) > 0.0 && EdgeRange(q.d, CurrentOf(s)).1 > 2 then T.CrossingPenalty(q.o) else 0.0
  }

  function KindPenalty(o: Options, kind: T.TurnKind): real {
    match kind
    case Left => if o.weights.noLeftTurn then T.NO_LEFT_TURN_PENALTY else o.weights.leftTurn
    case Right => o.weights.rightTurn
    case UTurn => o.weights.uTurn
    case Straight => 0.0
  }

  /** The cost of passing the current node of `s` towards `next`. */
  function Penalty(q: TurnQuery, s: nat, next: nat): real
    requires Known(q, s)
  {
    if PreviousOf(s) == q.zero then 0.0
    else if !T.TurnDirections(q.o) then Crossing(q, s)
    else Crossing(q, s) + KindPenalty(q.o, q.kind(IdAt(q.d, PreviousOf(s)), IdAt(q.d, CurrentOf(s)), IdAt(q.d, next)))
  }

  function CostOf(q: TurnQuery, s: nat, e: EdgeRec): real {
    if Known(q, s) && I.InRange(q.d, e) then
      BaseCost(q.o, AttributesOf(q.d, q.f64, e.attribute), q.f64(e.distance)) + Penalty(q, s, e.target)
    else 0.0
  }

  function ArcOf(q: TurnQuery, s: nat): EdgeRec -> Arc<nat> {
    (e: EdgeRec) => Arc(if e.target < WORD then Pack(CurrentOf(s), e.target) else 0, CostOf(q, s, e))
  }

  function Usable(q: TurnQuery): EdgeRec -> bool {
    I.Usable(q.d, q.f64, q.o)
  }

  function ArcsOf(q: TurnQuery, s: nat): seq<Arc<nat>>
    requires Readable(q.d)
  {
    if Known(q, s) then UsableArcs(CompactEdges(q.d, CurrentOf(s)), Usable(q), ArcOf(q, s)) else []
  }

  ghost function Packed(q: TurnQuery): Problem<nat>
    requires ValidQuery(q)
  {
    Problem((s: nat) => ArcsOf(q, s), Pack(q.zero, q.from), (s: nat) => CurrentOf(s) == q.to,
            (s: nat) => q.estimate(IdAt(q.d, CurrentOf(s))),
            {Pack(q.zero, q.from)}
            + set i: nat, j: nat | i < |q.d.nodes| && j < |q.d.nodes| && j < WORD :: Pack(i, j))
  }

  /** The same query over OSM ids on the graph the store stands for. */
  ghost function Unpacked(q: TurnQuery): Problem<T.TurnState>
    requires ValidQuery(q)
  {
    T.TurnProblem(Exported(q.d, q.f64), q.o, q.kind, q.d.nodes[q.from].id, q.d.nodes[q.to].id, q.estimate)
  }

  function NameOf(q: TurnQuery, s: nat): T.TurnState {
    T.TurnState(IdAt(q.d, PreviousOf(s)), IdAt(q.d, CurrentOf(s)))
  }

  // ---- One step ----

  lemma IdIsZero(q: TurnQuery, i: nat)
    requires ValidQuery(q) && (i < |q.d.nodes| || i == q.zero)
    ensures IdAt(q.d, i) == 0 <==> i == q.zero
  {
    hide Readable;
  }

  lemma KnownExported(q: TurnQuery, i: nat)
    requires ValidQuery(q) && i < |q.d.nodes|
    ensures IdAt(q.d, i) in Exported(q.d, q.f64).coords
    ensures |Exported(q.d, q.f64).Edges(IdAt(q.d, i))| == EdgeRange(q.d, i).1
  {
    ExportedEdges(q.d, q.f64, i);
  }

  lemma PenaltyAgrees(q: TurnQuery, s: nat, next: nat)
    requires ValidQuery(q) && Known(q, s) && next < |q.d.nodes|
    ensures Penalty(q, s, next)
      == T.Penalty(Exported(q.d, q.f64), q.o, q.kind, NameOf(q, s).prev, NameOf(q, s).cur, IdAt(q.d, next))
  {
    hide *;
    Definitions(q, s);
    IdIsZero(q, PreviousOf(s));
    KnownExported(q, CurrentOf(s));
    KnownExported(q, next);
    if PreviousOf(s) != q.zero {
      KnownExported(q, PreviousOf(s));
    }
    SameFormula(q, s, next);
  }

  lemma Definitions(q: TurnQuery, s: nat)
    requires Known(q, s) && ValidQuery(q)
    ensures Readable(q.d) && SortedIds(q.d)
    ensures CurrentOf(s) < |q.d.nodes| && (PreviousOf(s) < |q.d.nodes| || PreviousOf(s) == q.zero)
    ensures NameOf(q, s) == T.TurnState(IdAt(q.d, PreviousOf(s)), IdAt(q.d, CurrentOf(s)))
  {
    hide Readable;
  }

  lemma SameFormula(q: TurnQuery, s: nat, next: nat)
    requires Known(q, s) && Readable(q.d) && SortedIds(q.d)
    requires var g := Exported(q.d, q.f64);
      && (IdAt(q.d, PreviousOf(s)) == 0 <==> PreviousOf(s) == q.zero)
      && (PreviousOf(s) != q.zero ==> IdAt(q.d, PreviousOf(s)) in g.coords)
      && IdAt(q.d, CurrentOf(s)) in g.coords && IdAt(q.d, next) in g.coords
      && |g.Edges(IdAt(q.d, CurrentOf(s)))| == EdgeRange(q.d, CurrentOf(s)).1
    ensures Penalty(q, s, next)
      == T.Penalty(Exported(q.d, q.f64), q.o, q.kind, IdAt(q.d, PreviousOf(s)), IdAt(q.d, CurrentOf(s)),
        IdAt(q.d, next))
  {
    hide Readable;
    hide SortedIds;
    hide Exported;
    hide IdAt;
    hide N.MemoryGraph.Edges;
    hide EdgeRange;
    hide CurrentOf;
    hide PreviousOf;
    hide T.CrossingPenalty;
    hide T.TurnDirections;
  }

  /** An edge record and the edge it stands for are arcs of the same cost. */
  lemma ArcsAgree(q: TurnQuery, s: nat, e: EdgeRec)
    requires ValidQuery(q) && Known(q, s) && e.target < |q.d.nodes| && e.attribute < |q.d.attributes|
    ensures var (a, edge) := (ArcOf(q, s)(e), EdgeOf(q.d, q.f64, e));
      && a.to == Pack(CurrentOf(s), e.target) && Known(q, a.to)
      && Usable(q)(e) == N.Usable(q.o)(edge)
      && T.Arcs(Exported(q.d, q.f64), q.o, q.kind, NameOf(q, s))(edge) == Arc(NameOf(q, a.to), a.cost)
  {
    assert q.d.attributes[e.attribute] in q.d.attributes;
    PenaltyAgrees(q, s, e.target);
    hide Exported;
    hide Penalty;
    hide T.Penalty;
    hide BaseCost;
    hide AttributesAllowed;
  }

  lemma ArcIsEdge(q: TurnQuery, s: nat, a: Arc<nat>) returns (e: EdgeRec)
    requires ValidQuery(q) && a in ArcsOf(q, s)
    ensures Known(q, s) && e in CompactEdges(q.d, CurrentOf(s)) && Usable(q)(e) && a == ArcOf(q, s)(e)
    ensures e.target < |q.d.nodes| && e.attribute < |q.d.attributes|
  {
    UsableArcsMembers(CompactEdges(q.d, CurrentOf(s)), Usable(q), ArcOf(q, s), a);
    hide Usable;
    hide ArcOf;
    hide Readable;
    e :| e in CompactEdges(q.d, CurrentOf(s)) && Usable(q)(e) && a == ArcOf(q, s)(e);
  }

  /** What the exported graph has at a node, edge by edge. */
  lemma EdgeExported(q: TurnQuery, i: nat, e: EdgeRec)
    requires ValidQuery(q) && i < |q.d.nodes| && e in CompactEdges(q.d, i)
    ensures e.target < |q.d.nodes| && e.attribute < |q.d.attributes|
    ensures EdgeOf(q.d, q.f64, e) in Exported(q.d, q.f64).Edges(q.d.nodes[i].id)
  {
    ExportedEdges(q.d, q.f64, i);
    hide Exported;
    var k :| 0 <= k < |CompactEdges(q.d, i)| && CompactEdges(q.d, i)[k] == e;
    assert EdgesAt(q.d, q.f64, i)[k] == EdgeOf(q.d, q.f64, e);
  }

  lemma EdgeStored(q: TurnQuery, i: nat, edge: Edge) returns (e: EdgeRec)
    requires ValidQuery(q) && i < |q.d.nodes| && edge in Exported(q.d, q.f64).Edges(q.d.nodes[i].id)
    ensures e in CompactEdges(q.d, i) && e.target < |q.d.nodes| && e.attribute < |q.d.attributes|
    ensures edge == EdgeOf(q.d, q.f64, e)
  {
    ExportedEdges(q.d, q.f64, i);
    hide Exported;
    var es := EdgesAt(q.d, q.f64, i);
    var k :| 0 <= k < |es| && es[k] == edge;
    e := CompactEdges(q.d, i)[k];
    assert e in CompactEdges(q.d, i);
  }

  lemma StepUnpacks(q: TurnQuery, s: nat, a: Arc<nat>)
    requires ValidQuery(q) && a in ArcsOf(q, s)
    ensures Known(q, a.to) && Arc(NameOf(q, a.to), a.cost) in Unpacked(q).arcs(NameOf(q, s))
  {
    hide UsableArcs;
    hide Readable;
    hide T.Arcs;
    hide ArcOf;
    hide Usable;
    hide Exported;
    var e := ArcIsEdge(q, s, a);
    var g, edge := Exported(q.d, q.f64), EdgeOf(q.d, q.f64, e);
    EdgeExported(q, CurrentOf(s), e);
    ArcsAgree(q, s, e);
    UsableArcsComplete(g.Edges(NameOf(q, s).cur), N.Usable(q.o), T.Arcs(g, q.o, q.kind, NameOf(q, s)), edge);
  }

  lemma StepPacks(q: TurnQuery, s: nat, b: Arc<T.TurnState>) returns (a: Arc<nat>)
    requires ValidQuery(q) && Known(q, s) && b in Unpacked(q).arcs(NameOf(q, s))
    ensures a in ArcsOf(q, s) && Known(q, a.to) && b == Arc(NameOf(q, a.to), a.cost)
  {
    hide UsableArcs;
    hide Readable;
    hide T.Arcs;
    hide ArcOf;
    hide Usable;
    hide Exported;
    var g := Exported(q.d, q.f64);
    var edge := T.ArcIsEdge(g, q.o, q.kind, NameOf(q, s), b);
    var e := EdgeStored(q, CurrentOf(s), edge);
    ArcsAgree(q, s, e);
    assert N.Usable(q.o)(edge);
    UsableArcsComplete(CompactEdges(q.d, CurrentOf(s)), Usable(q), ArcOf(q, s), e);
    a := ArcOf(q, s)(e);
  }

  // ---- Whole walks ----

  ghost function NamesOf(q: TurnQuery, t: seq<Stop<nat>>): (names: seq<Stop<T.TurnState>>)
    ensures |names| == |t| && forall i :: 0 <= i < |t| ==> names[i] == Stop(NameOf(q, t[i].at), t[i].cost)
  {
    seq(|t|, i requires 0 <= i < |t| => Stop(NameOf(q, t[i].at), t[i].cost))
  }

  lemma PackedArcs(q: TurnQuery, s: nat)
    requires ValidQuery(q)
    ensures Readable(q.d) && Packed(q).arcs(s) == ArcsOf(q, s)
  {}

  lemma StopsUnpack(q: TurnQuery, a: Stop<nat>, b: Stop<nat>)
    requires ValidQuery(q) && Step(Packed(q).arcs, a, b)
    ensures Step(Unpacked(q).arcs, Stop(NameOf(q, a.at), a.cost), Stop(NameOf(q, b.at), b.cost))
  {
    hide NameOf;
    hide ArcsOf;
    hide Readable;
    hide Packed;
    hide Unpacked;
    PackedArcs(q, a.at);
    StepUnpacks(q, a.at, Arc(b.at, b.cost - a.cost));
  }

  lemma TrailUnpacks(q: TurnQuery, t: seq<Stop<nat>>)
    requires ValidQuery(q) && Trail(Packed(q).arcs, t)
    ensures Trail(Unpacked(q).arcs, NamesOf(q, t))
  {
    hide NameOf;
    hide Step;
    hide Packed;
    hide Unpacked;
    hide Readable;
    var names := NamesOf(q, t);
    forall i | 0 <= i < |names| - 1
      ensures Step(Unpacked(q).arcs, names[i], names[i + 1])
    {
      assert Step(Packed(q).arcs, t[i], t[i + 1]);
      StopsUnpack(q, t[i], t[i + 1]);
    }
  }

  lemma {:induction false} TrailPacks(q: TurnQuery, names: seq<Stop<T.TurnState>>, n: nat) returns (t: seq<Stop<nat>>)
    requires ValidQuery(q) && Trail(Unpacked(q).arcs, names) && n < |names|
    requires names[0].at == NameOf(q, Pack(q.zero, q.from))
    ensures Trail(Packed(q).arcs, t) && |t| == n + 1 && t[0].at == Pack(q.zero, q.from)
    ensures Known(q, t[n].at) && NamesOf(q, t) == names[..n + 1]
  {
    hide NameOf;
    hide Unpacked;
    hide ArcsOf;
    hide Readable;
    if n == 0 {
      t := [Stop(Pack(q.zero, q.from), 0.0)];
    } else {
      t := TrailPacks(q, names, n - 1);
      var k := n - 1;
      assert NamesOf(q, t)[k] == names[k];
      assert Step(Unpacked(q).arcs, names[k], names[k + 1]);
      var a := StepPacks(q, t[k].at, Arc(names[n].at, names[n].cost - names[k].cost));
      var t' := t + [Stop(a.to, names[n].cost)];
      assert Step(Packed(q).arcs, t'[k], t'[k + 1]);
      forall i | 0 <= i < |t'| - 1
        ensures Step(Packed(q).arcs, t'[i], t'[i + 1])
      {
        if i < k {
          assert Step(Packed(q).arcs, t[i], t[i + 1]);
        }
      }
      assert NamesOf(q, t') == NamesOf(q, t) + [names[n]];
      t := t';
    }
  }

  lemma GoalsAgree(q: TurnQuery, s: nat)
    requires ValidQuery(q)
    ensures CurrentOf(s) == q.to ==> NameOf(q, s).cur == q.d.nodes[q.to].id
    ensures Known(q, s) && NameOf(q, s).cur == q.d.nodes[q.to].id ==> CurrentOf(s) == q.to
    ensures NameOf(q, Pack(q.zero, q.from)) == T.TurnState(0, q.d.nodes[q.from].id)
  {
    hide Readable;
  }

  lemma SolutionUnpacks(q: TurnQuery, t: seq<Stop<nat>>)
    requires ValidQuery(q) && Solves(Packed(q), t)
    ensures Solves(Unpacked(q), NamesOf(q, t))
    ensures NamesOf(q, t)[|t| - 1].cost == t[|t| - 1].cost
  {
    TrailUnpacks(q, t);
    GoalsAgree(q, t[|t| - 1].at);
    hide ArcsOf;
    hide NameOf;
    hide Step;
  }

  lemma SolutionPacks(q: TurnQuery, names: seq<Stop<T.TurnState>>) returns (t: seq<Stop<nat>>)
    requires ValidQuery(q) && Solves(Unpacked(q), names)
    ensures Solves(Packed(q), t) && t[|t| - 1].cost == names[|names| - 1].cost
  {
    GoalsAgree(q, 0);
    var last := |names| - 1;
    t := TrailPacks(q, names, last);
    assert NamesOf(q, t)[last] == names[last];
    GoalsAgree(q, t[last].at);
    hide ArcsOf;
    hide NameOf;
    hide Step;
  }

  /** Both problems have the same minimum. */
  lemma MinimumUnpacks(q: TurnQuery, cost: real)
    requires ValidQuery(q) && IsMinimum(Packed(q), cost)
    ensures IsMinimum(Unpacked(q), cost)
  {
    hide Step;
    hide Packed;
    hide Unpacked;
    hide Readable;
    var t: seq<Stop<nat>> :| Solves(Packed(q), t) && t[|t| - 1].cost == cost;
    SolutionUnpacks(q, t);
    forall names: seq<Stop<T.TurnState>> | Solves(Unpacked(q), names)
      ensures cost <= names[|names| - 1].cost
    {
      var t' := SolutionPacks(q, names);
    }
  }

  lemma NoSolutionUnpacks(q: TurnQuery)
    requires ValidQuery(q) && !exists t: seq<Stop<nat>> :: Solves(Packed(q), t)
    ensures !exists names: seq<Stop<T.TurnState>> :: Solves(Unpacked(q), names)
  {
    hide Step;
    hide Packed;
    hide Unpacked;
    hide Readable;
    if names: seq<Stop<T.TurnState>> :| Solves(Unpacked(q), names) {
      var t := SolutionPacks(q, names);
    }
  }

  /** The named states of a path of packed states. */
  ghost function NamedPath(q: TurnQuery, states: seq<nat>): (names: seq<T.TurnState>)
    ensures |names| == |states| && forall i :: 0 <= i < |states| ==> names[i] == NameOf(q, states[i])
  {
    seq(|states|, i requires 0 <= i < |states| => NameOf(q, states[i]))
  }

  lemma PathUnpacks(q: TurnQuery, states: seq<nat>, cost: real)
    requires ValidQuery(q) && IsPath(Packed(q), states, cost)
    ensures IsPath(Unpacked(q), NamedPath(q, states), cost)
  {
    hide Step;
    hide Packed;
    hide Unpacked;
    hide Readable;
    var t: seq<Stop<nat>> :| Solves(Packed(q), t) && Visits(t, states) && t[|t| - 1].cost == cost;
    SolutionUnpacks(q, t);
    assert Visits(NamesOf(q, t), NamedPath(q, states));
  }

  // ---- The packed problem is well posed ----

  lemma AdmissiblePacks(q: TurnQuery)
    requires ValidQuery(q) && Admissible(Unpacked(q))
    ensures Admissible(Packed(q))
  {
    hide Readable;
    hide ArcsOf;
    var p := Packed(q);
    forall t: seq<Stop<nat>> | Trail(p.arcs, t) && p.goal(t[|t| - 1].at)
      ensures p.estimate(t[0].at) <= t[|t| - 1].cost
    {
      TrailUnpacks(q, t);
      GoalsAgree(q, t[|t| - 1].at);
      var names := NamesOf(q, t);
      assert Unpacked(q).estimate(names[0].at) == p.estimate(t[0].at);
    }
  }

  lemma ArcStays(q: TurnQuery, s: nat, a: Arc<nat>)
    requires ValidQuery(q) && NonNegative(Unpacked(q).arcs) && a in ArcsOf(q, s)
    ensures a.cost >= 0.0 && a.to in Packed(q).universe
  {
    StepUnpacks(q, s, a);
    var e := ArcIsEdge(q, s, a);
    hide ArcsOf;
    hide Readable;
    ArcsAgree(q, s, e);
  }

  lemma PackedIsWellPosed(q: TurnQuery)
    requires ValidQuery(q) && WellPosed(Unpacked(q)) && forall id :: q.estimate(id) >= 0.0
    ensures WellPosed(Packed(q))
  {
    hide Admissible;
    hide ArcsOf;
    hide Readable;
    hide NameOf;
    var p := Packed(q);
    AdmissiblePacks(q);
    forall s: nat, a | a in p.arcs(s)
      ensures a.cost >= 0.0 && a.to in p.universe
    {
      ArcStays(q, s, a);
    }
  }

  /** Every state a search can label names two nodes of the store, or the sentinel and one. */
  lemma UniverseKnown(q: TurnQuery, s: nat)
    requires ValidQuery(q) && s in Packed(q).universe
    ensures Known(q, s)
  {}
}
