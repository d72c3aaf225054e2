/** The query estimate drawn from landmarks and the great circle never exceeds what is left to pay
    (`queryHeuristic`, `estimateIndex` in core/router_landmarks.go, `newRouteHeuristic` in core/router.go). */
module LandmarkEstimates {
  import opened Common
  import opened RouteCosts
  import opened GraphStore
  import opened AttributeCosts
  import opened SearchTheory
  import opened Landmarks
  import IndexSearch

  // ---- The two metrics ----

  /** Metres, or seconds at the speed an unrestricted vehicle is assumed to reach. */
  function MetricLength(d: Store, f64: Float64, timed: bool, e: EdgeRec): real {
    if !timed then f64(e.distance)
    else if e.attribute < |d.attributes|
      then f64(e.distance) * 3.6 / FreeFlowSpeed(f64(d.attributes[e.attribute].speed))
    else 0.0
  }

  function MetricArc(d: Store, f64: Float64, timed: bool): EdgeRec -> Arc<nat> {
    (e: EdgeRec) => Arc(e.target, MetricLength(d, f64, timed, e))
  }

  /** The whole directed graph under a metric, whatever a vehicle may use. */
  function MetricArcs(d: Store, f64: Float64, timed: bool): Arcs
    requires Readable(d)
  {
    (i: nat) => if i < |d.nodes| then UsableArcs(CompactEdges(d, i), _ => true, MetricArc(d, f64, timed)) else []
  }

  function Times(k: real, x: real): real {
    k * x
  }

  lemma TimesAdds(k: real, x: real, y: real)
    ensures Times(k, x + y) == Times(k, x) + Times(k, y)
  {}

  lemma TimesGrows(k: real, x: real, y: real)
    requires k >= 0.0 && x <= y
    ensures Times(k, x) <= Times(k, y)
  {}

  lemma QuotientFalls(x: real, a: real, b: real)
    requires x >= 0.0 && 0.0 < a <= b
    ensures x / b <= x / a
  {
    var p, q := x / a, x / b;
    assert p * a == x && q * b == x;
    assert q >= 0.0;
    if q > p {
      ScaleStrict(p, q, a);
      ScaleOrder(a, b, q);
    }
  }

  /** The price per metre no query edge undercuts. */
  function PerMetre(o: Options): real
    requires o.weights.maxSpeed > 0.0
  {
    match o.objective
    case Duration => 3.6 / o.weights.maxSpeed
    case Economy => 0.001
    case _ => 1.0
  }

  lemma PerMetrePositive(o: Options)
    requires o.weights.maxSpeed > 0.0
    ensures PerMetre(o) >= 0.0
  {
    QuotientNonNegative(3.6, o.weights.maxSpeed);
  }

  lemma LengthUndercuts(o: Options, a: Attributes, dist: real)
    requires dist >= 0.0 && o.weights.maxSpeed >= 3.0 && !o.emergency
    ensures Times(PerMetre(o), dist) <= BaseCost(o, a, dist)
  {
    var v, m := EffectiveSpeed(o, a.speed), o.weights.maxSpeed;
    if o.objective == Duration {
      QuotientFalls(dist * 3.6, v, m);
      assert Times(3.6 / m, dist) == dist * 3.6 / m by {
        assert (3.6 / m) * m == 3.6;
        var q := dist * 3.6 / m;
        assert q * m == dist * 3.6;
      }
    } else if o.objective == Economy {
      ProductNonNegative(dist / 1000.0, 0.7 * Square(v / 100.0));
      assert dist / 1000.0 * (1.0 + 0.7 * Square(v / 100.0))
        == dist / 1000.0 + dist / 1000.0 * (0.7 * Square(v / 100.0));
    }
  }

  lemma FreeFlowUndercuts(o: Options, a: Attributes, dist: real)
    requires dist >= 0.0 && o.objective == Duration && !o.emergency
    ensures dist * 3.6 / FreeFlowSpeed(a.speed) <= BaseCost(o, a, dist)
  {
    QuotientFalls(dist * 3.6, EffectiveSpeed(o, a.speed), FreeFlowSpeed(a.speed));
  }

  // ---- From query walks to metric walks ----

  /** Scaled by `k`, the metric is at most the query cost of every usable edge. */
  ghost predicate Undercuts(d: Store, f64: Float64, o: Options, timed: bool, k: real)
    requires Readable(d)
  {
    forall i, e :: 0 <= i < |d.nodes| && e in CompactEdges(d, i) && IndexSearch.InRange(d, e) ==>
      Times(k, MetricLength(d, f64, timed, e)) <= BaseCost(o, AttributesOf(d, f64, e.attribute), f64(e.distance))
  }

  ghost function QueryArcs(d: Store, f64: Float64, o: Options): Arcs
    requires Readable(d)
  {
    (i: nat) => IndexSearch.ArcsOf(d, f64, o, i)
  }

  /** Every arc a query may take exists in the metric graph at no more than its cost. */
  lemma MetricStep(d: Store, f64: Float64, o: Options, timed: bool, k: real, at: nat, a: Arc<nat>) returns (m: Arc<nat>)
    requires Readable(d) && Undercuts(d, f64, o, timed, k) && a in IndexSearch.ArcsOf(d, f64, o, at)
    ensures m in MetricArcs(d, f64, timed)(at) && m.to == a.to && Times(k, m.cost) <= a.cost
  {
    var e := IndexSearch.ArcIsEdge(d, f64, o, at, a);
    m := MetricArc(d, f64, timed)(e);
    UsableArcsComplete(CompactEdges(d, at), _ => true, MetricArc(d, f64, timed), e);
  }

  /** A walk whose steps cost at least what the query charges for some edge of that step: a walk of the
      query, with or without non-negative turn penalties on top. */
  ghost predicate Charged(arcs: Arcs, t: seq<Stop<nat>>) {
    && |t| > 0 && t[0].cost >= 0.0
    && forall i :: 0 <= i < |t| - 1 ==> ChargedStep(arcs, t[i], t[i + 1])
  }

  ghost predicate ChargedStep(arcs: Arcs, a: Stop<nat>, b: Stop<nat>) {
    exists e :: e in arcs(a.at) && e.to == b.at && a.cost + e.cost <= b.cost
  }

  lemma TrailIsCharged(arcs: Arcs, t: seq<Stop<nat>>)
    requires Trail(arcs, t)
    ensures Charged(arcs, t)
  {
    forall i | 0 <= i < |t| - 1
      ensures ChargedStep(arcs, t[i], t[i + 1])
    {
      assert Step(arcs, t[i], t[i + 1]);
      assert Arc(t[i + 1].at, t[i + 1].cost - t[i].cost) in arcs(t[i].at);
    }
  }

  /** The same nodes, walked under the metric. */
  lemma {:induction false} MetricWalk(d: Store, f64: Float64, o: Options, timed: bool, k: real, t: seq<Stop<nat>>)
    returns (u: seq<Stop<nat>>)
    requires Readable(d) && Undercuts(d, f64, o, timed, k) && k >= 0.0
    requires Charged(QueryArcs(d, f64, o), t)
    ensures WalkBetween(MetricArcs(d, f64, timed), t[0].at, t[|t| - 1].at, u)
    ensures Times(k, u[|u| - 1].cost) <= t[|t| - 1].cost
  {
    hide Undercuts;
    hide IndexSearch.ArcsOf;
    hide MetricArcs;
    if |t| == 1 {
      u := [Stop(t[0].at, 0.0)];
    } else {
      var n := |t| - 1;
      var init := MetricWalk(d, f64, o, timed, k, t[..n]);
      assert ChargedStep(QueryArcs(d, f64, o), t[n - 1], t[n]);
      var e :| e in QueryArcs(d, f64, o)(t[n - 1].at) && e.to == t[n].at && t[n - 1].cost + e.cost <= t[n].cost;
      var m := MetricStep(d, f64, o, timed, k, t[n - 1].at, e);
      u := init + [Stop(t[n].at, init[|init| - 1].cost + m.cost)];
      TrailExtends(MetricArcs(d, f64, timed), init, m);
      TimesAdds(k, init[|init| - 1].cost, m.cost);
    }
  }

  lemma MetricNonNegative(d: Store, f64: Float64, timed: bool)
    requires Readable(d) && IndexSearch.NonNegativeLengths(d, f64)
    ensures NonNegative(MetricArcs(d, f64, timed))
  {
    hide MetricLength;
    hide Readable;
    forall i: nat, a | a in MetricArcs(d, f64, timed)(i)
      ensures a.cost >= 0.0
    {
      UsableArcsMembers(CompactEdges(d, i), _ => true, MetricArc(d, f64, timed), a);
      var e :| e in CompactEdges(d, i) && a == MetricArc(d, f64, timed)(e);
      LengthNonNegative(d, f64, timed, e);
    }
  }

  lemma LengthNonNegative(d: Store, f64: Float64, timed: bool, e: EdgeRec)
    requires f64(e.distance) >= 0.0
    ensures MetricLength(d, f64, timed, e) >= 0.0
  {
    if timed && e.attribute < |d.attributes| {
      QuotientNonNegative(f64(e.distance) * 3.6, FreeFlowSpeed(f64(d.attributes[e.attribute].speed)));
    }
  }

  lemma WalkNonNegative(arcs: Arcs, a: nat, b: nat, t: seq<Stop<nat>>)
    requires NonNegative(arcs) && WalkBetween(arcs, a, b, t)
    ensures t[|t| - 1].cost >= 0.0
  {
    CostsRise(Problem(arcs, a, _ => false, _ => 0.0, {}), t);
  }

  // ---- The estimate ----

  /** Two tables measured in metres, then two in seconds. */
  datatype Index = Index(tables: seq<Table>)

  const LANDMARK_COUNT: nat := 4

  ghost predicate IndexFor(d: Store, f64: Float64, x: Index)
    requires Readable(d)
  {
    && |x.tables| == LANDMARK_COUNT
    && forall i :: 0 <= i < LANDMARK_COUNT ==> LandmarkTable(d, f64, i >= 2, x.tables[i])
  }

  ghost predicate LandmarkTable(d: Store, f64: Float64, timed: bool, t: Table)
    requires Readable(d)
  {
    exists landmark: nat :: landmark < |d.nodes| && TableOf(MetricArcs(d, f64, timed), |d.nodes|, landmark, t)
  }

  predicate TablesCover(x: Index, n: nat) {
    |x.tables| == LANDMARK_COUNT && forall i :: 0 <= i < LANDMARK_COUNT ==> |x.tables[i].from| == |x.tables[i].to| == n
  }

  /** The best bound of one table on top of another bound. */
  function Raised(lower: real, t: Table, node: nat, target: nat): real
    requires node < |t.from| == |t.to| && target < |t.from|
  {
    Max(Max(lower, FromBound(t, node, target)), ToBound(t, node, target))
  }

  /** The best bound of the tables `first` and `first + 1`. */
  function Lower(x: Index, n: nat, first: nat, node: nat, target: nat): real
    requires TablesCover(x, n) && first <= 2 && node < n && target < n
  {
    Raised(Raised(0.0, x.tables[first], node, target), x.tables[first + 1], node, target)
  }

  predicate Disabled(o: Options) {
    o.engine == Dijkstra || o.engine == DijkstraNode || o.emergency
  }

  predicate UsesLandmarks(o: Options, x: Option<Index>) {
    var w := o.weights;
    && !Disabled(o) && o.objective != Economy && x.Some?
    && w.leftTurn >= 0.0 && w.rightTurn >= 0.0 && w.uTurn >= 0.0 && w.crossing >= 0.0 && w.trafficLight >= 0.0
  }

  /** From the great-circle distance to the target. */
  function EstimateCoordinate(o: Options, great: real): real
    requires o.weights.maxSpeed > 0.0
  {
    if Disabled(o) then 0.0 else
      match o.objective
      case Duration => great * 3.6 / o.weights.maxSpeed
      case Economy => great / 1000.0
      case _ => great
  }

  function LandmarkBound(o: Options, x: Index, n: nat, node: nat, target: nat): real
    requires o.weights.maxSpeed > 0.0 && TablesCover(x, n) && node < n && target < n
  {
    Max(Times(PerMetre(o), Lower(x, n, 0, node, target)), if o.objective == Duration then Lower(x, n, 2, node, target)
      else 0.0)
  }

  /** The estimate of a node; `great` is its great-circle distance to the target. */
  function Estimate(o: Options, x: Option<Index>, n: nat, great: real, node: nat, target: nat): real
    requires o.weights.maxSpeed > 0.0 && (x.Some? ==> TablesCover(x.value, n))
  {
    if Disabled(o) || node >= n || target >= n then 0.0
    else if !UsesLandmarks(o, x) then EstimateCoordinate(o, great)
    else Max(EstimateCoordinate(o, great), LandmarkBound(o, x.value, n, node, target))
  }

  /** The loop over the tables; when the bound already exceeds a cheap upper bound of the coordinate
      estimate, that estimate is not computed. */
  method EstimateIndex(o: Options, x: Index, n: nat, great: real, upper: real, node: nat, target: nat) returns (r: real)
    requires o.weights.maxSpeed > 0.0 && TablesCover(x, n) && node < n && target < n && UsesLandmarks(o, Some(x))
    requires EstimateCoordinate(o, great) <= upper
    ensures r == Estimate(o, Some(x), n, great, node, target)
  {
    hide FromBound;
    hide ToBound;
    hide Times;
    var metres, seconds := 0.0, 0.0;
    var count := if o.objective == Duration then LANDMARK_COUNT else LANDMARK_COUNT / 2;
    for i := 0 to count
      invariant metres == if i == 0 then 0.0 else if i == 1 then Raised(0.0, x.tables[0], node, target)
        else Lower(x, n, 0, node, target)
      invariant seconds == if i <= 2 then 0.0 else if i == 3 then Raised(0.0, x.tables[2], node, target)
        else Lower(x, n, 2, node, target)
    {
      if i < LANDMARK_COUNT / 2 {
        metres := Raised(metres, x.tables[i], node, target);
      } else {
        seconds := Raised(seconds, x.tables[i], node, target);
      }
    }
    var bound := Max(Times(PerMetre(o), metres), seconds);
    if bound > upper {
      return bound;
    }
    r := Max(EstimateCoordinate(o, great), bound);
  }

  // ---- Admissibility ----

  /** The great circle is no longer than any walk along the roads. */
  ghost predicate GreatCircleLower(d: Store, f64: Float64, great: nat -> real, target: nat)
    requires Readable(d)
  {
    && (forall i :: great(i) >= 0.0)
    && forall i: nat, t: seq<Stop<nat>> :: WalkBetween(MetricArcs(d, f64, false), i, target, t) ==>
      great(i) <= t[|t| - 1].cost
  }

  lemma LowerHolds(d: Store, f64: Float64, x: Index, first: nat, node: nat, target: nat, w: seq<Stop<nat>>)
    requires Readable(d) && IndexFor(d, f64, x) && TablesCover(x, |d.nodes|) && (first == 0 || first == 2)
    requires node < |d.nodes| && target < |d.nodes|
    requires WalkBetween(MetricArcs(d, f64, first == 2), node, target, w) && w[|w| - 1].cost >= 0.0
    ensures Lower(x, |d.nodes|, first, node, target) <= w[|w| - 1].cost
  {
    hide *;
    TablesOf(x, |d.nodes|, first, node, target);
    var a := LandmarkOf(d, f64, x, first);
    var b := LandmarkOf(d, f64, x, first + 1);
    var n, arcs := |d.nodes|, MetricArcs(d, f64, first == 2);
    WalkNotEmpty(arcs, node, target, w);
    RaisedHolds(arcs, n, a, x.tables[first], 0.0, node, target, w);
    RaisedHolds(arcs, n, b, x.tables[first + 1], Raised(0.0, x.tables[first], node, target), node, target, w);
  }

  lemma WalkNotEmpty(arcs: Arcs, a: nat, b: nat, w: seq<Stop<nat>>)
    requires WalkBetween(arcs, a, b, w)
    ensures |w| > 0
  {}

  lemma TablesOf(x: Index, n: nat, first: nat, node: nat, target: nat)
    requires TablesCover(x, n) && first <= 2 && node < n && target < n
    ensures |x.tables| == 4
    ensures |x.tables[first].from| == |x.tables[first].to| == n == |x.tables[first + 1].from|
      == |x.tables[first + 1].to|
    ensures Lower(x, n, first, node, target)
      == Raised(Raised(0.0, x.tables[first], node, target), x.tables[first + 1], node, target)
  {}

  lemma LandmarkOf(d: Store, f64: Float64, x: Index, i: nat) returns (landmark: nat)
    requires Readable(d) && IndexFor(d, f64, x) && i < 4
    ensures |x.tables| == 4 && landmark < |d.nodes|
    ensures TableOf(MetricArcs(d, f64, i >= 2), |d.nodes|, landmark, x.tables[i])
  {
    assert LandmarkTable(d, f64, i >= 2, x.tables[i]);
    hide TableOf;
    hide Readable;
    landmark :| landmark < |d.nodes| && TableOf(MetricArcs(d, f64, i >= 2), |d.nodes|, landmark, x.tables[i]);
  }

  lemma RaisedHolds(arcs: Arcs, n: nat, landmark: nat, t: Table, lower: real, node: nat, target: nat, w: seq<Stop<nat>>)
    requires TableOf(arcs, n, landmark, t) && |t.from| == |t.to| == n && node < n && target < n
    requires WalkBetween(arcs, node, target, w) && w[|w| - 1].cost >= 0.0 && lower <= w[|w| - 1].cost
    ensures Raised(lower, t, node, target) <= w[|w| - 1].cost
  {
    hide TableOf;
    hide FromBound;
    hide ToBound;
    hide WalkBetween;
    FromBoundHolds(arcs, n, landmark, t, node, target, w);
    ToBoundHolds(arcs, n, landmark, t, node, target, w);
  }

  lemma LengthsUndercut(d: Store, f64: Float64, o: Options)
    requires Readable(d) && IndexSearch.NonNegativeLengths(d, f64) && o.weights.maxSpeed >= 3.0 && !o.emergency
    ensures Undercuts(d, f64, o, false, PerMetre(o))
    ensures o.objective == Duration ==> Undercuts(d, f64, o, true, 1.0)
  {
    hide BaseCost;
    hide MetricLength;
    hide Times;
    hide Readable;
    hide CompactEdges;
    forall i, e | 0 <= i < |d.nodes| && e in CompactEdges(d, i) && IndexSearch.InRange(d, e)
      ensures Times(PerMetre(o), MetricLength(d, f64, false, e)) <= BaseCost(o, AttributesOf(d, f64, e.attribute),
        f64(e.distance))
      ensures o.objective == Duration ==>
        Times(1.0, MetricLength(d, f64, true, e)) <= BaseCost(o, AttributesOf(d, f64, e.attribute), f64(e.distance))
    {
      EdgeUndercuts(d, f64, o, e);
    }
  }

  lemma EdgeUndercuts(d: Store, f64: Float64, o: Options, e: EdgeRec)
    requires IndexSearch.InRange(d, e) && f64(e.distance) >= 0.0 && o.weights.maxSpeed >= 3.0 && !o.emergency
    ensures Times(PerMetre(o), MetricLength(d, f64, false, e)) <= BaseCost(o, AttributesOf(d, f64, e.attribute),
      f64(e.distance))
    ensures o.objective == Duration ==>
      Times(1.0, MetricLength(d, f64, true, e)) <= BaseCost(o, AttributesOf(d, f64, e.attribute), f64(e.distance))
  {
    LengthUndercuts(o, AttributesOf(d, f64, e.attribute), f64(e.distance));
    if o.objective == Duration {
      FreeFlowUndercuts(o, AttributesOf(d, f64, e.attribute), f64(e.distance));
    }
  }

  lemma CoordinateIsScaled(o: Options, great: real)
    requires o.weights.maxSpeed > 0.0 && great >= 0.0
    ensures EstimateCoordinate(o, great) >= 0.0
    ensures !Disabled(o) ==> EstimateCoordinate(o, great) == Times(PerMetre(o), great)
  {
    var m := o.weights.maxSpeed;
    if !Disabled(o) && o.objective == Duration {
      QuotientNonNegative(great * 3.6, m);
      assert (3.6 / m) * m == 3.6;
      var q := great * 3.6 / m;
      assert q * m == great * 3.6;
    }
  }

  /** The estimate never exceeds the cost of a walk to the target, for any profile, speed cap, vehicle
      limits and non-negative turn penalties. */
  lemma EstimateUndercutsWalk(d: Store, f64: Float64, o: Options, x: Option<Index>, great: nat -> real, target: nat,
      t: seq<Stop<nat>>)
    requires Readable(d) && IndexSearch.NonNegativeLengths(d, f64) && o.weights.maxSpeed >= 3.0
    requires x.Some? ==> IndexFor(d, f64, x.value) && TablesCover(x.value, |d.nodes|)
    requires GreatCircleLower(d, f64, great, target)
    requires Charged(QueryArcs(d, f64, o), t) && t[|t| - 1].at == target && t[|t| - 1].cost >= 0.0
    ensures Estimate(o, x, |d.nodes|, great(t[0].at), t[0].at, target) <= t[|t| - 1].cost
  {
    var node, cost, k := t[0].at, t[|t| - 1].cost, PerMetre(o);
    if !Disabled(o) {
      PerMetrePositive(o);
      LengthsUndercut(d, f64, o);
      var u := MetricWalk(d, f64, o, false, k, t);
      var length := u[|u| - 1].cost;
      CoordinateIsScaled(o, great(node));
      assert great(node) <= length;
      TimesGrows(k, great(node), length);
      if UsesLandmarks(o, x) && node < |d.nodes| && target < |d.nodes| {
        LandmarksUndercut(d, f64, o, x.value, target, t, u);
      }
    }
  }

  lemma LandmarksUndercut(d: Store, f64: Float64, o: Options, x: Index, target: nat, t: seq<Stop<nat>>,
      u: seq<Stop<nat>>)
    requires Readable(d) && IndexSearch.NonNegativeLengths(d, f64) && o.weights.maxSpeed >= 3.0 && !Disabled(o)
    requires IndexFor(d, f64, x) && TablesCover(x, |d.nodes|)
    requires Charged(QueryArcs(d, f64, o), t) && t[|t| - 1].at == target && t[|t| - 1].cost >= 0.0
    requires t[0].at < |d.nodes| && target < |d.nodes|
    requires WalkBetween(MetricArcs(d, f64, false), t[0].at, target, u)
    requires Times(PerMetre(o), u[|u| - 1].cost) <= t[|t| - 1].cost
    ensures LandmarkBound(o, x, |d.nodes|, t[0].at, target) <= t[|t| - 1].cost
  {
    var node := t[0].at;
    PerMetrePositive(o);
    LengthsUndercut(d, f64, o);
    MetricNonNegative(d, f64, false);
    MetricNonNegative(d, f64, true);
    hide Readable;
    hide IndexSearch.NonNegativeLengths;
    hide Undercuts;
    hide MetricArcs;
    hide Lower;
    hide IndexFor;
    hide TablesCover;
    WalkNonNegative(MetricArcs(d, f64, false), node, target, u);
    LowerHolds(d, f64, x, 0, node, target, u);
    TimesGrows(PerMetre(o), Lower(x, |d.nodes|, 0, node, target), u[|u| - 1].cost);
    if o.objective == Duration {
      var v := MetricWalk(d, f64, o, true, 1.0, t);
      WalkNonNegative(MetricArcs(d, f64, true), node, target, v);
      LowerHolds(d, f64, x, 2, node, target, v);
    }
  }

  lemma EstimateNonNegative(o: Options, x: Option<Index>, n: nat, great: real, node: nat, target: nat)
    requires o.weights.maxSpeed > 0.0 && (x.Some? ==> TablesCover(x.value, n)) && great >= 0.0
    ensures Estimate(o, x, n, great, node, target) >= 0.0
  {
    CoordinateIsScaled(o, great);
  }

  function EstimateOf(d: Store, o: Options, x: Option<Index>, great: nat -> real, target: nat): nat -> real
    requires o.weights.maxSpeed > 0.0 && (x.Some? ==> TablesCover(x.value, |d.nodes|))
  {
    (i: nat) => Estimate(o, x, |d.nodes|, great(i), i, target)
  }

  lemma WalkCostNonNegative(d: Store, f64: Float64, o: Options, t: seq<Stop<nat>>)
    requires Readable(d) && IndexSearch.NonNegativeLengths(d, f64) && Trail(QueryArcs(d, f64, o), t)
    ensures t[|t| - 1].cost >= 0.0
  {
    forall i: nat, a | a in QueryArcs(d, f64, o)(i)
      ensures a.cost >= 0.0
    {
      var e := IndexSearch.ArcIsEdge(d, f64, o, i, a);
      BaseCostNonNegative(o, AttributesOf(d, f64, e.attribute), f64(e.distance));
    }
    WalkNonNegative(QueryArcs(d, f64, o), t[0].at, t[|t| - 1].at, t);
  }

  /** The landmark estimate is admissible for the turn-free search on the compact store. */
  lemma EstimateIsAdmissible(d: Store, f64: Float64, o: Options, x: Option<Index>, great: nat -> real, from: nat,
      target: nat)
    requires Readable(d) && IndexSearch.NonNegativeLengths(d, f64) && o.weights.maxSpeed >= 3.0
    requires x.Some? ==> IndexFor(d, f64, x.value) && TablesCover(x.value, |d.nodes|)
    requires GreatCircleLower(d, f64, great, target)
    ensures Admissible(IndexSearch.QueryProblem(d, f64, o, from, target, EstimateOf(d, o, x, great, target)))
  {
    var p := IndexSearch.QueryProblem(d, f64, o, from, target, EstimateOf(d, o, x, great, target));
    forall t: seq<Stop<nat>> | Trail(p.arcs, t) && p.goal(t[|t| - 1].at)
      ensures p.estimate(t[0].at) <= t[|t| - 1].cost
    {
      SameArcs(d, f64, o, p.arcs, t);
      TrailIsCharged(QueryArcs(d, f64, o), t);
      WalkCostNonNegative(d, f64, o, t);
      EstimateUndercutsWalk(d, f64, o, x, great, target, t);
    }
  }

  lemma SameArcs(d: Store, f64: Float64, o: Options, arcs: Arcs, t: seq<Stop<nat>>)
    requires Readable(d) && Trail(arcs, t) && forall i: nat :: arcs(i) == IndexSearch.ArcsOf(d, f64, o, i)
    ensures Trail(QueryArcs(d, f64, o), t)
  {
    hide IndexSearch.ArcsOf;
    forall i | 0 <= i < |t| - 1
      ensures Step(QueryArcs(d, f64, o), t[i], t[i + 1])
    {
      assert Step(arcs, t[i], t[i + 1]);
    }
  }
}
