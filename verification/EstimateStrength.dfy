/** How much of the true distance the landmark estimate keeps: besides never exceeding it (`LandmarkEstimates`), it
    falls short of what exact distances would give by two quantisation steps at most
    (`queryHeuristic`, `estimateIndex` in core/router_landmarks.go). */
module EstimateStrength {
  import opened Common
  import opened RouteCosts
  import opened GraphStore
  import opened AttributeCosts
  import Q = SearchTheory
  import opened Landmarks
  import opened LandmarkEstimates

  /** The timed metric is the distance over the posted speed, at least 3, or 50 where none is posted. */
  lemma TimedMetricMeans(d: Store, f64: Float64, e: EdgeRec)
    requires e.attribute < |d.attributes|
    ensures var posted := f64(d.attributes[e.attribute].speed);
      && (posted >= 3.0 ==> MetricLength(d, f64, true, e) * posted == f64(e.distance) * 3.6)
      && (0.0 < posted < 3.0 ==> MetricLength(d, f64, true, e) * 3.0 == f64(e.distance) * 3.6)
      && (posted <= 0.0 ==> MetricLength(d, f64, true, e) * 50.0 == f64(e.distance) * 3.6)
  {
    var (x, v) := (f64(e.distance) * 3.6, FreeFlowSpeed(f64(d.attributes[e.attribute].speed)));
    assert x / v * v == x;
  }

  /** Under the plain metric an arc is as long as its edge, under the timed one it takes the seconds above; nothing but
      the edges of the store is in the metric graph, whatever a vehicle may use. */
  lemma MetricMeans(d: Store, f64: Float64, timed: bool, i: nat, a: Q.Arc<nat>)
    requires Readable(d)
    ensures a in MetricArcs(d, f64, timed)(i) <==>
      && i < |d.nodes|
      && exists e :: e in CompactEdges(d, i) && a.to == e.target
           && a.cost == if timed then MetricLength(d, f64, true, e) else f64(e.distance)
  {
    if i < |d.nodes| {
      var es := CompactEdges(d, i);
      if a in MetricArcs(d, f64, timed)(i) {
        Q.UsableArcsMembers(es, _ => true, MetricArc(d, f64, timed), a);
      }
      if e :| e in es && a == MetricArc(d, f64, timed)(e) {
        Q.UsableArcsComplete(es, _ => true, MetricArc(d, f64, timed), e);
      }
    }
  }

  lemma OneMoreStep(code: nat, step: real)
    ensures Scaled(code + 1, step) == Scaled(code, step) + step
  {}

  /** A finite distance has a code at most one step below it. */
  lemma CodeIsClose(arcs: Arcs, a: nat, b: nat, code: nat, step: real, dist: real)
    requires Coded(arcs, a, b, code, step) && IsDistance(arcs, a, b, Fin(dist))
    ensures code != INFINITY_CODE && dist - step < Scaled(code, step) <= dist
  {
    var x := CodedDistance(arcs, a, b, code, step);
    SameDistance(arcs, a, b, x, Fin(dist));
    OneMoreStep(code, step);
    hide Scaled;
    hide IsDistance;
  }

  lemma SameDistance(arcs: Arcs, a: nat, b: nat, x: Ext, y: Ext)
    requires IsDistance(arcs, a, b, x) && IsDistance(arcs, a, b, y)
    ensures x == y
  {
    hide WalkBetween;
  }

  /** From a landmark, the bound keeps all but two steps of how much farther the target is than the node. */
  lemma FromBoundIsClose(arcs: Arcs, n: nat, landmark: nat, t: Table, node: nat, target: nat, near: real, far: real)
    requires TableOf(arcs, n, landmark, t) && node < n && target < n
    requires IsDistance(arcs, landmark, node, Fin(near)) && IsDistance(arcs, landmark, target, Fin(far))
    ensures FromBound(t, node, target) > far - near - 2.0 * t.fromStep
  {
    hide IsDistance;
    hide Scaled;
    hide Gap;
    CodeIsClose(arcs, landmark, node, t.from[node], t.fromStep, near);
    CodeIsClose(arcs, landmark, target, t.from[target], t.fromStep, far);
    ScaledGap(t.from[target], t.from[node], t.fromStep);
    OneMoreStep(t.from[node], t.fromStep);
  }

  /** The same for distances to a landmark. */
  lemma ToBoundIsClose(arcs: Arcs, n: nat, landmark: nat, t: Table, node: nat, target: nat, far: real, near: real)
    requires TableOf(arcs, n, landmark, t) && node < n && target < n
    requires IsDistance(arcs, node, landmark, Fin(far)) && IsDistance(arcs, target, landmark, Fin(near))
    ensures ToBound(t, node, target) > far - near - 2.0 * t.toStep
  {
    hide IsDistance;
    hide Scaled;
    hide Gap;
    CodeIsClose(arcs, node, landmark, t.to[node], t.toStep, far);
    CodeIsClose(arcs, target, landmark, t.to[target], t.toStep, near);
    ScaledGap(t.to[node], t.to[target], t.toStep);
    OneMoreStep(t.to[target], t.toStep);
  }

  /** Some landmark shows, within two steps, that the target is `gap` away under one metric. */
  ghost predicate Shows(d: Store, f64: Float64, x: Index, i: nat, landmark: nat, node: nat, target: nat, gap: real)
    requires Readable(d) && |x.tables| == 4 && i < 4
  {
    var arcs := MetricArcs(d, f64, i >= 2);
    && landmark < |d.nodes| && TableOf(arcs, |d.nodes|, landmark, x.tables[i])
    && exists near: real, far: real ::
         || (IsDistance(arcs, landmark, node, Fin(near)) && IsDistance(arcs, landmark, target, Fin(far))
             && gap == far - near - 2.0 * x.tables[i].fromStep)
         || (IsDistance(arcs, node, landmark, Fin(far)) && IsDistance(arcs, target, landmark, Fin(near))
             && gap == far - near - 2.0 * x.tables[i].toStep)
  }

  lemma TableShows(d: Store, f64: Float64, x: Index, i: nat, landmark: nat, node: nat, target: nat, gap: real)
    requires Readable(d) && TablesCover(x, |d.nodes|) && i < 4 && node < |d.nodes| && target < |d.nodes|
    requires Shows(d, f64, x, i, landmark, node, target, gap)
    ensures FromBound(x.tables[i], node, target) > gap || ToBound(x.tables[i], node, target) > gap
  {
    hide TableOf;
    hide IsDistance;
    hide MetricArcs;
    hide Readable;
    hide FromBound;
    hide ToBound;
    var (arcs, n, t) := (MetricArcs(d, f64, i >= 2), |d.nodes|, x.tables[i]);
    var near: real, far: real :|
      || (IsDistance(arcs, landmark, node, Fin(near)) && IsDistance(arcs, landmark, target, Fin(far))
          && gap == far - near - 2.0 * t.fromStep)
      || (IsDistance(arcs, node, landmark, Fin(far)) && IsDistance(arcs, target, landmark, Fin(near))
          && gap == far - near - 2.0 * t.toStep);
    if IsDistance(arcs, landmark, node, Fin(near)) && IsDistance(arcs, landmark, target, Fin(far))
      && gap == far - near - 2.0 * t.fromStep {
      FromBoundIsClose(arcs, n, landmark, t, node, target, near, far);
    } else {
      ToBoundIsClose(arcs, n, landmark, t, node, target, far, near);
    }
  }

  lemma BoundIsUsed(o: Options, x: Index, n: nat, i: nat, node: nat, target: nat, b: real)
    requires o.weights.maxSpeed > 0.0 && TablesCover(x, n) && i < 4 && node < n && target < n
    requires b == FromBound(x.tables[i], node, target) || b == ToBound(x.tables[i], node, target)
    ensures i < 2 ==> LandmarkBound(o, x, n, node, target) >= Times(PerMetre(o), b)
    ensures i >= 2 && o.objective == Duration ==> LandmarkBound(o, x, n, node, target) >= b
  {
    hide FromBound;
    hide ToBound;
    hide Times;
    PerMetrePositive(o);
    assert b <= Lower(x, n, if i < 2 then 0 else 2, node, target);
    if i < 2 {
      TimesGrows(PerMetre(o), b, Lower(x, n, 0, node, target));
    }
  }

  lemma DurationScales(o: Options, a: real, b: real)
    requires o.weights.maxSpeed > 0.0 && o.objective == Duration && a >= Times(PerMetre(o), b)
    ensures a * o.weights.maxSpeed >= b * 3.6
  {
    var m := o.weights.maxSpeed;
    assert 3.6 / m * m == 3.6;
    assert Times(PerMetre(o), b) * m == b * 3.6 by {
      var q := 3.6 / m;
      assert q * b * m == (q * m) * b;
    }
    assert (a - Times(PerMetre(o), b)) * m >= 0.0;
  }

  lemma BoundReaches(o: Options, x: Index, n: nat, great: real, node: nat, target: nat)
    requires o.weights.maxSpeed > 0.0 && TablesCover(x, n) && node < n && target < n && UsesLandmarks(o, Some(x))
    ensures Estimate(o, Some(x), n, great, node, target) >= LandmarkBound(o, x, n, node, target)
    ensures o.objective != Economy
  {
    hide LandmarkBound;
    hide EstimateCoordinate;
  }

  /** The better of the bounds of one table. */
  function BestBound(t: Table, node: nat, target: nat): real
    requires node < |t.from| == |t.to| && target < |t.from|
  {
    Max(FromBound(t, node, target), ToBound(t, node, target))
  }

  lemma MetresCount(o: Options, e: real, b: real, gap: real)
    requires o.weights.maxSpeed > 0.0 && o.objective != Economy && b > gap && e >= Times(PerMetre(o), b)
    ensures if o.objective == Duration then e * o.weights.maxSpeed >= gap * 3.6 else e > gap
  {
    if o.objective == Duration {
      DurationScales(o, e, b);
    }
  }

  lemma Used(o: Options, x: Index)
    requires o.engine == AStar && !o.emergency && o.objective != Economy
    requires o.weights.leftTurn >= 0.0 && o.weights.rightTurn >= 0.0 && o.weights.uTurn >= 0.0
    requires o.weights.crossing >= 0.0 && o.weights.trafficLight >= 0.0
    ensures UsesLandmarks(o, Some(x))
  {}

  lemma BoundReached(d: Store, f64: Float64, o: Options, x: Index, great: real, i: nat, landmark: nat, node: nat,
      target: nat, gap: real) returns (b: real)
    requires Readable(d) && TablesCover(x, |d.nodes|) && i < 4 && node < |d.nodes| && target < |d.nodes|
    requires o.weights.maxSpeed > 0.0 && UsesLandmarks(o, Some(x))
    requires Shows(d, f64, x, i, landmark, node, target, gap)
    ensures b > gap && o.objective != Economy
    ensures i < 2 ==> Estimate(o, Some(x), |d.nodes|, great, node, target) >= Times(PerMetre(o), b)
    ensures i >= 2 && o.objective == Duration ==> Estimate(o, Some(x), |d.nodes|, great, node, target) >= b
  {
    hide Shows;
    hide Readable;
    hide FromBound;
    hide ToBound;
    hide LandmarkBound;
    hide UsesLandmarks;
    hide Estimate;
    hide Times;
    hide PerMetre;
    b := BestBound(x.tables[i], node, target);
    TableShows(d, f64, x, i, landmark, node, target, gap);
    BoundIsUsed(o, x, |d.nodes|, i, node, target, b);
    BoundReaches(o, x, |d.nodes|, great, node, target);
  }

  /** Whatever a landmark shows, within two steps, reaches the estimate: as seconds at the speed cap under the
      distance metric, as they are under the timed one. */
  lemma LandmarksReachEstimate(d: Store, f64: Float64, o: Options, x: Index, great: real, i: nat, landmark: nat,
      node: nat, target: nat, gap: real)
    requires Readable(d) && TablesCover(x, |d.nodes|) && i < 4 && node < |d.nodes| && target < |d.nodes|
    requires o.weights.maxSpeed > 0.0 && o.engine == AStar && !o.emergency && o.objective != Economy
    requires o.weights.leftTurn >= 0.0 && o.weights.rightTurn >= 0.0 && o.weights.uTurn >= 0.0
    requires o.weights.crossing >= 0.0 && o.weights.trafficLight >= 0.0
    requires Shows(d, f64, x, i, landmark, node, target, gap)
    ensures var e := Estimate(o, Some(x), |d.nodes|, great, node, target);
      && (i < 2 && o.objective == Duration ==> e * o.weights.maxSpeed >= gap * 3.6)
      && (i >= 2 && o.objective == Duration ==> e > gap)
      && (i < 2 && o.objective != Duration ==> e > gap)
  {
    hide *;
    Used(o, x);
    var b := BoundReached(d, f64, o, x, great, i, landmark, node, target, gap);
    if i < 2 {
      MetresCount(o, Estimate(o, Some(x), |d.nodes|, great, node, target), b, gap);
    }
  }

  /** The great circle reaches the estimate too, with landmarks and without. */
  lemma CoordinateReachesEstimate(o: Options, x: Option<Index>, n: nat, great: real, node: nat, target: nat)
    requires o.weights.maxSpeed > 0.0 && (x.Some? ==> TablesCover(x.value, n)) && node < n && target < n
    requires o.engine == AStar && !o.emergency
    ensures var e := Estimate(o, x, n, great, node, target);
      && (o.objective == Duration ==> e * o.weights.maxSpeed >= great * 3.6)
      && (o.objective == Economy ==> e * 1000.0 >= great)
      && (o.objective != Duration && o.objective != Economy ==> e >= great)
  {
    hide LandmarkBound;
    var e, m := Estimate(o, x, n, great, node, target), o.weights.maxSpeed;
    assert e >= EstimateCoordinate(o, great);
    hide Estimate;
    if o.objective == Duration {
      var q := great * 3.6 / m;
      assert q * m == great * 3.6;
      assert (e - q) * m >= 0.0;
    }
  }
}
