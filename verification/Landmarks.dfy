/** Directed distances to and from landmarks as 16-bit intervals, and the lower bounds a query draws
    from them (core/router_landmarks.go). Reals are exact; the file layout and checksums are left out. */
module Landmarks {
  import opened Common
  import opened RouteCosts
  import opened SearchTheory

  // ---- Distances of a directed graph ----

  type Arcs = nat -> seq<Arc<nat>>

  ghost predicate WalkBetween(arcs: Arcs, a: nat, b: nat, t: seq<Stop<nat>>) {
    Trail(arcs, t) && t[0].at == a && t[|t| - 1].at == b
  }

  /** The least length of a walk from `a` to `b`. */
  ghost predicate IsDistance(arcs: Arcs, a: nat, b: nat, x: Ext) {
    && (forall t: seq<Stop<nat>> :: WalkBetween(arcs, a, b, t) ==> x.Fin? && x.v <= t[|t| - 1].cost)
    && (x.Fin? ==> exists t: seq<Stop<nat>> :: WalkBetween(arcs, a, b, t) && t[|t| - 1].cost == x.v)
  }

  /** One walk after another. */
  function Joined(s: seq<Stop<nat>>, t: seq<Stop<nat>>): (r: seq<Stop<nat>>)
    requires |s| > 0 && |t| > 0
    ensures |r| == |s| + |t| - 1
  {
    s + seq(|t| - 1, i requires 0 <= i < |t| - 1 => Stop(t[i + 1].at, s[|s| - 1].cost + t[i + 1].cost))
  }

  lemma WalksJoin(arcs: Arcs, a: nat, b: nat, c: nat, s: seq<Stop<nat>>, t: seq<Stop<nat>>)
    requires WalkBetween(arcs, a, b, s) && WalkBetween(arcs, b, c, t)
    ensures WalkBetween(arcs, a, c, Joined(s, t))
    ensures Joined(s, t)[|Joined(s, t)| - 1].cost == s[|s| - 1].cost + t[|t| - 1].cost
  {
    var r := Joined(s, t);
    forall i | 0 <= i < |r| - 1
      ensures Step(arcs, r[i], r[i + 1])
    {
      if i < |s| - 1 {
        assert Step(arcs, s[i], s[i + 1]);
      } else {
        var k := i - (|s| - 1);
        assert Step(arcs, t[k], t[k + 1]);
        assert r[i].at == t[k].at && r[i].cost == s[|s| - 1].cost + t[k].cost;
      }
    }
  }

  /** Going on along a walk is one way of getting to its end. */
  lemma TriangleFrom(arcs: Arcs, l: nat, n: nat, z: nat, x: Ext, y: Ext, t: seq<Stop<nat>>)
    requires IsDistance(arcs, l, n, x) && IsDistance(arcs, l, z, y) && x.Fin? && WalkBetween(arcs, n, z, t)
    ensures y.Fin? && y.v <= x.v + t[|t| - 1].cost
  {
    var s: seq<Stop<nat>> :| WalkBetween(arcs, l, n, s) && s[|s| - 1].cost == x.v;
    WalksJoin(arcs, l, n, z, s, t);
  }

  lemma TriangleTo(arcs: Arcs, l: nat, n: nat, z: nat, x: Ext, y: Ext, t: seq<Stop<nat>>)
    requires IsDistance(arcs, n, l, x) && IsDistance(arcs, z, l, y) && y.Fin? && WalkBetween(arcs, n, z, t)
    ensures x.Fin? && x.v <= t[|t| - 1].cost + y.v
  {
    var s: seq<Stop<nat>> :| WalkBetween(arcs, z, l, s) && s[|s| - 1].cost == y.v;
    WalksJoin(arcs, n, z, l, t, s);
  }

  // ---- Quantisation ----

  const INFINITY_CODE: nat := 65535

  function Doubled(step: real, k: nat): real {
    if k == 0 then step else 2.0 * Doubled(step, k - 1)
  }

  lemma FloorHalves(m: real, step: real)
    requires m >= 0.0 && step > 0.0 && m / step >= 65534.0
    ensures m / (2.0 * step) == m / step / 2.0
    ensures (m / (2.0 * step)).Floor < (m / step).Floor
  {
    var q := m / step;
    assert q * step == m;
    assert (q / 2.0) * (2.0 * step) == m;
    assert m / (2.0 * step) == q / 2.0;
  }

  /** Doubles the step until the largest distance has a code below the infinity code. */
  method ChooseStep(maxDistance: real, initial: real) returns (step: real, ghost doublings: nat)
    requires maxDistance >= 0.0 && initial > 0.0
    ensures step > 0.0 && step == Doubled(initial, doublings)
    ensures maxDistance / step < 65534.0
    ensures doublings > 0 ==> maxDistance / Doubled(initial, doublings - 1) >= 65534.0
  {
    step, doublings := initial, 0;
    while maxDistance / step >= 65534.0
      invariant step > 0.0 && step == Doubled(initial, doublings)
      invariant doublings > 0 ==> maxDistance / Doubled(initial, doublings - 1) >= 65534.0
      decreases (maxDistance / step).Floor
    {
      FloorHalves(maxDistance, step);
      step, doublings := step * 2.0, doublings + 1;
    }
  }

  function Code(x: Ext, step: real): int
    requires step > 0.0
  {
    match x case Inf => INFINITY_CODE case Fin(v) => (v / step).Floor
  }

  function Scaled(n: int, step: real): real {
    n as real * step
  }

  /** The code stands for an interval that contains the distance; no distance gets the infinity code. */
  ghost predicate Brackets(code: nat, step: real, x: Ext) {
    match x
    case Inf => code == INFINITY_CODE
    case Fin(v) => code < INFINITY_CODE && Scaled(code, step) <= v < Scaled(code + 1, step)
  }

  lemma CodeBrackets(v: real, step: real, maxDistance: real)
    requires 0.0 <= v <= maxDistance && step > 0.0 && maxDistance / step < 65534.0
    ensures Code(Fin(v), step) >= 0 && Code(Fin(v), step) <= 65533 && Brackets(Code(Fin(v), step), step, Fin(v))
  {
    var q := v / step;
    QuotientOrder(v, maxDistance, step);
    FloorScaled(q, q.Floor, step);
    assert q * step == v;
    hide Scaled;
  }

  lemma FloorScaled(q: real, c: int, step: real)
    requires c as real <= q < (c + 1) as real && step > 0.0
    ensures Scaled(c, step) <= q * step < Scaled(c + 1, step)
  {
    ScaleOrder(c as real, q, step);
    ScaleStrict(q, (c + 1) as real, step);
  }

  lemma QuotientOrder(a: real, b: real, step: real)
    requires 0.0 <= a <= b && step > 0.0
    ensures 0.0 <= a / step <= b / step
  {
    var p, q := a / step, b / step;
    assert p * step == a && q * step == b;
    if p < 0.0 {
      ScaleStrict(p, 0.0, step);
    }
    if q < p {
      ScaleStrict(q, p, step);
    }
  }

  lemma ScaleOrder(a: real, b: real, k: real)
    requires a <= b && k >= 0.0
    ensures a * k <= b * k
  {}

  lemma ScaleStrict(a: real, b: real, k: real)
    requires a < b && k > 0.0
    ensures a * k < b * k
  {}

  ghost predicate Quantised(distances: seq<Ext>, step: real, codes: seq<nat>) {
    && step > 0.0 && |codes| == |distances|
    && forall i :: 0 <= i < |codes| ==> Brackets(codes[i], step, distances[i])
  }

  ghost predicate NoneNegative(distances: seq<Ext>) {
    forall i :: 0 <= i < |distances| ==> distances[i].Fin? ==> distances[i].v >= 0.0
  }

  /** Writes one table: its step and the code of every node. */
  method Quantise(distances: seq<Ext>, initial: real) returns (step: real, codes: seq<nat>)
    requires NoneNegative(distances) && initial > 0.0
    ensures Quantised(distances, step, codes) && step >= initial
  {
    var maxDistance := 0.0;
    for i := 0 to |distances|
      invariant maxDistance >= 0.0
      invariant forall k :: 0 <= k < i && distances[k].Fin? ==> distances[k].v <= maxDistance
    {
      if distances[i].Fin? {
        maxDistance := Max(maxDistance, distances[i].v);
      }
    }
    ghost var doublings;
    step, doublings := ChooseStep(maxDistance, initial);
    DoublingGrows(initial, doublings);
    codes := [];
    for i := 0 to |distances|
      invariant |codes| == i
      invariant forall k :: 0 <= k < i ==> Brackets(codes[k], step, distances[k])
    {
      if distances[i].Fin? {
        CodeBrackets(distances[i].v, step, maxDistance);
      }
      codes := codes + [Code(distances[i], step)];
    }
  }

  lemma {:induction false} DoublingGrows(step: real, k: nat)
    requires step > 0.0
    ensures Doubled(step, k) >= step
  {
    if k > 0 {
      DoublingGrows(step, k - 1);
    }
  }

  // ---- Lower bounds from codes ----

  /** The codes of one landmark: distances from it and distances to it. */
  datatype Table = Table(from: seq<nat>, fromStep: real, to: seq<nat>, toStep: real)

  /** The code brackets the distance from `a` to `b`. */
  ghost predicate Coded(arcs: Arcs, a: nat, b: nat, code: nat, step: real) {
    exists x: Ext :: IsDistance(arcs, a, b, x) && Brackets(code, step, x)
  }

  lemma CodedDistance(arcs: Arcs, a: nat, b: nat, code: nat, step: real) returns (x: Ext)
    requires Coded(arcs, a, b, code, step)
    ensures IsDistance(arcs, a, b, x) && Brackets(code, step, x)
  {
    x :| IsDistance(arcs, a, b, x) && Brackets(code, step, x);
  }

  /** The table holds the distances of the landmark under the metric. */
  ghost predicate TableOf(arcs: Arcs, n: nat, landmark: nat, t: Table) {
    && |t.from| == |t.to| == n
    && t.fromStep > 0.0 && t.toStep > 0.0
    && (forall v :: 0 <= v < n ==> Coded(arcs, landmark, v, t.from[v], t.fromStep))
    && (forall v :: 0 <= v < n ==> Coded(arcs, v, landmark, t.to[v], t.toStep))
  }

  /** The least number of steps two codes can be apart. */
  function Gap(a: int, b: int): int {
    a - b - 1
  }

  function FromBound(t: Table, node: nat, target: nat): real
    requires node < |t.from| && target < |t.from|
  {
    if t.from[node] != INFINITY_CODE && t.from[target] != INFINITY_CODE then
      Scaled(Gap(t.from[target], t.from[node]), t.fromStep)
    else 0.0
  }

  function ToBound(t: Table, node: nat, target: nat): real
    requires node < |t.to| && target < |t.to|
  {
    if t.to[node] != INFINITY_CODE && t.to[target] != INFINITY_CODE then
      Scaled(Gap(t.to[node], t.to[target]), t.toStep)
    else 0.0
  }

  lemma ScaledGap(a: int, b: int, k: real)
    ensures Scaled(Gap(a, b), k) == Scaled(a, k) - Scaled(b + 1, k)
  {
    assert Gap(a, b) as real == a as real - (b + 1) as real;
  }

  /** Comparing interval codes, with one step of allowance, never overestimates a walk. */
  lemma FromBoundHolds(arcs: Arcs, n: nat, landmark: nat, t: Table, node: nat, target: nat, w: seq<Stop<nat>>)
    requires TableOf(arcs, n, landmark, t) && node < n && target < n && WalkBetween(arcs, node, target, w)
    requires w[|w| - 1].cost >= 0.0
    ensures FromBound(t, node, target) <= w[|w| - 1].cost
  {
    var x := CodedDistance(arcs, landmark, node, t.from[node], t.fromStep);
    var y := CodedDistance(arcs, landmark, target, t.from[target], t.fromStep);
    hide IsDistance;
    hide Scaled;
    hide Gap;
    hide WalkBetween;
    if t.from[node] != INFINITY_CODE && t.from[target] != INFINITY_CODE {
      TriangleFrom(arcs, landmark, node, target, x, y, w);
      ScaledGap(t.from[target], t.from[node], t.fromStep);
    }
  }

  lemma ToBoundHolds(arcs: Arcs, n: nat, landmark: nat, t: Table, node: nat, target: nat, w: seq<Stop<nat>>)
    requires TableOf(arcs, n, landmark, t) && node < n && target < n && WalkBetween(arcs, node, target, w)
    requires w[|w| - 1].cost >= 0.0
    ensures ToBound(t, node, target) <= w[|w| - 1].cost
  {
    var x := CodedDistance(arcs, node, landmark, t.to[node], t.toStep);
    var y := CodedDistance(arcs, target, landmark, t.to[target], t.toStep);
    hide IsDistance;
    hide Scaled;
    hide Gap;
    hide WalkBetween;
    if t.to[node] != INFINITY_CODE && t.to[target] != INFINITY_CODE {
      TriangleTo(arcs, landmark, node, target, x, y, w);
      ScaledGap(t.to[node], t.to[target], t.toStep);
    }
  }
}
