/** Spreading the landmarks over the graph (the end of the loop of `WriteLandmarks` in
    core/router_landmarks.go). */
module LandmarkSpread {
  import opened Common
  import opened SearchTheory
  import opened Landmarks
  import opened LandmarkDistances

  function Nearer(a: Ext, b: Ext): Ext {
    if a.Inf? || (b.Fin? && b.v < a.v) then b else a
  }

  predicate Farther(a: Ext, b: Ext) {
    b.Fin? && (a.Inf? || a.v > b.v)
  }

  ghost predicate Candidates(eligible: seq<bool>, selected: set<nat>, v: nat) {
    v < |eligible| && eligible[v] && v !in selected
  }

  /** Of the nodes that reach the first landmark and are reached from it, the one farthest from all
      landmarks so far; the old one if all are taken. */
  method NextSeed(closest: seq<Ext>, eligible: seq<bool>, selected: set<nat>, forward: seq<Ext>, backward: seq<Ext>,
      seed: nat)
    returns (closest': seq<Ext>, next: nat)
    requires |closest| == |eligible| == |forward| == |backward|
    requires NoneNegative(closest) && NoneNegative(forward) && NoneNegative(backward)
    ensures |closest'| == |closest| && NoneNegative(closest') && (seed < |closest| ==> next < |closest|)
    ensures forall v :: 0 <= v < |closest| ==>
      closest'[v] == if eligible[v] then Nearer(closest[v], Nearer(forward[v], backward[v])) else closest[v]
    ensures (forall v: nat :: !Candidates(eligible, selected, v)) ==> next == seed
    ensures forall v: nat :: Candidates(eligible, selected, v) ==>
      Candidates(eligible, selected, next) && !Farther(closest'[v], closest'[next])
  {
    closest', next := closest, seed;
    var best := Fin(-1.0);
    for node := 0 to |closest|
      invariant |closest'| == |closest| && NoneNegative(closest')
      invariant forall v :: 0 <= v < |closest| ==>
        closest'[v] == if v < node && eligible[v] then Nearer(closest[v], Nearer(forward[v], backward[v]))
          else closest[v]
      invariant if best == Fin(-1.0) then next == seed && forall v: nat :: v < node ==>
        !Candidates(eligible, selected, v)
                else next < node && Candidates(eligible, selected, next) && best == closest'[next]
      invariant forall v: nat :: v < node && Candidates(eligible, selected, v) ==> !Farther(closest'[v], best)
    {
      if eligible[node] {
        closest' := closest'[node := Nearer(closest'[node], Nearer(forward[node], backward[node]))];
        if node !in selected && Farther(closest'[node], best) {
          best, next := closest'[node], node;
        }
      }
    }
  }

  // ---- What the choice means for distances ----

  ghost predicate AllDistancesTo(arcs: Arcs, n: nat, seed: nat, distances: seq<Ext>) {
    |distances| == n && forall v :: 0 <= v < n ==> IsDistance(arcs, v, seed, distances[v])
  }

  /** The node can be reached from the landmark and the landmark from it. */
  ghost predicate Mutual(arcs: Arcs, seed: nat, v: nat) {
    exists a: Ext, b: Ext :: IsDistance(arcs, seed, v, a) && IsDistance(arcs, v, seed, b) && a.Fin? && b.Fin?
  }

  /** How far apart the two are in the direction in which they are nearer. */
  ghost predicate Gap(arcs: Arcs, seed: nat, v: nat, x: Ext) {
    exists a: Ext, b: Ext :: IsDistance(arcs, seed, v, a) && IsDistance(arcs, v, seed, b) && Shorter(x, a, b)
  }

  /** One of the two, and no longer than either. */
  ghost predicate Shorter(x: Ext, a: Ext, b: Ext) {
    && (x == a || x == b) && (a.Fin? ==> x.Fin? && x.v <= a.v) && (b.Fin? ==> x.Fin? && x.v <= b.v)
  }

  lemma NearerIsShorter(x: Ext, a: Ext, b: Ext)
    ensures Shorter(x, a, b) <==> x == Nearer(a, b)
  {}

  ghost predicate NoFarther(arcs: Arcs, seed: nat, v: nat, than: nat) {
    forall x: Ext, y: Ext :: Gap(arcs, seed, v, x) && Gap(arcs, seed, than, y) ==>
      (y.Fin? ==> x.Fin? && x.v <= y.v)
  }

  /** Of the other nodes that reach the first landmark and are reached from it, the second is the farthest from
      it; it is the first again if there are none. `plain` decides about reaching. */
  ghost predicate IsFarthest(plain: Arcs, arcs: Arcs, n: nat, first: nat, second: nat) {
    && second < n
    && (second != first ==> Mutual(plain, first, second))
    && (forall v: nat :: v < n && v != first && Mutual(plain, first, v) ==>
          second != first && NoFarther(arcs, first, v, second))
  }

  /** The marks tell who is in the strongly connected component of the first landmark. */
  ghost predicate InComponent(plain: Arcs, n: nat, seed: nat, eligible: seq<bool>) {
    |eligible| == n && forall v :: 0 <= v < n ==> (eligible[v] <==> Mutual(plain, seed, v))
  }

  ghost predicate NoneYet(closest: seq<Ext>) {
    forall v :: 0 <= v < |closest| ==> closest[v] == Inf
  }

  function BothWays(forward: seq<Ext>, backward: seq<Ext>): (eligible: seq<bool>)
    requires |forward| == |backward|
    ensures |eligible| == |forward|
  {
    seq(|forward|, i requires 0 <= i < |forward| => forward[i].Fin? && backward[i].Fin?)
  }

  /** A distance is unique. */
  lemma OneDistance(arcs: Arcs, a: nat, b: nat, x: Ext, y: Ext)
    requires IsDistance(arcs, a, b, x) && IsDistance(arcs, a, b, y)
    ensures x == y
  {
    if x.Fin? {
      var t: seq<Stop<nat>> :| WalkBetween(arcs, a, b, t) && t[|t| - 1].cost == x.v;
    }
    if y.Fin? {
      var t: seq<Stop<nat>> :| WalkBetween(arcs, a, b, t) && t[|t| - 1].cost == y.v;
    }
  }

  lemma Component(plain: Arcs, n: nat, seed: nat, forward: seq<Ext>, backward: seq<Ext>, eligible: seq<bool>)
    requires AllDistances(plain, n, seed, forward) && AllDistancesTo(plain, n, seed, backward)
    requires eligible == BothWays(forward, backward)
    ensures InComponent(plain, n, seed, eligible)
  {
    hide IsDistance;
    forall v | 0 <= v < n
      ensures eligible[v] <==> Mutual(plain, seed, v)
    {
      if Mutual(plain, seed, v) {
        var a: Ext, b: Ext :|
          IsDistance(plain, seed, v, a) && IsDistance(plain, v, seed, b) && a.Fin? && b.Fin?;
        OneDistance(plain, seed, v, a, forward[v]);
        OneDistance(plain, v, seed, b, backward[v]);
      }
    }
  }

  lemma GapIs(arcs: Arcs, n: nat, seed: nat, forward: seq<Ext>, backward: seq<Ext>, v: nat, x: Ext)
    requires AllDistances(arcs, n, seed, forward) && AllDistancesTo(arcs, n, seed, backward)
    requires v < n && Gap(arcs, seed, v, x)
    ensures x == Nearer(forward[v], backward[v])
  {
    hide IsDistance;
    var a: Ext, b: Ext :| IsDistance(arcs, seed, v, a) && IsDistance(arcs, v, seed, b) && Shorter(x, a, b);
    NearerIsShorter(x, a, b);
    OneDistance(arcs, seed, v, a, forward[v]);
    OneDistance(arcs, v, seed, b, backward[v]);
  }

  /** The seed chosen after the first landmark of a metric is a farthest one. */
  lemma FarthestChosen(plain: Arcs, arcs: Arcs, n: nat, first: nat, eligible: seq<bool>, before: seq<Ext>,
      forward: seq<Ext>, backward: seq<Ext>, closest: seq<Ext>, next: nat)
    requires InComponent(plain, n, first, eligible) && first < n && next < n
    requires AllDistances(arcs, n, first, forward) && AllDistancesTo(arcs, n, first, backward)
    requires |before| == |closest| == n && NoneYet(before)
    requires forall v :: 0 <= v < n ==>
      closest[v] == if eligible[v] then Nearer(before[v], Nearer(forward[v], backward[v])) else before[v]
    requires (forall v: nat :: !Candidates(eligible, {first}, v)) ==> next == first
    requires forall v: nat :: Candidates(eligible, {first}, v) ==>
      Candidates(eligible, {first}, next) && !Farther(closest[v], closest[next])
    ensures IsFarthest(plain, arcs, n, first, next)
  {
    hide IsDistance;
    hide Mutual;
    hide Gap;
    forall v: nat | v < n && v != first && Mutual(plain, first, v)
      ensures next != first && NoFarther(arcs, first, v, next)
    {
      assert Candidates(eligible, {first}, v);
      forall x: Ext, y: Ext | Gap(arcs, first, v, x) && Gap(arcs, first, next, y)
        ensures y.Fin? ==> x.Fin? && x.v <= y.v
      {
        GapIs(arcs, n, first, forward, backward, v, x);
        GapIs(arcs, n, first, forward, backward, next, y);
      }
    }
    if next != first {
      var v: nat :| Candidates(eligible, {first}, v);
    }
  }
}
