/** The first landmark: a node of highest degree in a largest weakly connected component, found by
    union by size (`buildLandmarkReverse` in core/router_landmarks.go). */
module LandmarkSeed {
  import opened GraphStore
  import opened ChainRuns

  // ---- Weak connectivity ----

  ghost predicate Adjacent(adj: Adjacency, x: nat, y: nat) {
    x < |adj| && y < |adj| && (Points(adj, x, y) || Points(adj, y, x))
  }

  ghost predicate IsChain(adj: Adjacency, s: seq<nat>) {
    |s| > 0 && (forall i :: 0 <= i < |s| ==> s[i] < |adj|) && forall i :: 0 <= i < |s| - 1 ==>
      Adjacent(adj, s[i], s[i + 1])
  }

  /** Some sequence of edges, taken in either direction, joins the nodes. */
  ghost predicate Linked(adj: Adjacency, x: nat, y: nat) {
    exists s: seq<nat> :: IsChain(adj, s) && s[0] == x && s[|s| - 1] == y
  }

  lemma LinkedSelf(adj: Adjacency, x: nat)
    requires x < |adj|
    ensures Linked(adj, x, x)
  {
    assert IsChain(adj, [x]);
  }

  lemma LinkedJoins(adj: Adjacency, x: nat, y: nat, z: nat)
    requires Linked(adj, x, y) && Linked(adj, y, z)
    ensures Linked(adj, x, z)
  {
    var s: seq<nat> :| IsChain(adj, s) && s[0] == x && s[|s| - 1] == y;
    var t: seq<nat> :| IsChain(adj, t) && t[0] == y && t[|t| - 1] == z;
    var r := s + t[1..];
    forall i | 0 <= i < |r| - 1
      ensures Adjacent(adj, r[i], r[i + 1])
    {
      if i < |s| - 1 {
        assert Adjacent(adj, s[i], s[i + 1]);
      } else {
        assert Adjacent(adj, t[i - (|s| - 1)], t[i - (|s| - 1) + 1]);
      }
    }
    assert IsChain(adj, r) && r[0] == x && r[|r| - 1] == z;
  }

  lemma LinkedBack(adj: Adjacency, x: nat, y: nat)
    requires Linked(adj, x, y)
    ensures Linked(adj, y, x)
  {
    var s: seq<nat> :| IsChain(adj, s) && s[0] == x && s[|s| - 1] == y;
    var r: seq<nat> := seq(|s|, i requires 0 <= i < |s| => s[|s| - 1 - i]);
    forall i | 0 <= i < |r| - 1
      ensures Adjacent(adj, r[i], r[i + 1])
    {
      assert Adjacent(adj, s[|s| - 2 - i], s[|s| - 2 - i + 1]);
    }
    assert IsChain(adj, r) && r[0] == y && r[|r| - 1] == x;
  }

  lemma EdgeLinks(adj: Adjacency, u: nat, e: EdgeRec)
    requires u < |adj| && e in adj[u] && e.target < |adj|
    ensures Linked(adj, u, e.target)
  {
    assert Points(adj, u, e.target);
    assert Adjacent(adj, u, e.target);
    assert IsChain(adj, [u, e.target]);
  }

  ghost function Component(adj: Adjacency, v: nat): set<nat> {
    set x: nat | x < |adj| && Linked(adj, v, x)
  }

  /** A node of highest degree in a largest component. */
  ghost predicate IsSeed(adj: Adjacency, seed: nat) {
    && seed < |adj|
    && (forall v: nat :: v < |adj| ==> |Component(adj, v)| <= |Component(adj, seed)|)
    && forall x: nat :: x in Component(adj, seed) ==> x < |adj| && |adj[x]| <= |adj[seed]|
  }

  // ---- The forest ----

  ghost function Class(rep: seq<nat>, r: nat): set<nat> {
    set x: nat | x < |rep| && rep[x] == r
  }

  /** The proof's view of the forest: the root of every node, and a rank that rises towards it. */
  datatype View = View(rep: seq<nat>, rank: seq<nat>, bound: nat)

  ghost predicate NodeFits(comps: seq<int>, w: View, x: nat)
    requires |comps| == |w.rep| == |w.rank| && x < |comps|
  {
    && w.rep[x] < |comps| && comps[w.rep[x]] < 0 && w.rank[x] <= w.bound
    && if comps[x] >= 0 then comps[x] < |comps| && w.rank[x] < w.rank[comps[x]] && w.rep[comps[x]] == w.rep[x]
       else w.rep[x] == x && comps[x] == -|Class(w.rep, x)|
  }

  /** Negative entries are roots and hold their component's size, all others point to a parent. */
  ghost predicate Forest(comps: seq<int>, w: View) {
    && |comps| == |w.rep| == |w.rank|
    && forall x :: 0 <= x < |comps| ==> NodeFits(comps, w, x)
  }

  method Root(comps: array<int>, node: nat, ghost w: View) returns (root: nat)
    requires Forest(comps[..], w) && node < comps.Length
    ensures root == w.rep[node] && root < comps.Length && comps[root] < 0
  {
    root := node;
    assert NodeFits(comps[..], w, root);
    while comps[root] >= 0
      invariant root < comps.Length && w.rep[root] == w.rep[node]
      invariant NodeFits(comps[..], w, root)
      decreases w.bound - w.rank[root]
    {
      root := comps[root];
      assert NodeFits(comps[..], w, root);
    }
  }

  ghost function Joined(w: View, a: nat, b: nat): View
    requires a < |w.rank| && b < |w.rank|
  {
    var rank := if w.rank[a] > w.rank[b] then w.rank[a] else w.rank[b] + 1;
    View(seq(|w.rep|, i requires 0 <= i < |w.rep| => if w.rep[i] == b then a else w.rep[i]), w.rank[a := rank],
      w.bound + 1)
  }

  lemma ClassesJoin(rep: seq<nat>, rep': seq<nat>, a: nat, b: nat)
    requires |rep'| == |rep| && a != b && forall i :: 0 <= i < |rep| ==> rep'[i] == if rep[i] == b then a else rep[i]
    ensures |Class(rep', a)| == |Class(rep, a)| + |Class(rep, b)|
    ensures forall r: nat :: r != a && r != b ==> Class(rep', r) == Class(rep, r)
  {
    assert Class(rep', a) == Class(rep, a) + Class(rep, b);
    assert Class(rep, a) !! Class(rep, b);
    forall r: nat | r != a && r != b
      ensures Class(rep', r) == Class(rep, r)
    {}
  }

  /** Hanging the root `b` under the root `a`. */
  lemma UnionFits(comps: seq<int>, w: View, a: nat, b: nat)
    requires Forest(comps, w) && a < |comps| && b < |comps| && a != b && comps[a] < 0 && comps[b] < 0
    ensures Forest(comps[a := comps[a] + comps[b]][b := a], Joined(w, a, b))
  {
    var comps' := comps[a := comps[a] + comps[b]][b := a];
    var w' := Joined(w, a, b);
    ClassesJoin(w.rep, w'.rep, a, b);
    assert NodeFits(comps, w, a) && NodeFits(comps, w, b);
    forall x | 0 <= x < |comps'|
      ensures NodeFits(comps', w', x)
    {
      assert NodeFits(comps, w, x);
      if comps[x] >= 0 {
        assert NodeFits(comps, w, comps[x]);
      }
      hide Class;
    }
  }

  // ---- Roots and connectivity ----

  ghost predicate Sound(adj: Adjacency, rep: seq<nat>) {
    |rep| == |adj| && forall x :: 0 <= x < |rep| ==> Linked(adj, x, rep[x])
  }

  /** The edges of the nodes before `n`, and the first `k` of `n`, join nodes of the same root. */
  ghost predicate Merged(adj: Adjacency, rep: seq<nat>, n: nat, k: nat) {
    && |rep| == |adj|
    && forall u, j ::
      0 <= u < |adj| && 0 <= j < |adj[u]| && (u < n || (u == n && j < k)) && adj[u][j].target < |adj| ==>
         rep[u] == rep[adj[u][j].target]
  }

  lemma JoinKeepsSound(adj: Adjacency, rep: seq<nat>, rep': seq<nat>, a: nat, b: nat)
    requires Sound(adj, rep) && |rep'| == |rep| && Linked(adj, b, a)
    requires forall i :: 0 <= i < |rep| ==> rep'[i] == if rep[i] == b then a else rep[i]
    ensures Sound(adj, rep')
  {
    forall x | 0 <= x < |rep'|
      ensures Linked(adj, x, rep'[x])
    {
      assert Linked(adj, x, rep[x]);
      if rep[x] == b {
        LinkedJoins(adj, x, b, a);
      }
    }
  }

  lemma JoinKeepsMerged(adj: Adjacency, rep: seq<nat>, rep': seq<nat>, a: nat, b: nat, n: nat, k: nat)
    requires Merged(adj, rep, n, k) && |rep'| == |rep|
    requires forall i :: 0 <= i < |rep| ==> rep'[i] == if rep[i] == b then a else rep[i]
    ensures Merged(adj, rep', n, k)
  {}

  /** The two roots met by an edge are connected. */
  lemma RootsLinked(adj: Adjacency, rep: seq<nat>, u: nat, e: EdgeRec)
    requires Sound(adj, rep) && u < |adj| && e in adj[u] && e.target < |adj|
    ensures Linked(adj, rep[u], rep[e.target]) && Linked(adj, rep[e.target], rep[u])
  {
    hide Linked;
    EdgeLinks(adj, u, e);
    assert Linked(adj, u, rep[u]) && Linked(adj, e.target, rep[e.target]);
    LinkedBack(adj, u, rep[u]);
    LinkedJoins(adj, rep[u], u, e.target);
    LinkedJoins(adj, rep[u], e.target, rep[e.target]);
    LinkedBack(adj, rep[u], rep[e.target]);
  }

  lemma {:induction false} ChainSameRoot(adj: Adjacency, rep: seq<nat>, s: seq<nat>)
    requires Merged(adj, rep, |adj|, 0) && IsChain(adj, s)
    ensures rep[s[0]] == rep[s[|s| - 1]]
  {
    var k := |s| - 1;
    if k > 0 {
      assert IsChain(adj, s[..k]);
      ChainSameRoot(adj, rep, s[..k]);
      assert Adjacent(adj, s[k - 1], s[k - 1 + 1]);
      AdjacentSameRoot(adj, rep, s[k - 1], s[k]);
    }
  }

  lemma AdjacentSameRoot(adj: Adjacency, rep: seq<nat>, x: nat, y: nat)
    requires Merged(adj, rep, |adj|, 0) && Adjacent(adj, x, y)
    ensures rep[x] == rep[y]
  {
    if Points(adj, x, y) {
      var e :| e in adj[x] && e.target == y;
      var j :| 0 <= j < |adj[x]| && adj[x][j] == e;
    } else {
      var e :| e in adj[y] && e.target == x;
      var j :| 0 <= j < |adj[y]| && adj[y][j] == e;
    }
  }

  /** Once all edges are merged, a component is the class of its root. */
  lemma ComponentIsClass(adj: Adjacency, rep: seq<nat>, v: nat)
    requires Sound(adj, rep) && Merged(adj, rep, |adj|, 0) && v < |adj|
    ensures Component(adj, v) == Class(rep, rep[v])
  {
    hide Merged;
    hide Linked;
    forall x: nat | x < |adj|
      ensures Linked(adj, v, x) <==> rep[x] == rep[v]
    {
      if Linked(adj, v, x) {
        LinkedSameRoot(adj, rep, v, x);
      }
      if rep[x] == rep[v] {
        assert Linked(adj, v, rep[v]) && Linked(adj, x, rep[x]);
        LinkedBack(adj, x, rep[x]);
        LinkedJoins(adj, v, rep[v], x);
      }
    }
  }

  lemma LinkedSameRoot(adj: Adjacency, rep: seq<nat>, x: nat, y: nat)
    requires Merged(adj, rep, |adj|, 0) && Linked(adj, x, y)
    ensures x < |adj| && y < |adj| && rep[x] == rep[y]
  {
    var s: seq<nat> :| IsChain(adj, s) && s[0] == x && s[|s| - 1] == y;
    ChainSameRoot(adj, rep, s);
  }

  // ---- The search for the seed ----

  lemma Singletons(adj: Adjacency, comps: seq<int>, w: View)
    requires |comps| == |adj| && forall i :: 0 <= i < |comps| ==> comps[i] == -1
    requires w == View(seq(|adj|, i => i), seq(|adj|, _ => 0), 0)
    ensures Forest(comps, w) && Sound(adj, w.rep) && Merged(adj, w.rep, 0, 0)
  {
    forall x | 0 <= x < |comps|
      ensures NodeFits(comps, w, x) && Linked(adj, x, w.rep[x])
    {
      assert Class(w.rep, x) == {x};
      LinkedSelf(adj, x);
    }
  }

  lemma MergedOne(adj: Adjacency, rep: seq<nat>, n: nat, k: nat)
    requires Merged(adj, rep, n, k) && n < |adj| && k < |adj[n]|
    requires adj[n][k].target < |adj| ==> rep[n] == rep[adj[n][k].target]
    ensures Merged(adj, rep, n, k + 1)
  {}

  lemma MergedNode(adj: Adjacency, rep: seq<nat>, n: nat)
    requires n < |adj| && Merged(adj, rep, n, |adj[n]|)
    ensures Merged(adj, rep, n + 1, 0)
  {}

  lemma JoinedReps(w: View, a: nat, b: nat)
    requires a < |w.rank| && b < |w.rank|
    ensures var rep' := Joined(w, a, b).rep;
      |rep'| == |w.rep| && forall i :: 0 <= i < |rep'| ==> rep'[i] == if w.rep[i] == b then a else w.rep[i]
  {}

  lemma ForestSizes(comps: seq<int>, w: View, adj: Adjacency)
    requires Forest(comps, w)
    ensures |w.rep| == |w.rank| == |comps|
  {}

  /** Merges the two ends of one edge, the smaller class under the larger. */
  method MergeEdge(adj: Adjacency, comps: array<int>, ghost w: View, n: nat, k: nat) returns (ghost w': View)
    requires comps.Length == |adj| && n < |adj| && k < |adj[n]| && adj[n][k].target < |adj|
    requires Forest(comps[..], w) && Sound(adj, w.rep) && Merged(adj, w.rep, n, k)
    modifies comps
    ensures Forest(comps[..], w') && Sound(adj, w'.rep) && Merged(adj, w'.rep, n, k + 1)
  {
    hide Forest;
    hide Sound;
    hide Merged;
    hide Linked;
    hide Joined;
    ForestSizes(comps[..], w, adj);
    var target := adj[n][k].target;
    var a := Root(comps, n, w);
    var b := Root(comps, target, w);
    w' := w;
    if a != b {
      RootsLinked(adj, w.rep, n, adj[n][k]);
      if comps[a] > comps[b] {
        a, b := b, a;
      }
      ghost var was := comps[..];
      UnionFits(was, w, a, b);
      w' := Joined(w, a, b);
      comps[a] := comps[a] + comps[b];
      comps[b] := a;
      assert comps[..] == was[a := was[a] + was[b]][b := a];
      JoinedReps(w, a, b);
      JoinKeepsSound(adj, w.rep, w'.rep, a, b);
      JoinKeepsMerged(adj, w.rep, w'.rep, a, b, n, k);
    }
    MergedOne(adj, w'.rep, n, k);
  }

  /** The first entry with the largest component. */
  method LargestRoot(comps: array<int>, ghost w: View) returns (largest: nat)
    requires Forest(comps[..], w) && comps.Length > 0
    ensures largest < comps.Length && comps[largest] < 0
    ensures forall i :: 0 <= i < comps.Length ==> comps[largest] <= comps[i]
  {
    largest := 0;
    for i := 0 to comps.Length
      invariant largest < comps.Length
      invariant forall k :: 0 <= k < i ==> comps[largest] <= comps[k]
    {
      if comps[i] < comps[largest] {
        largest := i;
      }
    }
    assert NodeFits(comps[..], w, 0);
    assert comps[largest] <= comps[w.rep[0]];
  }

  lemma LargestClass(adj: Adjacency, comps: seq<int>, w: View, largest: nat, v: nat)
    requires Forest(comps, w) && Sound(adj, w.rep) && Merged(adj, w.rep, |adj|, 0) && |comps| == |adj|
    requires largest < |comps| && comps[largest] < 0 && v < |adj|
    requires forall i :: 0 <= i < |comps| ==> comps[largest] <= comps[i]
    ensures |Component(adj, v)| <= |Class(w.rep, largest)|
  {
    assert NodeFits(comps, w, v) && NodeFits(comps, w, w.rep[v]) && NodeFits(comps, w, largest);
    hide Sound;
    hide Merged;
    hide Forest;
    hide Class;
    hide Component;
    ComponentIsClass(adj, w.rep, v);
  }

  lemma SeedFound(adj: Adjacency, comps: seq<int>, w: View, largest: nat, seed: nat)
    requires Forest(comps, w) && Sound(adj, w.rep) && Merged(adj, w.rep, |adj|, 0) && |comps| == |adj|
    requires largest < |comps| && comps[largest] < 0
    requires forall i :: 0 <= i < |comps| ==> comps[largest] <= comps[i]
    requires seed < |adj| && w.rep[seed] == largest
    requires forall x: nat :: x < |adj| && w.rep[x] == largest ==> |adj[x]| <= |adj[seed]|
    ensures IsSeed(adj, seed)
  {
    ComponentIsClass(adj, w.rep, seed);
    forall v: nat | v < |adj|
      ensures |Component(adj, v)| <= |Component(adj, seed)|
    {
      LargestClass(adj, comps, w, largest, v);
    }
  }

  /** The first node of highest degree among those with the given root. */
  method HighestDegree(adj: Adjacency, comps: array<int>, ghost w: View, largest: nat) returns (seed: nat)
    requires Forest(comps[..], w) && comps.Length == |adj| && largest < |adj| && comps[largest] < 0
    ensures |w.rep| == |adj| && seed < |adj| && w.rep[seed] == largest
    ensures forall x: nat :: x < |adj| && w.rep[x] == largest ==> |adj[x]| <= |adj[seed]|
  {
    ForestSizes(comps[..], w, adj);
    LargestInItself(comps[..], w, largest);
    hide Forest;
    seed := largest;
    var degree := -1;
    for node := 0 to |adj|
      invariant seed < |adj| && w.rep[seed] == largest
      invariant degree == -1 || degree == |adj[seed]|
      invariant forall x: nat :: x < node && w.rep[x] == largest ==> |adj[x]| <= degree
    {
      var root := Root(comps, node, w);
      if root == largest {
        var count := |adj[node]|;
        if count > degree {
          seed, degree := node, count;
        }
      }
    }
  }

  method FindSeed(adj: Adjacency) returns (seed: nat)
    requires TargetsExist(adj) && |adj| > 0
    ensures IsSeed(adj, seed) && seed < |adj|
  {
    var comps := new int[|adj|](_ => -1);
    ghost var w := View(seq(|adj|, i => i), seq(|adj|, _ => 0), 0);
    Singletons(adj, comps[..], w);
    hide Forest;
    hide Sound;
    hide Merged;
    hide IsSeed;
    for n := 0 to |adj|
      invariant Forest(comps[..], w) && Sound(adj, w.rep) && Merged(adj, w.rep, n, 0)
    {
      for k := 0 to |adj[n]|
        invariant Forest(comps[..], w) && Sound(adj, w.rep) && Merged(adj, w.rep, n, k)
      {
        assert adj[n][k] in adj[n];
        w := MergeEdge(adj, comps, w, n, k);
      }
      MergedNode(adj, w.rep, n);
    }
    var largest := LargestRoot(comps, w);
    seed := HighestDegree(adj, comps, w, largest);
    SeedFound(adj, comps[..], w, largest, seed);
  }

  lemma LargestInItself(comps: seq<int>, w: View, largest: nat)
    requires Forest(comps, w) && largest < |comps| && comps[largest] < 0
    ensures |w.rep| == |comps| && w.rep[largest] == largest
  {
    assert NodeFits(comps, w, largest);
  }
}
