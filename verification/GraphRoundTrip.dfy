/** Everything the writer produces is accepted when opened again, and reads back as the graph that was
    written (`WriteGraph` and `OpenGraph` in core/router_store.go). */
module GraphRoundTrip {
  import opened Common
  import opened GraphStore
  import opened ChainRuns
  import opened ChainPacking
  import opened GraphPacking
  import opened PackingLoop
  import opened GraphWriter
  import opened GraphReader
  import opened GraphAcceptance
  import opened ChainEntries

  // ---- The node table ----

  lemma WrittenNode(ids: seq<int>, adj: Adjacency, t: Tables, pk: Option<Packing>, flagged: seq<bool>, d: Store, i: nat)
    requires Written(ids, adj, t, pk, flagged, d) && i < |adj|
    ensures d.nodes[i].id == ids[i]
    ensures IsPacked(pk, i) <==> IsFlagged(d, i)
    ensures IsPacked(pk, i) ==>
      && |adj[i]| == 2 && d.nodes[i].first == pk.value.nodeChain[i] < |d.chains|
      && d.nodes[i].second == pk.value.nodePosition[i]
    ensures !IsPacked(pk, i) ==>
      d.nodes[i].first == |OrdinaryEdges(adj, pk, i)| && d.nodes[i].second == |adj[i]| < CHAIN_FLAG
  {
    assert NodeWritten(ids, adj, pk, i, d.nodes[i]);
    if IsPacked(pk, i) {
      assert Placed(flagged, pk.value, i);
      assert PassesScan(adj, i);
    }
  }

  lemma {:induction false} CountsAgree(ids: seq<int>, adj: Adjacency, t: Tables, pk: Option<Packing>,
      flagged: seq<bool>, d: Store, n: nat)
    requires Written(ids, adj, t, pk, flagged, d) && n <= |adj| == |d.nodes|
    ensures ExplicitBefore(d, n) == |OrdinaryEdges(adj, pk, n)|
    ensures |OrdinaryEdges(adj, pk, n)| + 2 * FlaggedCount(d, n) == EdgeTotal(adj, n)
  {
    hide Written;
    hide IsFlagged;
    hide IsPacked;
    if n > 0 {
      CountsAgree(ids, adj, t, pk, flagged, d, n - 1);
      WrittenNode(ids, adj, t, pk, flagged, d, n - 1);
    }
  }

  lemma WrittenEdges(ids: seq<int>, adj: Adjacency, t: Tables, pk: Option<Packing>, flagged: seq<bool>, d: Store)
    requires Written(ids, adj, t, pk, flagged, d)
    ensures |d.nodes| == |adj| == |ids| && d.edges == OrdinaryEdges(adj, pk, |adj|)
    ensures d.edgeCount == EdgeTotal(adj, |adj|)
    ensures d.chained == pk.Some? && d.attributes == t.attributes && d.classes == t.classes
    ensures pk.Some? ==> d.chains == pk.value.chains && d.vertices == pk.value.vertices
    ensures pk.None? ==> d.chains == [] && d.vertices == []
  {}

  lemma NodesAccepted(ids: seq<int>, adj: Adjacency, t: Tables, pk: Option<Packing>, flagged: seq<bool>, d: Store)
    requires Written(ids, adj, t, pk, flagged, d)
    requires forall i, j :: 0 <= i < j < |ids| ==> ids[i] < ids[j]
    ensures NodeTableOk(d)
  {
    WrittenEdges(ids, adj, t, pk, flagged, d);
    hide Written;
    hide OrdinaryEdges;
    hide IsPacked;
    CountsAgree(ids, adj, t, pk, flagged, d, |adj|);
    forall i | 0 <= i < |adj|
      ensures NodeOk(d, i)
    {
      WrittenNode(ids, adj, t, pk, flagged, d, i);
      CountsAgree(ids, adj, t, pk, flagged, d, i);
      if i > 0 {
        WrittenNode(ids, adj, t, pk, flagged, d, i - 1);
      }
      if !IsPacked(pk, i) {
        OrdinaryRange(adj, pk, i);
      }
    }
  }

  // ---- The chain table ----

  ghost predicate NodeWords(adj: Adjacency, p: Packing, d: Store, i: nat)
    requires i < |adj| == |d.nodes| == |p.nodeChain| == |p.nodePosition|
  {
    if p.nodePosition[i] != 0 then
      Flagged(d.nodes[i].second) && d.nodes[i].first == p.nodeChain[i] && d.nodes[i].second == p.nodePosition[i]
    else !Flagged(d.nodes[i].second) && ExplicitEdges(d, i) == adj[i]
  }

  /** The store of a packed graph, as far as the chain checks read it. */
  ghost predicate PackedStore(adj: Adjacency, p: Packing, flagged: seq<bool>, d: Store) {
    && TargetsExist(adj) && PackInv(adj, flagged, p)
    && |d.nodes| == |adj| && d.chained && d.chains == p.chains && d.vertices == p.vertices
    && (forall i :: 0 <= i < |adj| ==> NodeWords(adj, p, d, i))
    && (forall c :: 0 <= c < |d.chains| ==> d.chains[c].attribute < |d.attributes|)
  }

  lemma WrittenPacked(ids: seq<int>, adj: Adjacency, t: Tables, p: Packing, flagged: seq<bool>, d: Store)
    requires Written(ids, adj, t, Some(p), flagged, d)
    ensures PackedStore(adj, p, flagged, d)
  {
    var pk := Some(p);
    WrittenEdges(ids, adj, t, pk, flagged, d);
    assert TargetsExist(adj) && PackInv(adj, flagged, p);
    assert |p.nodeChain| == |p.nodePosition| == |adj|;
    hide Written;
    hide PackInv;
    forall i | 0 <= i < |adj|
      ensures NodeWords(adj, p, d, i)
    {
      WrittenNode(ids, adj, t, pk, flagged, d, i);
      if !IsPacked(pk, i) {
        OrdinaryRange(adj, pk, i);
      }
    }
    forall c | 0 <= c < |d.chains|
      ensures d.chains[c].attribute < |d.attributes|
    {
      ChainAttributeExists(ids, adj, t, pk, flagged, d, c);
    }
  }

  lemma InteriorWritten(adj: Adjacency, p: Packing, flagged: seq<bool>, d: Store, c: nat, k: nat)
    requires PackedStore(adj, p, flagged, d) && c < |p.chains| && 1 <= k < p.chains[c].count - 1
    ensures p.chains[c].start + k < |p.vertices|
    ensures var x := p.vertices[p.chains[c].start + k].node;
      && x < |adj| && p.nodePosition[x] != 0
      && Flagged(d.nodes[x].second) && d.nodes[x].first == c && Position(d.nodes[x].second) == k
  {
    assert ChainFits(adj, flagged, p, c);
    PathLength(p, c);
    PathVertex(p, c, k);
    var path := PathOf(p, c);
    var x := path[k].node;
    hide PathOf;
    hide PackInv;
    hide PathOk;
    hide Tiled;
    assert p.nodePosition[x] == Flags(k, IsReversed(adj, path, k));
    assert NodeWords(adj, p, d, x);
  }

  lemma PathLength(p: Packing, c: nat)
    requires Tiled(p.chains, |p.vertices|) && c < |p.chains|
    ensures |PathOf(p, c)| == p.chains[c].count >= 5 && p.chains[c].reserved == 0
    ensures p.chains[c].start + p.chains[c].count == NextStart(p.chains, |p.vertices|, c) <= |p.vertices|
  {
    assert TileFits(p.chains, |p.vertices|, c);
    TileBounds(p.chains, |p.vertices|, c);
  }

  lemma EndOfPath(adj: Adjacency, flagged: seq<bool>, path: seq<VertexRec>, attribute: nat, k: nat)
    requires PathOk(adj, flagged, path, attribute) && (k == 0 || k == |path| - 1)
    ensures k < |path| && path[k].node < |adj| == |flagged| && !flagged[path[k].node]
  {}

  lemma EndNode(adj: Adjacency, p: Packing, flagged: seq<bool>, c: nat, k: nat)
    requires TargetsExist(adj) && PackInv(adj, flagged, p)
    requires c < |p.chains| && (k == 0 || k == p.chains[c].count - 1)
    ensures p.chains[c].start + k < |p.vertices|
    ensures var x := p.vertices[p.chains[c].start + k].node;
      x < |adj| == |p.nodeChain| == |p.nodePosition| && p.nodePosition[x] == 0
  {
    assert |adj| == |p.nodeChain| == |p.nodePosition|;
    hide *;
    ChainPathOk(adj, p, flagged, c);
    PathLength(p, c);
    PathVertex(p, c, k);
    EndOfPath(adj, flagged, PathOf(p, c), p.chains[c].attribute, k);
    Unplaced(adj, p, flagged, PathOf(p, c)[k].node);
  }

  lemma EndWritten(adj: Adjacency, p: Packing, flagged: seq<bool>, d: Store, c: nat, k: nat)
    requires PackedStore(adj, p, flagged, d) && c < |p.chains| && (k == 0 || k == p.chains[c].count - 1)
    ensures p.chains[c].start + k < |p.vertices|
    ensures var x := p.vertices[p.chains[c].start + k].node;
      x < |adj| && p.nodePosition[x] == 0 && !Flagged(d.nodes[x].second) && ExplicitEdges(d, x) == adj[x]
  {
    hide PackInv;
    EndNode(adj, p, flagged, c, k);
    assert NodeWords(adj, p, d, p.vertices[p.chains[c].start + k].node);
  }

  lemma Unplaced(adj: Adjacency, p: Packing, flagged: seq<bool>, x: nat)
    requires TargetsExist(adj) && PackInv(adj, flagged, p) && x < |adj|
    ensures p.nodePosition[x] != 0 ==> flagged[x]
  {
    if p.nodePosition[x] != 0 {
      assert Placed(flagged, p, x);
    }
  }

  lemma ChainWritten(adj: Adjacency, p: Packing, flagged: seq<bool>, d: Store, c: nat)
    requires PackedStore(adj, p, flagged, d) && c < |p.chains|
    ensures ChainOk(d, c)
  {
    PathLength(p, c);
    LastDistance(adj, p, flagged, c);
    assert d.chains[c].attribute < |d.attributes|;
    forall k | 0 <= k < p.chains[c].count
      ensures VertexOk(d, c, k)
    {
      if 1 <= k < p.chains[c].count - 1 {
        InteriorWritten(adj, p, flagged, d, c, k);
      } else {
        EndWritten(adj, p, flagged, d, c, k);
      }
    }
  }

  lemma LastDistance(adj: Adjacency, p: Packing, flagged: seq<bool>, c: nat)
    requires TargetsExist(adj) && PackInv(adj, flagged, p) && c < |p.chains|
    requires 0 <= p.chains[c].start + p.chains[c].count - 1 < |p.vertices|
    ensures p.vertices[p.chains[c].start + p.chains[c].count - 1].distance == 0
  {
    hide *;
    ChainPathOk(adj, p, flagged, c);
    PathLength(p, c);
    PathVertex(p, c, p.chains[c].count - 1);
    LastOfPath(adj, flagged, PathOf(p, c), p.chains[c].attribute);
  }

  lemma ChainPathOk(adj: Adjacency, p: Packing, flagged: seq<bool>, c: nat)
    requires TargetsExist(adj) && PackInv(adj, flagged, p) && c < |p.chains|
    ensures Tiled(p.chains, |p.vertices|)
    ensures PathOk(adj, flagged, PathOf(p, c), p.chains[c].attribute) && Marked(adj, p, PathOf(p, c), c)
  {
    assert ChainFits(adj, flagged, p, c);
    hide PathOk;
    hide Marked;
  }

  lemma LastOfPath(adj: Adjacency, flagged: seq<bool>, path: seq<VertexRec>, attribute: nat)
    requires PathOk(adj, flagged, path, attribute)
    ensures |path| >= 3 && path[|path| - 1].distance == 0
  {}

  /** Flagged records are exactly the assigned nodes. */
  lemma AssignedAreFlagged(adj: Adjacency, p: Packing, flagged: seq<bool>, d: Store)
    requires PackedStore(adj, p, flagged, d)
    ensures FlaggedCount(d, |d.nodes|) == |Assigned(p.nodePosition)|
  {
    FlaggedNodesCount(d, |d.nodes|);
    forall i: nat | i < |adj|
      ensures IsFlagged(d, i) <==> p.nodePosition[i] != 0
    {
      assert NodeWords(adj, p, d, i);
    }
    assert |p.nodePosition| == |adj|;
    hide PackedStore;
    hide IsFlagged;
    assert FlaggedNodes(d, |d.nodes|) == Assigned(p.nodePosition);
  }

  lemma ChainTableWritten(adj: Adjacency, p: Packing, flagged: seq<bool>, d: Store)
    requires PackedStore(adj, p, flagged, d) && |p.chains| > 0
    ensures ChainTableOk(d, FlaggedCount(d, |d.nodes|))
  {
    AssignedAreFlagged(adj, p, flagged, d);
    assert InteriorTotal(p.chains, |p.chains|) == |Assigned(p.nodePosition)|;
    forall c | 0 <= c < |d.chains|
      ensures ChainPlaced(d, c)
    {
      ChainWritten(adj, p, flagged, d, c);
      if c > 0 {
        PathLength(p, c - 1);
      }
    }
    PathLength(p, |p.chains| - 1);
    hide ChainPlaced;
    hide InteriorTotal;
    hide FlaggedCount;
  }

  // ---- The entry edges ----

  lemma {:induction false} IncomingAtLeast(adj: Adjacency, x: nat, n: nat, u: nat, y: nat, z: nat)
    requires n <= |adj| && u < |adj| && y < |adj| && z < |adj| && u != y && u != z && y != z
    ensures Incoming(adj, x, n) >= (if u < n then CountTo(adj[u], x) else 0) + (if y < n then CountTo(adj[y], x) else 0)
                                   + (if z < n then CountTo(adj[z], x) else 0)
  {
    hide CountTo;
    if n > 0 {
      IncomingAtLeast(adj, x, n - 1, u, y, z);
    }
  }

  /** Two reciprocated edges account for both incoming edges of a candidate. */
  lemma OnlyNeighboursEnter(adj: Adjacency, x: nat, u: nat, e: EdgeRec)
    requires TargetsExist(adj) && PassesScan(adj, x) && u < |adj| && e in adj[u] && e.target == x
    ensures u == adj[x][0].target || u == adj[x][1].target
    ensures exists r :: r in adj[x] && r.target == u && r.distance == e.distance && r.attribute == e.attribute
  {
    var y, z := adj[x][0], adj[x][1];
    if u != y.target && u != z.target {
      IncomingAtLeast(adj, x, |adj|, u, y.target, z.target);
      CountFinds(adj[u], x);
      assert false;
    }
    hide CountTo;
    hide Incoming;
    var r := if u == y.target then y else z;
    assert r in adj[x] && Reciprocated(adj, x, r);
  }

  lemma InteriorEdges(adj: Adjacency, p: Packing, flagged: seq<bool>, c: nat, k: nat)
    requires TargetsExist(adj) && PackInv(adj, flagged, p) && Tiled(p.chains, |p.vertices|) && c < |p.chains|
    requires 1 <= k < |PathOf(p, c)| - 1
    ensures var path := PathOf(p, c);
      && path[k].node < |adj| && PassesScan(adj, path[k].node)
      && exists reversed :: adj[path[k].node] == RebuiltEdges(path, p.chains[c].attribute, k, reversed)
  {
    ChainPathOk(adj, p, flagged, c);
    var path := PathOf(p, c);
    assert InteriorOk(adj, flagged, path, p.chains[c].attribute, k);
    hide PathOf;
    hide Marked;
    hide RebuiltEdges;
  }

  /** Where an edge into an interior can come from, and what it must carry. */
  ghost predicate FromBeside(path: seq<VertexRec>, attribute: nat, k: nat, u: nat, e: EdgeRec)
    requires 1 <= k < |path| - 1
  {
    && e.attribute == attribute
    && ((u == path[k - 1].node && e.distance == path[k - 1].distance)
        || (u == path[k + 1].node && e.distance == path[k].distance))
  }

  lemma EdgeIntoInterior(adj: Adjacency, p: Packing, flagged: seq<bool>, c: nat, k: nat, u: nat, e: EdgeRec)
    requires TargetsExist(adj) && PackInv(adj, flagged, p) && Tiled(p.chains, |p.vertices|) && c < |p.chains|
    requires 1 <= k < |PathOf(p, c)| - 1 && u < |adj| && e in adj[u] && e.target == PathOf(p, c)[k].node
    ensures FromBeside(PathOf(p, c), p.chains[c].attribute, k, u, e)
  {
    hide PathOf;
    hide PackInv;
    hide PassesScan;
    hide Tiled;
    InteriorEdges(adj, p, flagged, c, k);
    OnlyNeighboursEnter(adj, PathOf(p, c)[k].node, u, e);
  }

  /** An interior vertex is never the node an explicit edge leaves. */
  lemma InteriorNotExplicit(adj: Adjacency, p: Packing, flagged: seq<bool>, d: Store, c: nat, k: nat, u: nat)
    requires PackedStore(adj, p, flagged, d) && Tiled(p.chains, |p.vertices|) && c < |p.chains| && k < |PathOf(p, c)|
    requires u < |adj| && p.nodePosition[u] == 0 && PathOf(p, c)[k].node == u
    ensures k == 0 || k == |PathOf(p, c)| - 1
  {
    hide *;
    PathLength(p, c);
    PathVertex(p, c, k);
    if 1 <= k < |PathOf(p, c)| - 1 {
      InteriorWritten(adj, p, flagged, d, c, k);
    }
  }

  lemma PackedTarget(adj: Adjacency, p: Packing, flagged: seq<bool>, d: Store, x: nat)
    requires PackedStore(adj, p, flagged, d) && x < |adj|
    ensures d.chained && x < |d.nodes| && (Flagged(d.nodes[x].second) <==> p.nodePosition[x] != 0)
    ensures Tiled(p.chains, |p.vertices|)
    ensures Flagged(d.nodes[x].second) ==>
      && d.nodes[x].first < |p.chains|
      && 1 <= Position(d.nodes[x].second) < |PathOf(p, d.nodes[x].first)| - 1
      && PathOf(p, d.nodes[x].first)[Position(d.nodes[x].second)].node == x
  {
    assert NodeWords(adj, p, d, x);
    if p.nodePosition[x] != 0 {
      assert Placed(flagged, p, x);
    }
    hide NodeWords;
    hide ChainFits;
  }

  /** Every explicit edge into a chain passes the reader's test. */
  lemma EntryWritten(adj: Adjacency, p: Packing, flagged: seq<bool>, d: Store, u: nat, e: EdgeRec)
    requires PackedStore(adj, p, flagged, d) && u < |adj| && p.nodePosition[u] == 0 && e in adj[u] && e.target < |adj|
    ensures EntryOk(d, u, e)
  {
    var x := e.target;
    PackedTarget(adj, p, flagged, d, x);
    if Flagged(d.nodes[x].second) {
      var c, k := d.nodes[x].first, Position(d.nodes[x].second);
      EntryFromEnd(adj, p, flagged, d, u, e, c, k);
    }
    hide PackedStore;
  }

  lemma EntryFromEnd(adj: Adjacency, p: Packing, flagged: seq<bool>, d: Store, u: nat, e: EdgeRec, c: nat, k: nat)
    requires PackedStore(adj, p, flagged, d) && u < |adj| && p.nodePosition[u] == 0 && e in adj[u]
    requires Tiled(p.chains, |p.vertices|) && c < |p.chains| && 1 <= k < |PathOf(p, c)| - 1
    requires PathOf(p, c)[k].node == e.target
    ensures EntersFromEnd(d, u, e, c, k)
  {
    assert TargetsExist(adj) && PackInv(adj, flagged, p) && d.chains == p.chains && d.vertices == p.vertices;
    hide PackedStore;
    hide PackInv;
    hide TargetsExist;
    hide PathOf;
    hide Tiled;
    EdgeIntoInterior(adj, p, flagged, c, k, u, e);
    PathLength(p, c);
    PathVertex(p, c, k - 1);
    PathVertex(p, c, k);
    PathVertex(p, c, k + 1);
    if u == PathOf(p, c)[k - 1].node {
      InteriorNotExplicit(adj, p, flagged, d, c, k - 1, u);
    }
    if u == PathOf(p, c)[k + 1].node {
      InteriorNotExplicit(adj, p, flagged, d, c, k + 1, u);
    }
  }

  lemma ExplicitAreOriginal(adj: Adjacency, p: Packing, flagged: seq<bool>, d: Store, u: nat, e: EdgeRec)
    requires PackedStore(adj, p, flagged, d) && u < |d.nodes| && e in ExplicitEdges(d, u)
    ensures u < |adj| && p.nodePosition[u] == 0 && e in adj[u] && e.target < |adj|
  {
    assert NodeWords(adj, p, d, u);
    assert TargetsExist(adj);
    hide PackInv;
  }

  lemma EntriesMatchWritten(adj: Adjacency, p: Packing, flagged: seq<bool>, d: Store)
    requires PackedStore(adj, p, flagged, d)
    ensures EntriesMatch(d)
  {
    hide PackedStore;
    hide EntryOk;
    hide ExplicitEdges;
    forall u, e | 0 <= u < |d.nodes| && e in ExplicitEdges(d, u)
      ensures EntryOk(d, u, e)
    {
      ExplicitAreOriginal(adj, p, flagged, d, u, e);
      EntryWritten(adj, p, flagged, d, u, e);
    }
  }

  /** The node beside an interior has exactly one edge to it. */
  lemma OneEdgeIn(adj: Adjacency, p: Packing, flagged: seq<bool>, c: nat, k: nat, q: nat)
    requires TargetsExist(adj) && PackInv(adj, flagged, p) && Tiled(p.chains, |p.vertices|) && c < |p.chains|
    requires 1 <= k < |PathOf(p, c)| - 1 && (q == k - 1 || q == k + 1)
    ensures PathOf(p, c)[q].node < |adj| && CountTo(adj[PathOf(p, c)[q].node], PathOf(p, c)[k].node) == 1
  {
    InteriorEdges(adj, p, flagged, c, k);
    hide PathOf;
    hide PackInv;
    hide CountTo;
    hide Tiled;
    var path := PathOf(p, c);
    var x := path[k].node;
    assert IsCandidate(adj, x);
    assert Reciprocated(adj, x, adj[x][0]) && Reciprocated(adj, x, adj[x][1]);
  }

  /** Exactly one entry on either side of every chain. */
  lemma OneEntryWritten(adj: Adjacency, p: Packing, flagged: seq<bool>, d: Store, c: nat, side: nat)
    requires PackedStore(adj, p, flagged, d) && Slotted(d) && EntriesMatch(d) && c < |p.chains| && side < 2
    ensures c < |d.chains| && EntryTotal(d, |d.nodes|, c, side) == 1
  {
    assert TargetsExist(adj) && PackInv(adj, flagged, p) && d.chains == p.chains && d.vertices == p.vertices
      && |d.nodes| == |adj| && Tiled(p.chains, |p.vertices|);
    hide PackedStore;
    hide Slotted;
    hide EntriesMatch;
    hide PackInv;
    hide Tiled;
    hide EntryTotal;
    hide CountTo;
    hide PathOf;
    hide ExplicitEdges;
    PathLength(p, c);
    var k := if side == 1 then p.chains[c].count - 2 else 1;
    var q := if side == 1 then p.chains[c].count - 1 else 0;
    PathVertex(p, c, k);
    PathVertex(p, c, q);
    var x, end := PathOf(p, c)[k].node, PathOf(p, c)[q].node;
    EndWritten(adj, p, flagged, d, c, q);
    OneEdgeIn(adj, p, flagged, c, k, q);
    assert IsEntryNode(d, c, side, x);
    assert IsEndNode(d, c, side, end);
    EntriesFromEnd(d, |d.nodes|, c, side, x, end);
  }

  lemma EntriesWritten(adj: Adjacency, p: Packing, flagged: seq<bool>, d: Store)
    requires PackedStore(adj, p, flagged, d) && |p.chains| > 0
    ensures EntriesOk(d)
  {
    ChainTableWritten(adj, p, flagged, d);
    assert d.chained && d.chains == p.chains;
    hide PackedStore;
    hide ChainTableOk;
    hide Slotted;
    hide EntryTotal;
    hide EntryOk;
    hide ExplicitEdges;
    TablesSlotted(d);
    EntriesMatchWritten(adj, p, flagged, d);
    forall c | 0 <= c < |d.chains|
      ensures EntryTotal(d, |d.nodes|, c, 0) == 1 && EntryTotal(d, |d.nodes|, c, 1) == 1
    {
      OneEntryWritten(adj, p, flagged, d, c, 0);
      OneEntryWritten(adj, p, flagged, d, c, 1);
    }
  }

  // ---- The whole file ----

  lemma {:induction false} FlaggedAtMost(d: Store, n: nat)
    requires n <= |d.nodes|
    ensures FlaggedCount(d, n) <= n
  {
    if n > 0 {
      FlaggedAtMost(d, n - 1);
    }
  }

  lemma {:induction false} SomeEdge(adj: Adjacency, n: nat)
    requires n <= |adj| && EdgeTotal(adj, n) > 0
    ensures exists i, e :: 0 <= i < n && e in adj[i]
  {
    if |adj[n - 1]| > 0 {
      assert adj[n - 1][0] in adj[n - 1];
    } else {
      SomeEdge(adj, n - 1);
    }
  }

  lemma ClassesPresent(ids: seq<int>, adj: Adjacency, t: Tables, pk: Option<Packing>, flagged: seq<bool>, d: Store)
    requires Written(ids, adj, t, pk, flagged, d) && d.edgeCount > 0
    ensures |d.classes| > 0
  {
    SomeEdge(adj, |adj|);
    var i, e :| 0 <= i < |adj| && e in adj[i];
    assert e.attribute < |t.attributes|;
    assert t.attributes[e.attribute].class_ < |t.classes|;
  }

  /** The limits the writer checks, or that follow from them. */
  ghost predicate WithinLimits(ids: seq<int>, adj: Adjacency, t: Tables) {
    && 0 < |ids| < WORD && EdgeTotal(adj, |adj|) < WORD && |t.attributes| <= EdgeTotal(adj, |adj|)
    && forall i, j :: 0 <= i < j < |ids| ==> ids[i] < ids[j]
  }

  lemma SizesWritten(ids: seq<int>, adj: Adjacency, t: Tables, pk: Option<Packing>, flagged: seq<bool>, d: Store)
    requires Written(ids, adj, t, pk, flagged, d) && WithinLimits(ids, adj, t)
    ensures SizesOk(d)
  {
    WrittenEdges(ids, adj, t, pk, flagged, d);
    CountsAgree(ids, adj, t, pk, flagged, d, |adj|);
    FlaggedAtMost(d, |adj|);
    if d.edgeCount > 0 {
      ClassesPresent(ids, adj, t, pk, flagged, d);
    }
    if pk.Some? {
      PackingSize(adj, pk.value, flagged);
    }
    hide PackInv;
    hide EdgeTotal;
    hide FlaggedCount;
    hide OrdinaryEdges;
  }

  /** Whatever the writer puts down passes every check made on opening. */
  lemma WrittenIsAccepted(ids: seq<int>, adj: Adjacency, t: Tables, pk: Option<Packing>, flagged: seq<bool>, d: Store)
    requires Written(ids, adj, t, pk, flagged, d) && WithinLimits(ids, adj, t)
    ensures Accepts(d)
  {
    WrittenEdges(ids, adj, t, pk, flagged, d);
    hide Readable;
    hide SizesOk;
    hide NodeTableOk;
    hide ChainTableOk;
    hide EntriesOk;
    hide EdgesOk;
    hide AttributesOk;
    hide PackedStore;
    SizesWritten(ids, adj, t, pk, flagged, d);
    NodesAccepted(ids, adj, t, pk, flagged, d);
    WrittenReadable(ids, adj, t, pk, flagged, d);
    ReadableIndices(d);
    if pk.Some? {
      assert |pk.value.chains| > 0 && pk == Some(pk.value);
      WrittenPacked(ids, adj, t, pk.value, flagged, d);
      ChainTableWritten(adj, pk.value, flagged, d);
      EntriesWritten(adj, pk.value, flagged, d);
    }
  }

  lemma ReadableIndices(d: Store)
    requires Readable(d)
    ensures EdgesOk(d) && AttributesOk(d)
  {}

  function LogicalEdges(adj: seq<seq<LogicalEdge>>, n: nat): nat
    requires n <= |adj|
  {
    if n == 0 then 0 else LogicalEdges(adj, n - 1) + |adj[n - 1]|
  }

  lemma {:induction false} SameTotal(g: Graph, t: Tables, adj: Adjacency, n: nat)
    requires |adj| == |g.adj| && Encodes(g, t, adj, |adj|) && n <= |adj|
    ensures EdgeTotal(adj, n) == LogicalEdges(g.adj, n)
  {
    hide Means;
    if n > 0 {
      SameTotal(g, t, adj, n - 1);
      assert AllMean(g.ids, t, adj[n - 1], g.adj[n - 1]);
    }
  }

  lemma DegreesBelowTotal(adj: Adjacency)
    ensures forall i :: 0 <= i < |adj| ==> |adj[i]| <= EdgeTotal(adj, |adj|)
  {
    forall i | 0 <= i < |adj|
      ensures |adj[i]| <= EdgeTotal(adj, |adj|)
    {
      EdgeTotalGrows(adj, i + 1, |adj|);
    }
  }

  ghost predicate NoDanglingEdge(g: Graph) {
    forall i, e :: 0 <= i < |g.adj| && e in g.adj[i] ==> e.to in g.ids
  }

  method CountEdges(adj: seq<seq<LogicalEdge>>) returns (n: nat)
    ensures n == LogicalEdges(adj, |adj|)
  {
    n := 0;
    for i := 0 to |adj|
      invariant n == LogicalEdges(adj, i)
    {
      n := n + |adj[i]|;
    }
  }

  /** Writes a graph. What is written opens again and reads back as the same graph; a graph within the
      limits of the format and without dangling edges is written. */
  method WriteGraph(g: Graph) returns (r: Option<Store>)
    requires WellFormed(g)
    ensures r.Some? ==> Accepts(r.value) && Lossless(g, r.value) && NoDanglingEdge(g)
    ensures r.Some? ==> 0 < |g.ids| < WORD && LogicalEdges(g.adj, |g.adj|) < WORD
    ensures 0 < |g.ids| < CHAIN_REVERSE - 1 && LogicalEdges(g.adj, |g.adj|) < CHAIN_FLAG && NoDanglingEdge(g) ==>
      r.Some?
  {
    var edgeCount := CountEdges(g.adj);
    if |g.ids| == 0 || |g.ids| >= WORD || edgeCount >= WORD {
      return None;
    }
    var ok, adj, t := Encode(g);
    if !ok {
      return None;
    }
    EncodedTargets(g, t, adj);
    SameTotal(g, t, adj, |adj|);
    DegreesBelowTotal(adj);
    var pk, tooLarge, flagged := PackGraphChains(adj);
    if tooLarge {
      return None;
    }
    var good, nodes := WriteNodes(g.ids, adj, pk, flagged);
    if !good {
      return None;
    }
    var edges := WriteEdges(adj, pk);
    var d := StoreOf(nodes, edges, t, pk, edgeCount);
    WrittenIsAccepted(g.ids, adj, t, pk, flagged, d);
    WrittenIsLossless(g, adj, t, pk, flagged, d);
    return Some(d);
  }

  lemma EncodedTargets(g: Graph, t: Tables, adj: Adjacency)
    requires WellFormed(g) && |adj| == |g.adj| && Encodes(g, t, adj, |adj|)
    ensures TargetsExist(adj) && NoDanglingEdge(g)
    ensures forall i, e :: 0 <= i < |adj| && e in adj[i] ==> e.attribute < |t.attributes|
  {
    forall i, e | 0 <= i < |g.adj| && e in g.adj[i]
      ensures e.to in g.ids
    {
      var k :| 0 <= k < |g.adj[i]| && g.adj[i][k] == e;
      assert AllMean(g.ids, t, adj[i], g.adj[i]);
      assert Means(g.ids, t, adj[i][k], e);
    }
    forall i, e | 0 <= i < |adj| && e in adj[i]
      ensures e.target < |adj| && e.attribute < |t.attributes|
    {
      var k :| 0 <= k < |adj[i]| && adj[i][k] == e;
      assert AllMean(g.ids, t, adj[i], g.adj[i]);
      assert Means(g.ids, t, e, g.adj[i][k]);
    }
  }
}
