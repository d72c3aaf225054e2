/** Writing a graph as records and reading it back unchanged (`WriteGraph` in core/router_store.go). */
module GraphWriter {
  import opened Common
  import opened GraphStore
  import opened ChainRuns
  import opened ChainPacking
  import opened GraphPacking

  /** An edge as routing sees it: target id, and the bit patterns of its numbers. */
  datatype LogicalEdge = LogicalEdge(to: int, distance: nat, speed: nat, height: nat, weight: nat, highway: string)

  /** The nodes in id order, each with its outgoing edges. */
  datatype Graph = Graph(ids: seq<int>, adj: seq<seq<LogicalEdge>>)

  ghost predicate WellFormed(g: Graph) {
    |g.ids| == |g.adj| && forall i, j :: 0 <= i < j < |g.ids| ==> g.ids[i] < g.ids[j]
  }

  // ---- Interning highway classes and attribute tuples ----

  datatype Tables = Tables(classes: seq<string>, classIds: map<string, nat>,
                           attributes: seq<AttributeRec>, attributeIds: map<AttributeRec, nat>)

  ghost predicate TablesOk(t: Tables) {
    && (forall h :: h in t.classIds ==> t.classIds[h] < |t.classes| && t.classes[t.classIds[h]] == h)
    && (forall i :: 0 <= i < |t.classes| ==> t.classes[i] in t.classIds && t.classIds[t.classes[i]] == i)
    && (forall a :: a in t.attributeIds ==> t.attributeIds[a] < |t.attributes| && t.attributes[t.attributeIds[a]] == a)
    && (forall i :: 0 <= i < |t.attributes| ==>
      t.attributes[i] in t.attributeIds && t.attributeIds[t.attributes[i]] == i)
    && (forall i :: 0 <= i < |t.attributes| ==> t.attributes[i].class_ < |t.classes|)
  }

  ghost predicate Extend(t: Tables, t': Tables) {
    t.classes <= t'.classes && t.attributes <= t'.attributes
  }

  /** The record stands for the edge under the tables. */
  ghost predicate Means(ids: seq<int>, t: Tables, r: EdgeRec, e: LogicalEdge) {
    && r.target < |ids| && ids[r.target] == e.to
    && r.distance == e.distance
    && r.attribute < |t.attributes|
    && var a := t.attributes[r.attribute];
       a.speed == e.speed && a.height == e.height && a.weight == e.weight
       && a.class_ < |t.classes| && t.classes[a.class_] == e.highway
  }

  lemma MeaningSurvives(ids: seq<int>, t: Tables, t': Tables, r: EdgeRec, e: LogicalEdge)
    requires Extend(t, t') && Means(ids, t, r, e)
    ensures Means(ids, t', r, e)
  {}

  /** Two edges share an attribute record exactly when their attributes agree: comparing indices
      during packing is comparing the attributes themselves. */
  lemma SameIndexSameAttributes(ids: seq<int>, t: Tables, r: EdgeRec, e: LogicalEdge, r': EdgeRec, e': LogicalEdge)
    requires TablesOk(t) && Means(ids, t, r, e) && Means(ids, t, r', e')
    ensures r.attribute == r'.attribute <==>
      e.speed == e'.speed && e.height == e'.height && e.weight == e'.weight && e.highway == e'.highway
  {
    var a, a' := t.attributes[r.attribute], t.attributes[r'.attribute];
    if e.highway == e'.highway {
      assert t.classIds[t.classes[a.class_]] == a.class_ && t.classIds[t.classes[a'.class_]] == a'.class_;
    }
    if a == a' {
      assert t.attributeIds[a] == r.attribute && t.attributeIds[a'] == r'.attribute;
    }
  }

  method InternClass(t: Tables, highway: string) returns (t': Tables, class_: nat)
    requires TablesOk(t)
    ensures TablesOk(t') && Extend(t, t') && class_ < |t'.classes| && t'.classes[class_] == highway
    ensures t'.attributes == t.attributes
  {
    if highway in t.classIds {
      return t, t.classIds[highway];
    }
    class_ := |t.classes|;
    t' := t.(classes := t.classes + [highway], classIds := t.classIds[highway := class_]);
  }

  method InternAttributes(t: Tables, a: AttributeRec) returns (t': Tables, attribute: nat)
    requires TablesOk(t) && a.class_ < |t.classes|
    ensures TablesOk(t') && Extend(t, t') && attribute < |t'.attributes| && t'.attributes[attribute] == a
    ensures |t'.attributes| <= |t.attributes| + 1
  {
    if a in t.attributeIds {
      return t, t.attributeIds[a];
    }
    attribute := |t.attributes|;
    t' := t.(attributes := t.attributes + [a], attributeIds := t.attributeIds[a := attribute]);
  }

  /** The rank of an id in the sorted table. */
  method Rank(ids: seq<int>, id: int) returns (r: Option<nat>)
    requires forall i, j :: 0 <= i < j < |ids| ==> ids[i] < ids[j]
    ensures r.Some? ==> r.value < |ids| && ids[r.value] == id
    ensures r.None? ==> id !in ids
  {
    var lo, hi := 0, |ids|;
    while lo < hi
      invariant 0 <= lo <= hi <= |ids|
      invariant forall i :: 0 <= i < lo ==> ids[i] < id
      invariant forall i :: hi <= i < |ids| ==> ids[i] >= id
    {
      var mid := (lo + hi) / 2;
      if ids[mid] >= id {
        hi := mid;
      } else {
        lo := mid + 1;
      }
    }
    if lo == |ids| || ids[lo] != id {
      return None;
    }
    return Some(lo);
  }

  method EncodeEdge(ids: seq<int>, t: Tables, e: LogicalEdge) returns (r: Option<EdgeRec>, t': Tables)
    requires TablesOk(t) && forall i, j :: 0 <= i < j < |ids| ==> ids[i] < ids[j]
    ensures TablesOk(t') && Extend(t, t') && |t'.attributes| <= |t.attributes| + 1
    ensures if r.Some? then Means(ids, t', r.value, e) else e.to !in ids
  {
    var target := Rank(ids, e.to);
    if target.None? {
      return None, t;
    }
    var class_, attribute;
    t', class_ := InternClass(t, e.highway);
    ghost var mid := t';
    t', attribute := InternAttributes(t', AttributeRec(e.speed, e.height, e.weight, class_));
    assert t'.classes[..|mid.classes|] == mid.classes;
    r := Some(EdgeRec(target.value, attribute, e.distance));
  }

  ghost predicate AllMean(ids: seq<int>, t: Tables, rs: seq<EdgeRec>, es: seq<LogicalEdge>) {
    |rs| == |es| && forall k :: 0 <= k < |rs| ==> Means(ids, t, rs[k], es[k])
  }

  lemma AllSurvive(ids: seq<int>, t: Tables, t': Tables, rs: seq<EdgeRec>, es: seq<LogicalEdge>)
    requires Extend(t, t') && AllMean(ids, t, rs, es)
    ensures AllMean(ids, t', rs, es)
  {
    forall k | 0 <= k < |rs|
      ensures Means(ids, t', rs[k], es[k])
    {
      MeaningSurvives(ids, t, t', rs[k], es[k]);
    }
  }

  method EncodeNode(ids: seq<int>, t: Tables, es: seq<LogicalEdge>) returns (ok: bool, rs: seq<EdgeRec>, t': Tables)
    requires TablesOk(t) && forall i, j :: 0 <= i < j < |ids| ==> ids[i] < ids[j]
    ensures TablesOk(t') && Extend(t, t') && |t'.attributes| <= |t.attributes| + |es|
    ensures if ok then AllMean(ids, t', rs, es) else exists e :: e in es && e.to !in ids
  {
    hide TablesOk;
    hide Means;
    rs, t' := [], t;
    for k := 0 to |es|
      invariant TablesOk(t') && Extend(t, t') && |t'.attributes| <= |t.attributes| + k
      invariant AllMean(ids, t', rs, es[..k])
    {
      var r, t'' := EncodeEdge(ids, t', es[k]);
      if r.None? {
        assert es[k] in es;
        return false, rs, t'';
      }
      AllSurvive(ids, t', t'', rs, es[..k]);
      rs, t' := rs + [r.value], t'';
    }
    assert es[..|es|] == es;
    ok := true;
  }

  /** The records of every node under the final tables. */
  ghost predicate Encodes(g: Graph, t: Tables, adj: Adjacency, n: nat) {
    n <= |adj| <= |g.adj| && forall i :: 0 <= i < n ==> AllMean(g.ids, t, adj[i], g.adj[i])
  }

  method Encode(g: Graph) returns (ok: bool, adj: Adjacency, t: Tables)
    requires WellFormed(g)
    ensures ok ==> TablesOk(t) && |adj| == |g.adj| && Encodes(g, t, adj, |adj|)
    ensures ok ==> |t.attributes| <= EdgeTotal(adj, |adj|)
    ensures !ok ==> exists i, e :: 0 <= i < |g.adj| && e in g.adj[i] && e.to !in g.ids
  {
    adj, t := [], Tables([], map[], [], map[]);
    for n := 0 to |g.ids|
      invariant TablesOk(t) && |adj| == n && Encodes(g, t, adj, n)
      invariant |t.attributes| <= EdgeTotal(adj, n)
    {
      var good, rs, t' := EncodeNode(g.ids, t, g.adj[n]);
      if !good {
        return false, adj, t';
      }
      forall i | 0 <= i < n
        ensures AllMean(g.ids, t', adj[i], g.adj[i])
      {
        AllSurvive(g.ids, t, t', adj[i], g.adj[i]);
      }
      EdgeTotalOfPrefix(adj, rs, n);
      adj, t := adj + [rs], t';
    }
    ok := true;
  }

  lemma {:induction false} EdgeTotalOfPrefix(adj: Adjacency, rs: seq<EdgeRec>, n: nat)
    requires n <= |adj|
    ensures EdgeTotal(adj + [rs], n) == EdgeTotal(adj, n)
  {
    if n > 0 {
      EdgeTotalOfPrefix(adj, rs, n - 1);
    }
  }

  // ---- Records ----

  predicate IsPacked(pk: Option<Packing>, i: nat) {
    pk.Some? && i < |pk.value.nodePosition| && pk.value.nodePosition[i] != 0
  }

  /** The explicit edges of the ordinary nodes among the first `n`. */
  function OrdinaryEdges(adj: Adjacency, pk: Option<Packing>, n: nat): seq<EdgeRec>
    requires n <= |adj|
  {
    if n == 0 then [] else OrdinaryEdges(adj, pk, n - 1) + if IsPacked(pk, n - 1) then [] else adj[n - 1]
  }

  lemma {:induction false} OrdinaryPrefix(adj: Adjacency, pk: Option<Packing>, m: nat, n: nat)
    requires m <= n <= |adj|
    ensures OrdinaryEdges(adj, pk, m) <= OrdinaryEdges(adj, pk, n)
    ensures |OrdinaryEdges(adj, pk, n)| - |OrdinaryEdges(adj, pk, m)| <= EdgeTotal(adj, n) - EdgeTotal(adj, m)
    decreases n
  {
    if m < n {
      OrdinaryPrefix(adj, pk, m, n - 1);
    }
  }

  /** An ordinary node's edges are where its record says. */
  lemma OrdinaryRange(adj: Adjacency, pk: Option<Packing>, i: nat)
    requires i < |adj| && !IsPacked(pk, i)
    ensures var start := |OrdinaryEdges(adj, pk, i)|;
      && start + |adj[i]| <= |OrdinaryEdges(adj, pk, |adj|)|
      && OrdinaryEdges(adj, pk, |adj|)[start..start + |adj[i]|] == adj[i]
  {
    OrdinaryPrefix(adj, pk, i + 1, |adj|);
    SliceAfter(OrdinaryEdges(adj, pk, |adj|), OrdinaryEdges(adj, pk, i), adj[i]);
  }

  lemma SliceAfter<T>(whole: seq<T>, a: seq<T>, b: seq<T>)
    requires a + b <= whole
    ensures whole[|a|..|a| + |b|] == b
  {
    assert whole[..|a| + |b|] == a + b;
    assert whole[|a|..|a| + |b|] == whole[..|a| + |b|][|a|..];
  }

  lemma {:induction false} OrdinaryMembers(adj: Adjacency, pk: Option<Packing>, n: nat, e: EdgeRec)
    requires n <= |adj| && e in OrdinaryEdges(adj, pk, n)
    ensures exists i :: 0 <= i < n && e in adj[i]
  {
    if e in OrdinaryEdges(adj, pk, n - 1) {
      OrdinaryMembers(adj, pk, n - 1, e);
    } else {
      assert e in adj[n - 1];
    }
  }

  ghost predicate NodeWritten(ids: seq<int>, adj: Adjacency, pk: Option<Packing>, i: nat, n: NodeRec)
    requires i < |adj| && |ids| == |adj|
  {
    && n.id == ids[i]
    && if IsPacked(pk, i) then
         i < |pk.value.nodeChain| && n.first == pk.value.nodeChain[i] && n.second == pk.value.nodePosition[i]
       else
         n.first == |OrdinaryEdges(adj, pk, i)| && n.second == |adj[i]| && |adj[i]| < CHAIN_FLAG
  }

  ghost predicate PackingFits(adj: Adjacency, pk: Option<Packing>, flagged: seq<bool>)
    requires TargetsExist(adj)
  {
    pk.Some? ==> PackInv(adj, flagged, pk.value) && |pk.value.chains| > 0 && |pk.value.vertices| < WORD
  }

  lemma {:induction false} ChainsStartLate(chains: seq<ChainRec>, vertices: nat, c: nat)
    requires Tiled(chains, vertices) && c < |chains|
    ensures chains[c].start >= 5 * c
  {
    if c > 0 {
      ChainsStartLate(chains, vertices, c - 1);
      assert TileFits(chains, vertices, c - 1);
    }
  }

  /** A chain index fits its 32-bit word. */
  lemma ChainIndexFits(adj: Adjacency, pk: Packing, flagged: seq<bool>, i: nat)
    requires TargetsExist(adj) && PackInv(adj, flagged, pk) && |pk.vertices| < WORD
    requires i < |adj| && pk.nodePosition[i] != 0
    ensures pk.nodeChain[i] < WORD
  {
    assert Placed(flagged, pk, i);
    var c := pk.nodeChain[i];
    ChainsStartLate(pk.chains, |pk.vertices|, c);
    TileBounds(pk.chains, |pk.vertices|, c);
  }

  lemma PackedWords(adj: Adjacency, pk: Option<Packing>, flagged: seq<bool>, i: nat)
    requires TargetsExist(adj) && PackingFits(adj, pk, flagged) && i < |adj| && IsPacked(pk, i)
    ensures i < |pk.value.nodeChain| && pk.value.nodeChain[i] < WORD
  {
    ChainIndexFits(adj, pk.value, flagged, i);
  }

  /** Writes the node table; fails on a degree that does not fit beside the chain flag. */
  method WriteNodes(ids: seq<int>, adj: Adjacency, pk: Option<Packing>, ghost flagged: seq<bool>)
    returns (ok: bool, nodes: seq<NodeRec>)
    requires TargetsExist(adj) && |ids| == |adj| && EdgeTotal(adj, |adj|) < WORD && PackingFits(adj, pk, flagged)
    ensures ok ==> |nodes| == |adj| && forall i :: 0 <= i < |adj| ==> NodeWritten(ids, adj, pk, i, nodes[i])
    ensures !ok ==> exists i :: 0 <= i < |adj| && |adj[i]| >= CHAIN_FLAG
  {
    hide PackingFits;
    nodes := [];
    var edgeStart := 0;
    for n := 0 to |ids|
      invariant |nodes| == n && edgeStart == |OrdinaryEdges(adj, pk, n)|
      invariant forall i :: 0 <= i < n ==> NodeWritten(ids, adj, pk, i, nodes[i])
    {
      OrdinaryPrefix(adj, pk, 0, n);
      OrdinaryPrefix(adj, pk, n, |adj|);
      EdgeTotalGrows(adj, n, |adj|);
      if IsPacked(pk, n) {
        PackedWords(adj, pk, flagged, n);
        nodes := nodes + [NodeRec(ids[n], pk.value.nodeChain[n], pk.value.nodePosition[n])];
      } else {
        var degree := |adj[n]|;
        if degree >= CHAIN_FLAG {
          return false, nodes;
        }
        nodes := nodes + [NodeRec(ids[n], edgeStart, degree)];
        edgeStart := edgeStart + degree;
      }
    }
    ok := true;
  }

  lemma {:induction false} EdgeTotalGrows(adj: Adjacency, m: nat, n: nat)
    requires m <= n <= |adj|
    ensures EdgeTotal(adj, m) <= EdgeTotal(adj, n)
    decreases n
  {
    if m < n {
      EdgeTotalGrows(adj, m, n - 1);
    }
  }

  method WriteEdges(adj: Adjacency, pk: Option<Packing>) returns (edges: seq<EdgeRec>)
    ensures edges == OrdinaryEdges(adj, pk, |adj|)
  {
    edges := [];
    for n := 0 to |adj|
      invariant edges == OrdinaryEdges(adj, pk, n)
    {
      if !IsPacked(pk, n) {
        edges := edges + adj[n];
      }
    }
  }

  // ---- Reading back ----

  function StoreOf(nodes: seq<NodeRec>, edges: seq<EdgeRec>, t: Tables, pk: Option<Packing>, edgeCount: nat): Store {
    match pk
    case None => Store(nodes, edges, t.attributes, t.classes, false, [], [], edgeCount)
    case Some(p) => Store(nodes, edges, t.attributes, t.classes, true, p.chains, p.vertices, edgeCount)
  }

  /** What the writer has put down for an adjacency. */
  ghost predicate Written(ids: seq<int>, adj: Adjacency, t: Tables, pk: Option<Packing>, flagged: seq<bool>, d: Store) {
    && TargetsExist(adj) && |ids| == |adj| && PackingFits(adj, pk, flagged)
    && (forall i, e :: 0 <= i < |adj| && e in adj[i] ==> e.attribute < |t.attributes|)
    && TablesOk(t)
    && |d.nodes| == |adj| && (forall i :: 0 <= i < |adj| ==> NodeWritten(ids, adj, pk, i, d.nodes[i]))
    && d == StoreOf(d.nodes, OrdinaryEdges(adj, pk, |adj|), t, pk, EdgeTotal(adj, |adj|))
  }

  /** Ordinary and packed nodes are told apart when reading. */
  lemma PlaceRead(ids: seq<int>, adj: Adjacency, t: Tables, pk: Option<Packing>, flagged: seq<bool>, d: Store, i: nat)
    requires Written(ids, adj, t, pk, flagged, d) && i < |adj|
    ensures if IsPacked(pk, i) then
        ChainNode(d, i)
          == OnChain(pk.value.nodeChain[i], Position(pk.value.nodePosition[i]), Reversed(pk.value.nodePosition[i]))
      else ChainNode(d, i) == Ordinary
  {
    assert NodeWritten(ids, adj, pk, i, d.nodes[i]);
    if IsPacked(pk, i) {
      assert Placed(flagged, pk.value, i);
    }
  }

  lemma ChainAttributeExists(ids: seq<int>, adj: Adjacency, t: Tables, pk: Option<Packing>, flagged: seq<bool>,
      d: Store, c: nat)
    requires Written(ids, adj, t, pk, flagged, d) && c < |d.chains|
    ensures d.chains[c].attribute < |d.attributes|
  {
    var p := pk.value;
    assert ChainFits(adj, flagged, p, c);
    var path := PathOf(p, c);
    assert EdgeRec(path[1].node, p.chains[c].attribute, path[0].distance) in adj[path[0].node];
  }

  lemma WrittenReadable(ids: seq<int>, adj: Adjacency, t: Tables, pk: Option<Packing>, flagged: seq<bool>, d: Store)
    requires Written(ids, adj, t, pk, flagged, d)
    ensures Readable(d)
  {
    forall i | 0 <= i < |d.nodes|
      ensures match ChainNode(d, i)
        case Ordinary => d.nodes[i].first + d.nodes[i].second <= |d.edges|
        case OnChain(chain, position, _) => InChain(d, chain, position)
    {
      assert NodeWritten(ids, adj, pk, i, d.nodes[i]);
      PlaceRead(ids, adj, t, pk, flagged, d, i);
      if IsPacked(pk, i) {
        assert Placed(flagged, pk.value, i);
        TileBounds(pk.value.chains, |pk.value.vertices|, pk.value.nodeChain[i]);
      } else {
        OrdinaryRange(adj, pk, i);
      }
    }
    forall e | e in d.edges
      ensures e.target < |d.nodes| && e.attribute < |d.attributes|
    {
      OrdinaryMembers(adj, pk, |adj|, e);
    }
    forall c | c in d.chains
      ensures c.attribute < |d.attributes|
    {
      var k :| 0 <= k < |d.chains| && d.chains[k] == c;
      ChainAttributeExists(ids, adj, t, pk, flagged, d, k);
    }
  }

  /** A packed node's edges are rebuilt from its chain exactly as they were, in their order. */
  lemma PackedDecodes(ids: seq<int>, adj: Adjacency, t: Tables, pk: Option<Packing>, flagged: seq<bool>, d: Store,
      i: nat)
    requires Written(ids, adj, t, pk, flagged, d) && Readable(d) && i < |adj| && IsPacked(pk, i)
    ensures CompactEdges(d, i) == adj[i]
  {
    PlaceRead(ids, adj, t, pk, flagged, d, i);
    var p := pk.value;
    assert Placed(flagged, p, i);
    var c := p.nodeChain[i];
    assert ChainFits(adj, flagged, p, c);
    TileBounds(p.chains, |p.vertices|, c);
    var path, k := PathOf(p, c), Position(p.nodePosition[i]);
    ChainRebuilds(adj, flagged, p, d, c, i, k);
  }

  lemma ChainRebuilds(adj: Adjacency, flagged: seq<bool>, p: Packing, d: Store, c: nat, i: nat, k: nat)
    requires Tiled(p.chains, |p.vertices|) && c < |p.chains| && ChainFits(adj, flagged, p, c)
    requires d.chained && d.chains == p.chains && d.vertices == p.vertices && Readable(d) && i < |d.nodes|
    requires i < |p.nodePosition| && ChainNode(d, i) == OnChain(c, k, Reversed(p.nodePosition[i]))
    requires 1 <= k < |PathOf(p, c)| - 1 && PathOf(p, c)[k].node == i
    ensures i < |adj| && CompactEdges(d, i) == adj[i]
  {
    hide ChainFits;
    hide Readable;
    hide Tiled;
    hide PathOf;
    hide ChainEdge;
    hide CompactEdges;
    hide ChainNode;
    hide Reversed;
    InteriorRead(adj, flagged, p, c, k);
    PathVertex(p, c, k - 1);
    PathVertex(p, c, k);
    PathVertex(p, c, k + 1);
    ChainNodeEdges(d, i, c, k, Reversed(p.nodePosition[i]));
    ChainEdgesRead(d, c, k);
  }

  lemma PathVertex(p: Packing, c: nat, k: nat)
    requires Tiled(p.chains, |p.vertices|) && c < |p.chains| && k < |PathOf(p, c)|
    ensures p.chains[c].start + k < |p.vertices| && PathOf(p, c)[k] == p.vertices[p.chains[c].start + k]
  {
    TileBounds(p.chains, |p.vertices|, c);
  }

  /** The marks of a chain interior tell the order of its two edges. */
  lemma InteriorRead(adj: Adjacency, flagged: seq<bool>, p: Packing, c: nat, k: nat)
    requires Tiled(p.chains, |p.vertices|) && c < |p.chains| && ChainFits(adj, flagged, p, c)
    requires 1 <= k < |PathOf(p, c)| - 1
    ensures var path := PathOf(p, c);
      && path[k].node < |adj| == |p.nodePosition|
      && adj[path[k].node] == RebuiltEdges(path, p.chains[c].attribute, k, Reversed(p.nodePosition[path[k].node]))
  {
    var path := PathOf(p, c);
    assert InteriorOk(adj, flagged, path, p.chains[c].attribute, k);
    assert p.nodePosition[path[k].node] == Flags(k, IsReversed(adj, path, k));
  }

  lemma OrdinaryDecodes(ids: seq<int>, adj: Adjacency, t: Tables, pk: Option<Packing>, flagged: seq<bool>, d: Store,
      i: nat)
    requires Written(ids, adj, t, pk, flagged, d) && Readable(d) && i < |adj| && !IsPacked(pk, i)
    ensures CompactEdges(d, i) == adj[i]
  {
    hide Written;
    hide Readable;
    PlaceRead(ids, adj, t, pk, flagged, d, i);
    OrdinaryRecord(ids, adj, t, pk, flagged, d, i);
    OrdinaryRange(adj, pk, i);
    OrdinaryNodeEdges(d, i, OrdinaryEdges(adj, pk, |adj|), |OrdinaryEdges(adj, pk, i)|, adj[i]);
  }

  lemma OrdinaryRecord(ids: seq<int>, adj: Adjacency, t: Tables, pk: Option<Packing>, flagged: seq<bool>, d: Store,
      i: nat)
    requires Written(ids, adj, t, pk, flagged, d) && i < |adj| && !IsPacked(pk, i)
    ensures |d.nodes| == |adj| && d.edges == OrdinaryEdges(adj, pk, |adj|)
    ensures d.nodes[i].first == |OrdinaryEdges(adj, pk, i)| && d.nodes[i].second == |adj[i]| && |adj[i]| < CHAIN_FLAG
  {
    assert NodeWritten(ids, adj, pk, i, d.nodes[i]);
  }

  lemma OrdinaryNodeEdges(d: Store, i: nat, edges: seq<EdgeRec>, start: nat, own: seq<EdgeRec>)
    requires Readable(d) && i < |d.nodes| && ChainNode(d, i) == Ordinary && d.edges == edges
    requires d.nodes[i].first == start && d.nodes[i].second == |own|
    requires start + |own| <= |edges| && edges[start..start + |own|] == own
    ensures CompactEdges(d, i) == own
  {}

  /** What a reader makes of a record. */
  function DecodeEdge(d: Store, e: EdgeRec): LogicalEdge
    requires e.target < |d.nodes| && e.attribute < |d.attributes| && d.attributes[e.attribute].class_ < |d.classes|
  {
    var a := d.attributes[e.attribute];
    LogicalEdge(d.nodes[e.target].id, e.distance, a.speed, a.height, a.weight, d.classes[a.class_])
  }

  function DecodeNode(d: Store, i: nat): (es: seq<LogicalEdge>)
    requires Readable(d) && i < |d.nodes|
    ensures |es| == |CompactEdges(d, i)|
  {
    seq(|CompactEdges(d, i)|, k requires 0 <= k < |CompactEdges(d, i)| =>
      EdgeInRange(d, i, k);
      DecodeEdge(d, CompactEdges(d, i)[k]))
  }

  lemma EdgeInRange(d: Store, i: nat, k: nat)
    requires Readable(d) && i < |d.nodes| && k < |CompactEdges(d, i)|
    ensures var e := CompactEdges(d, i)[k];
      e.target < |d.nodes| && e.attribute < |d.attributes| && d.attributes[e.attribute].class_ < |d.classes|
  {
    var e := CompactEdges(d, i)[k];
    assert e in CompactEdges(d, i);
    assert d.attributes[e.attribute] in d.attributes;
  }

  /** Every original node and its whole ordered edge list is read back from the store. */
  ghost predicate Lossless(g: Graph, d: Store) {
    && Readable(d) && |d.nodes| == |g.ids| == |g.adj|
    && (forall i :: 0 <= i < |g.ids| ==> d.nodes[i].id == g.ids[i])
    && (forall i :: 0 <= i < |g.ids| ==> DecodeNode(d, i) == g.adj[i])
  }

  lemma WrittenIsLossless(g: Graph, adj: Adjacency, t: Tables, pk: Option<Packing>, flagged: seq<bool>, d: Store)
    requires WellFormed(g) && |adj| == |g.adj| && Encodes(g, t, adj, |adj|)
    requires Written(g.ids, adj, t, pk, flagged, d)
    ensures Lossless(g, d)
  {
    WrittenReadable(g.ids, adj, t, pk, flagged, d);
    forall i | 0 <= i < |g.ids|
      ensures d.nodes[i].id == g.ids[i] && DecodeNode(d, i) == g.adj[i]
    {
      assert NodeWritten(g.ids, adj, pk, i, d.nodes[i]);
      if IsPacked(pk, i) {
        PackedDecodes(g.ids, adj, t, pk, flagged, d, i);
      } else {
        OrdinaryDecodes(g.ids, adj, t, pk, flagged, d, i);
      }
      assert AllMean(g.ids, t, adj[i], g.adj[i]);
      NodeMeans(g, t, pk, flagged, adj, d, i);
    }
  }

  lemma NodeMeans(g: Graph, t: Tables, pk: Option<Packing>, flagged: seq<bool>, adj: Adjacency, d: Store, i: nat)
    requires Written(g.ids, adj, t, pk, flagged, d) && Readable(d) && i < |adj| == |g.adj|
    requires CompactEdges(d, i) == adj[i] && AllMean(g.ids, t, adj[i], g.adj[i])
    ensures DecodeNode(d, i) == g.adj[i]
  {
    forall k | 0 <= k < |adj[i]|
      ensures DecodeNode(d, i)[k] == g.adj[i][k]
    {
      EdgeInRange(d, i, k);
      var r := adj[i][k];
      assert Means(g.ids, t, r, g.adj[i][k]);
      assert NodeWritten(g.ids, adj, pk, r.target, d.nodes[r.target]);
    }
  }
}
