/** The records of the compact graph file and how they are read
    (core/router_store.go, core/router_store_chains.go). Byte offsets are left out: each
    section is a sequence of records, a float64 is its 64-bit pattern. */
module GraphStore {
  import opened Common

  const WORD: nat := 0x1_0000_0000
  const CHAIN_FLAG: nat := 0x8000_0000
  const CHAIN_REVERSE: nat := 0x4000_0000

  type Word = w: nat | w < 0x1_0000_0000

  /** `first` and `second` are the words at offsets 24 and 28: edge start and count of an
      ordinary node, chain index and flagged position of a chain node. */
  datatype NodeRec = NodeRec(id: int, first: Word, second: Word)

  datatype EdgeRec = EdgeRec(target: nat, attribute: nat, distance: nat)

  datatype AttributeRec = AttributeRec(speed: nat, height: nat, weight: nat, class_: nat)

  datatype ChainRec = ChainRec(start: nat, count: nat, attribute: nat, reserved: nat)

  /** `distance` leads to the next vertex of the chain. */
  datatype VertexRec = VertexRec(node: nat, distance: nat)

  datatype Store = Store(
    nodes: seq<NodeRec>, edges: seq<EdgeRec>, attributes: seq<AttributeRec>, classes: seq<string>,
    chained: bool, chains: seq<ChainRec>, vertices: seq<VertexRec>, edgeCount: nat)

  predicate Flagged(w: Word) { w >= CHAIN_FLAG }

  function Position(w: Word): nat { w % CHAIN_REVERSE }

  predicate Reversed(w: Word) { (w / CHAIN_REVERSE) % 2 == 1 }

  function Flags(position: nat, reversed: bool): (w: Word)
    requires position < CHAIN_REVERSE
    ensures Flagged(w) && Position(w) == position && Reversed(w) == reversed
  {
    CHAIN_FLAG + (if reversed then CHAIN_REVERSE else 0) + position
  }

  datatype Place = Ordinary | OnChain(chain: nat, position: nat, reversed: bool)

  function ChainNode(d: Store, i: nat): Place
    requires i < |d.nodes|
  {
    var n := d.nodes[i];
    if d.chained && Flagged(n.second) then OnChain(n.first, Position(n.second), Reversed(n.second)) else Ordinary
  }

  function EdgeRange(d: Store, i: nat): (nat, nat)
    requires i < |d.nodes|
  {
    if d.chained && Flagged(d.nodes[i].second) then (0, 2) else (d.nodes[i].first, d.nodes[i].second)
  }

  /** A chain position with a vertex on either side. */
  ghost predicate InChain(d: Store, chain: nat, position: nat) {
    && chain < |d.chains|
    && 1 <= position
    && d.chains[chain].start + position + 1 < |d.vertices|
  }

  /** Every index a reader follows is in range. */
  ghost predicate Readable(d: Store) {
    && (forall i :: 0 <= i < |d.nodes| ==> match ChainNode(d, i)
          case Ordinary => d.nodes[i].first + d.nodes[i].second <= |d.edges|
          case OnChain(chain, position, _) => InChain(d, chain, position))
    && (forall e :: e in d.edges ==> e.target < |d.nodes| && e.attribute < |d.attributes|)
    && (forall c :: c in d.chains ==> c.attribute < |d.attributes|)
    && (forall v :: v in d.vertices ==> v.node < |d.nodes|)
    && (forall a :: a in d.attributes ==> a.class_ < |d.classes|)
  }

  ghost predicate SortedIds(d: Store) {
    forall i, j :: 0 <= i < j < |d.nodes| ==> d.nodes[i].id < d.nodes[j].id
  }

  /** The edge from a chain node to its next or previous vertex; both directions share the distance. */
  function ChainEdge(d: Store, chain: nat, position: nat, next: bool): (e: EdgeRec)
    requires Readable(d) && InChain(d, chain, position)
    ensures e.target < |d.nodes| && e.attribute < |d.attributes|
  {
    var c := d.chains[chain];
    var target := if next then position + 1 else position - 1;
    var segment := if next then position else position - 1;
    assert d.vertices[c.start + target] in d.vertices && c in d.chains;
    EdgeRec(d.vertices[c.start + target].node, c.attribute, d.vertices[c.start + segment].distance)
  }

  /** The outgoing edges of a node in their stored order, as the edge iterator yields them. */
  function CompactEdges(d: Store, i: nat): (es: seq<EdgeRec>)
    requires Readable(d) && i < |d.nodes|
    ensures |es| == EdgeRange(d, i).1
    ensures forall e :: e in es ==> e.target < |d.nodes| && e.attribute < |d.attributes|
  {
    match ChainNode(d, i)
    case OnChain(chain, position, reversed) =>
      [ChainEdge(d, chain, position, reversed), ChainEdge(d, chain, position, !reversed)]
    case Ordinary =>
      var (start, count) := EdgeRange(d, i);
      assert forall e :: e in d.edges[start..start + count] ==> e in d.edges;
      d.edges[start..start + count]
  }

  lemma ChainNodeEdges(d: Store, i: nat, chain: nat, position: nat, reversed: bool)
    requires Readable(d) && i < |d.nodes| && ChainNode(d, i) == OnChain(chain, position, reversed)
    ensures InChain(d, chain, position)
    ensures CompactEdges(d, i) == [ChainEdge(d, chain, position, reversed), ChainEdge(d, chain, position, !reversed)]
  {}

  lemma ChainEdgesRead(d: Store, chain: nat, position: nat)
    requires Readable(d) && InChain(d, chain, position)
    ensures var (c, v) := (d.chains[chain], d.vertices);
      && ChainEdge(d, chain, position, false)
        == EdgeRec(v[c.start + position - 1].node, c.attribute, v[c.start + position - 1].distance)
      && ChainEdge(d, chain, position, true)
        == EdgeRec(v[c.start + position + 1].node, c.attribute, v[c.start + position].distance)
  {}

  /** The edge that leads on from a chain node entered from `previous`. */
  function ChainContinuation(d: Store, node: nat, previous: nat): (r: Option<EdgeRec>)
    requires Readable(d) && node < |d.nodes|
    ensures r.Some? ==> r.value.target < |d.nodes| && r.value.attribute < |d.attributes|
  {
    match ChainNode(d, node)
    case Ordinary => None
    case OnChain(chain, position, _) =>
      var start := d.chains[chain].start;
      if d.vertices[start + position - 1].node == previous then Some(ChainEdge(d, chain, position, true))
      else if d.vertices[start + position + 1].node == previous then Some(ChainEdge(d, chain, position, false))
      else None
  }

  /** Besides the continuation, a chain node only has an edge back to where it was entered from. */
  lemma ContinuationIsAnEdge(d: Store, node: nat, previous: nat)
    requires Readable(d) && node < |d.nodes| && ChainContinuation(d, node, previous).Some?
    ensures ChainContinuation(d, node, previous).value in CompactEdges(d, node)
  {
    var OnChain(chain, position, reversed) := ChainNode(d, node);
    assert CompactEdges(d, node)[0] == ChainEdge(d, chain, position, reversed);
    assert CompactEdges(d, node)[1] == ChainEdge(d, chain, position, !reversed);
  }

  /** There is one exactly if the node is on a chain and was entered from one of its two neighbours there. */
  lemma ContinuationExists(d: Store, node: nat, previous: nat)
    requires Readable(d) && node < |d.nodes|
    ensures ChainContinuation(d, node, previous).Some? <==>
      ChainNode(d, node).OnChain? && exists e :: e in CompactEdges(d, node) && e.target == previous
  {
    if ChainNode(d, node).OnChain? {
      var OnChain(chain, position, reversed) := ChainNode(d, node);
      var (a, b) := (ChainEdge(d, chain, position, false), ChainEdge(d, chain, position, true));
      assert CompactEdges(d, node)[0] == ChainEdge(d, chain, position, reversed);
      assert CompactEdges(d, node)[1] == ChainEdge(d, chain, position, !reversed);
      assert a in CompactEdges(d, node) && b in CompactEdges(d, node);
    }
  }

  lemma ContinuationIsTheOnlyWayOn(d: Store, node: nat, previous: nat, e: EdgeRec)
    requires Readable(d) && node < |d.nodes|
    requires ChainContinuation(d, node, previous).Some? && e in CompactEdges(d, node)
    ensures e == ChainContinuation(d, node, previous).value || e.target == previous
  {
    var OnChain(chain, position, reversed) := ChainNode(d, node);
    assert e == ChainEdge(d, chain, position, true) || e == ChainEdge(d, chain, position, false);
  }
}
