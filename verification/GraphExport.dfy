/** An accepted store seen as a graph in memory (`export` in core/router_store.go): every node with its
    outgoing edges, all edges in one shared array. */
module GraphExport {
  import opened GraphStore
  import opened GraphReader
  import opened GraphAcceptance
  import opened AttributeCosts
  import opened RouteCosts
  import opened Spans
  import opened NodeSearch

  /** A stored edge as callers see it: the target by its OSM id, the attributes decoded. */
  function EdgeOf(d: Store, f64: Float64, e: EdgeRec): Edge
    requires Readable(d) && e.target < |d.nodes| && e.attribute < |d.attributes|
  {
    assert d.attributes[e.attribute] in d.attributes;
    Edge(d.nodes[e.target].id, f64(e.distance), AttributesOf(d, f64, e.attribute))
  }

  function EdgesAt(d: Store, f64: Float64, i: nat): (es: seq<Edge>)
    requires Readable(d) && i < |d.nodes|
    ensures |es| == EdgeRange(d, i).1
    ensures forall k :: 0 <= k < |es| ==> es[k] == EdgeOf(d, f64, CompactEdges(d, i)[k])
  {
    var compact := CompactEdges(d, i);
    seq(|compact|, k requires 0 <= k < |compact| => assert compact[k] in compact; EdgeOf(d, f64, compact[k]))
  }

  /** The OSM id at an index; an index without a record stands for id 0. */
  function IdAt(d: Store, i: nat): int {
    if i < |d.nodes| then d.nodes[i].id else 0
  }

  /** The graph in memory that a store stands for. */
  ghost function Exported(d: Store, f64: Float64): (g: MemoryGraph)
    requires Readable(d) && SortedIds(d)
  {
    hide EdgesAt;
    hide Readable;
    MemoryGraph(set i | 0 <= i < |d.nodes| :: d.nodes[i].id,
                map i | 0 <= i < |d.nodes| && EdgeRange(d, i).1 > 0 :: d.nodes[i].id := EdgesAt(d, f64, i))
  }

  /** The edges found under an id are those of its record, and an id without a record has none. */
  lemma ExportedEdges(d: Store, f64: Float64, i: nat)
    requires Readable(d) && SortedIds(d) && i < |d.nodes|
    ensures Exported(d, f64).Edges(d.nodes[i].id) == EdgesAt(d, f64, i)
    ensures d.nodes[i].id in Exported(d, f64).coords
  {
    hide EdgesAt;
    hide Readable;
    if EdgeRange(d, i).1 == 0 {
      assert EdgesAt(d, f64, i) == [];
    }
  }

  lemma ExportedAt(d: Store, f64: Float64, i: nat)
    requires Readable(d) && SortedIds(d) && i < |d.nodes|
    ensures d.nodes[i].id in Exported(d, f64).coords
    ensures d.nodes[i].id in Exported(d, f64).adj <==> EdgeRange(d, i).1 > 0
    ensures EdgeRange(d, i).1 > 0 ==> Exported(d, f64).adj[d.nodes[i].id] == EdgesAt(d, f64, i)
  {
    hide EdgesAt;
    hide Readable;
    hide EdgeRange;
  }

  lemma ExportedFrom(d: Store, f64: Float64, id: int) returns (i: nat)
    requires Readable(d) && SortedIds(d) && (id in Exported(d, f64).coords || id in Exported(d, f64).adj)
    ensures i < |d.nodes| && d.nodes[i].id == id
  {
    hide EdgesAt;
    hide Readable;
    hide EdgeRange;
    i :| i < |d.nodes| && d.nodes[i].id == id;
  }

  // ---- The shared edge array ----

  ghost function Degrees(d: Store): (sizes: seq<nat>)
    ensures |sizes| == |d.nodes|
  {
    seq(|d.nodes|, i requires 0 <= i < |d.nodes| => EdgeRange(d, i).1)
  }

  /** Chain nodes count two edges each, ordinary nodes the stored edges they claim. */
  lemma {:induction false} DegreesAddUp(d: Store, n: nat)
    requires n <= |d.nodes|
    ensures Start(Degrees(d), n) == ExplicitBefore(d, n) + 2 * FlaggedCount(d, n)
    ensures !d.chained ==> FlaggedCount(d, n) == 0
  {
    if n > 0 {
      DegreesAddUp(d, n - 1);
    }
  }

  /** The ranges of the ordinary nodes follow one another, and all degrees together fill the array. */
  lemma ExportFits(d: Store, i: nat)
    requires Accepts(d) && i < |d.nodes|
    ensures !d.chained ==> d.nodes[i].first == Start(Degrees(d), i)
    ensures Start(Degrees(d), |d.nodes|) == d.edgeCount
  {
    DegreesAddUp(d, i);
    DegreesAddUp(d, |d.nodes|);
    assert NodeOk(d, i);
  }

  /** Row `k` once the first `i` nodes and `j` edges of the next one are copied. */
  ghost function Row(d: Store, f64: Float64, i: nat, j: nat, k: nat): seq<Edge>
    requires Readable(d) && k < |d.nodes|
  {
    if k < i then EdgesAt(d, f64, k) else if k == i && j <= |EdgesAt(d, f64, k)| then EdgesAt(d, f64, k)[..j] else []
  }

  ghost function Copied(d: Store, f64: Float64, i: nat, j: nat): (rows: seq<seq<Edge>>)
    requires Readable(d)
    ensures |rows| == |d.nodes| && forall k :: 0 <= k < |rows| ==> rows[k] == Row(d, f64, i, j, k)
  {
    seq(|d.nodes|, k requires 0 <= k < |d.nodes| => Row(d, f64, i, j, k))
  }

  lemma CopyOne(d: Store, f64: Float64, entries: seq<Edge>, i: nat, j: nat)
    requires Readable(d) && i < |d.nodes| && j < |EdgesAt(d, f64, i)|
    requires Filled(entries, Degrees(d), Copied(d, f64, i, j))
    ensures Start(Degrees(d), i) + j < |entries|
    ensures Filled(entries[Start(Degrees(d), i) + j := EdgesAt(d, f64, i)[j]], Degrees(d), Copied(d, f64, i, j + 1))
  {
    hide *;
    var rows, rows', e := Copied(d, f64, i, j), Copied(d, f64, i, j + 1), EdgesAt(d, f64, i)[j];
    RowGains(d, f64, i, j, i);
    DegreeAt(d, f64, i);
    Appended(entries, Degrees(d), rows, i, e);
    forall k | 0 <= k < |d.nodes|
      ensures rows'[k] == rows[i := rows[i] + [e]][k]
    {
      RowGains(d, f64, i, j, k);
    }
    assert rows' == rows[i := rows[i] + [e]];
  }

  lemma DegreeAt(d: Store, f64: Float64, i: nat)
    requires Readable(d) && i < |d.nodes|
    ensures Degrees(d)[i] == |EdgesAt(d, f64, i)| == EdgeRange(d, i).1
  {}

  lemma SliceGains<E>(es: seq<E>, j: nat)
    requires j < |es|
    ensures es[..j + 1] == es[..j] + [es[j]]
  {}

  lemma RowOf(d: Store, f64: Float64, i: nat, j: nat, k: nat)
    requires Readable(d) && k < |d.nodes| && (k == i ==> j <= |EdgesAt(d, f64, k)|)
    ensures Row(d, f64, i, j, k) == if k < i then EdgesAt(d, f64, k) else if k == i then EdgesAt(d, f64, k)[..j] else []
  {
    hide EdgesAt;
    hide Readable;
    hide EdgeRange;
    hide CompactEdges;
    hide EdgeOf;
  }

  lemma RowGains(d: Store, f64: Float64, i: nat, j: nat, k: nat)
    requires Readable(d) && i < |d.nodes| && j < |EdgesAt(d, f64, i)| && k < |d.nodes|
    ensures k != i ==> Row(d, f64, i, j + 1, k) == Row(d, f64, i, j, k)
    ensures k == i ==>
      |Row(d, f64, i, j, k)| == j && Row(d, f64, i, j + 1, k) == Row(d, f64, i, j, k) + [EdgesAt(d, f64, i)[j]]
  {
    hide *;
    RowOf(d, f64, i, j, k);
    RowOf(d, f64, i, j + 1, k);
    SliceGains(EdgesAt(d, f64, i), j);
  }

  lemma NodeCopied(d: Store, f64: Float64, i: nat)
    requires Readable(d) && i < |d.nodes|
    ensures Copied(d, f64, i, EdgeRange(d, i).1) == Copied(d, f64, i + 1, 0)
  {
    hide *;
    var j, m := EdgeRange(d, i).1, i + 1;
    forall k: nat | k < |d.nodes|
      ensures Row(d, f64, i, j, k) == Row(d, f64, m, 0, k)
    {
      RowEnds(d, f64, i, k);
    }
    assert Copied(d, f64, i, j) == Copied(d, f64, m, 0);
  }

  lemma RowEnds(d: Store, f64: Float64, i: nat, k: nat)
    requires Readable(d) && i < |d.nodes| && k < |d.nodes|
    ensures Row(d, f64, i, EdgeRange(d, i).1, k) == Row(d, f64, i + 1, 0, k)
  {
    hide EdgesAt;
    hide Readable;
    hide EdgeRange;
  }

  lemma NothingCopied(d: Store, f64: Float64, entries: seq<Edge>)
    requires Readable(d) && |entries| == Start(Degrees(d), |d.nodes|)
    ensures Filled(entries, Degrees(d), Copied(d, f64, 0, 0))
  {
    hide Readable;
    hide EdgesAt;
    hide Filled;
    NothingFilled(entries, Degrees(d), Copied(d, f64, 0, 0));
  }

  /** A node with edges has been handed its part of the array. */
  ghost predicate HasSpan(d: Store, spans: map<int, (nat, nat)>, i: nat)
    requires i < |d.nodes|
  {
    && (d.nodes[i].id in spans <==> EdgeRange(d, i).1 > 0)
    && (d.nodes[i].id in spans ==> spans[d.nodes[i].id] == (Start(Degrees(d), i), Start(Degrees(d), i + 1)))
  }

  ghost predicate IsNode(d: Store, n: nat, id: int)
    requires n <= |d.nodes|
  {
    exists i :: 0 <= i < n && d.nodes[i].id == id
  }

  /** The spans handed out for the first `n` nodes. */
  ghost predicate Sliced(d: Store, spans: map<int, (nat, nat)>, n: nat)
    requires n <= |d.nodes|
  {
    && (forall i :: 0 <= i < n ==> HasSpan(d, spans, i))
    && (forall id :: id in spans ==> IsNode(d, n, id))
  }

  lemma SliceOne(d: Store, spans: map<int, (nat, nat)>, n: nat)
    requires n < |d.nodes| && SortedIds(d) && Sliced(d, spans, n)
    ensures EdgeRange(d, n).1 == 0 ==> Sliced(d, spans, n + 1)
    ensures EdgeRange(d, n).1 > 0 ==>
      Sliced(d, spans[d.nodes[n].id := (Start(Degrees(d), n), Start(Degrees(d), n + 1))], n + 1)
  {
    hide Start;
    hide Degrees;
    hide EdgeRange;
    var spans' := if EdgeRange(d, n).1 == 0 then spans
                  else spans[d.nodes[n].id := (Start(Degrees(d), n), Start(Degrees(d), n + 1))];
    assert d.nodes[n].id !in spans;
    forall i: nat | i < n + 1
      ensures HasSpan(d, spans', i)
    {
      if i < n {
        assert HasSpan(d, spans, i);
      }
    }
    forall id | id in spans'
      ensures IsNode(d, n + 1, id)
    {
      assert id == d.nodes[n].id || IsNode(d, n, id);
    }
  }

  lemma SpanOf(d: Store, f64: Float64, entries: seq<Edge>, i: nat)
    requires Readable(d) && i < |d.nodes| && Filled(entries, Degrees(d), Copied(d, f64, |d.nodes|, 0))
    ensures Start(Degrees(d), i) <= Start(Degrees(d), i + 1) <= |entries|
    ensures entries[Start(Degrees(d), i)..Start(Degrees(d), i + 1)] == EdgesAt(d, f64, i)
  {
    hide Readable;
    hide EdgesAt;
    hide Filled;
    RowRead(entries, Degrees(d), Copied(d, f64, |d.nodes|, 0), i);
  }

  /** What is under an id's span is what the exported graph has under that id. */
  lemma SpanFits(d: Store, f64: Float64, entries: seq<Edge>, spans: map<int, (nat, nat)>, id: int)
    requires Readable(d) && SortedIds(d) && Sliced(d, spans, |d.nodes|)
    requires Filled(entries, Degrees(d), Copied(d, f64, |d.nodes|, 0))
    ensures id in spans <==> id in Exported(d, f64).adj
    ensures id in spans ==> spans[id].0 <= spans[id].1 <= |entries|
    ensures id in spans ==> entries[spans[id].0..spans[id].1] == Exported(d, f64).adj[id]
  {
    hide Readable;
    hide EdgesAt;
    hide Filled;
    hide Start;
    hide EdgeRange;
    hide Row;
    hide Degrees;
    if id in spans {
      assert IsNode(d, |d.nodes|, id);
    }
    if i: nat :| i < |d.nodes| && d.nodes[i].id == id {
      assert HasSpan(d, spans, i);
      SpanOf(d, f64, entries, i);
    }
  }

  lemma SpansFit(d: Store, f64: Float64, entries: seq<Edge>, spans: map<int, (nat, nat)>)
    requires Readable(d) && SortedIds(d) && Sliced(d, spans, |d.nodes|)
    requires Filled(entries, Degrees(d), Copied(d, f64, |d.nodes|, 0))
    ensures forall id :: id in spans ==> spans[id].0 <= spans[id].1 <= |entries|
    ensures (map id | id in spans :: entries[spans[id].0..spans[id].1]) == Exported(d, f64).adj
  {
    hide *;
    forall id: int
      ensures id in spans <==> id in Exported(d, f64).adj
      ensures id in spans ==> spans[id].0 <= spans[id].1 <= |entries|
      ensures id in spans ==> entries[spans[id].0..spans[id].1] == Exported(d, f64).adj[id]
    {
      SpanFits(d, f64, entries, spans, id);
    }
  }

  /** Copies the edges of all nodes into one array and hands each node its own part of it. No part
      is overwritten by a neighbouring node's edges. */
  method Export(d: Store, f64: Float64) returns (g: MemoryGraph)
    requires Accepts(d)
    ensures Readable(d) && SortedIds(d) && g == Exported(d, f64)
  {
    hide *;
    AcceptedReadable(d);
    ghost var sizes := Degrees(d);
    AcceptedNotEmpty(d);
    ExportFits(d, 0);
    var coords: set<int> := {};
    var spans: map<int, (nat, nat)> := map[];
    var edges := new Edge[d.edgeCount](_ => Edge(0, 0.0, Attributes(0.0, 0.0, 0.0, "")));
    NothingCopied(d, f64, edges[..]);
    NothingSliced(d);
    var logicalStart: nat := 0;
    StartsAtZero(sizes);
    for i := 0 to |d.nodes|
      invariant coords == set k | 0 <= k < i :: d.nodes[k].id
      invariant d.chained ==> logicalStart == Start(sizes, i)
      invariant Sliced(d, spans, i)
      invariant Filled(edges[..], sizes, Copied(d, f64, i, 0))
    {
      coords := coords + {d.nodes[i].id};
      var (start, count) := EdgeRange(d, i);
      ExportFits(d, i);
      RangeOf(d, i);
      NextStart(d, i);
      if d.chained {
        start := logicalStart;
        logicalStart := logicalStart + count;
      }
      SliceOne(d, spans, i);
      if count > 0 {
        for j := 0 to count
          invariant Filled(edges[..], sizes, Copied(d, f64, i, j))
        {
          CopyOne(d, f64, edges[..], i, j);
          CompactEdgeAt(d, i, j);
          edges[start + j] := EdgeOf(d, f64, CompactEdges(d, i)[j]);
        }
        spans := spans[d.nodes[i].id := (start, start + count)];
      }
      NodeCopied(d, f64, i);
    }
    SpansFit(d, f64, edges[..], spans);
    ExportedParts(d, f64, coords);
    var adj := map id | id in spans :: edges[..][spans[id].0..spans[id].1];
    g := MemoryGraph(coords, adj);
  }

  lemma AcceptedNotEmpty(d: Store)
    requires Accepts(d)
    ensures |d.nodes| > 0
  {}

  lemma NothingSliced(d: Store)
    requires SortedIds(d)
    ensures Sliced(d, map[], 0)
  {}

  lemma StartsAtZero(sizes: seq<nat>)
    ensures Start(sizes, 0) == 0
  {}

  lemma RangeOf(d: Store, i: nat)
    requires i < |d.nodes|
    ensures !d.chained ==> EdgeRange(d, i).0 == d.nodes[i].first
  {}

  lemma NextStart(d: Store, i: nat)
    requires i < |d.nodes|
    ensures Start(Degrees(d), i + 1) == Start(Degrees(d), i) + EdgeRange(d, i).1
  {}

  lemma CompactEdgeAt(d: Store, i: nat, j: nat)
    requires Readable(d) && i < |d.nodes| && j < EdgeRange(d, i).1
    ensures |CompactEdges(d, i)| == EdgeRange(d, i).1
    ensures CompactEdges(d, i)[j].target < |d.nodes| && CompactEdges(d, i)[j].attribute < |d.attributes|
  {
    assert CompactEdges(d, i)[j] in CompactEdges(d, i);
  }

  lemma ExportedParts(d: Store, f64: Float64, coords: set<int>)
    requires Readable(d) && SortedIds(d) && coords == set k | 0 <= k < |d.nodes| :: d.nodes[k].id
    ensures Exported(d, f64).coords == coords
  {}
}
