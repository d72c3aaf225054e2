/** The imported adjacency: counted, allocated as one block, filled in a second pass and cleared of repeated
    edges (`BuildRouterWithAddressesOptions` in core/router.go, core/router_dedup.go). */
module ImportEdges {
  import opened Common
  import opened Varints
  import opened Pigeonhole
  import opened Spans
  import opened WayRefs
  import opened Deduplicate

  datatype Way = Way(refs: seq<Byte>, tags: WayTags, oneway: int)

  /** All edges of all ways, in order; none if some way does not decode. */
  function Visits(p: Places, ways: seq<Way>): Option<seq<Visit>> {
    if ways == [] then Some([]) else
      var (before, last) := (Visits(p, ways[..|ways| - 1]), ways[|ways| - 1]);
      if before.None? || RefsOf(last.refs).None? then None
      else Some(before.value + WayEdges(p, RefsOf(last.refs).value, last.tags, last.oneway))
  }

  lemma {:induction false} VisitsStop(p: Places, ways: seq<Way>, n: nat)
    requires n <= |ways| && Visits(p, ways[..n]).None?
    ensures Visits(p, ways).None?
    decreases |ways|
  {
    if n == |ways| {
      assert ways[..n] == ways;
    } else {
      assert ways[..|ways| - 1][..n] == ways[..n];
      VisitsStop(p, ways[..|ways| - 1], n);
    }
  }

  /** A way as it was read: its ids before packing. */
  datatype Road = Road(ids: seq<int>, tags: WayTags, oneway: int)

  function NaiveVisits(p: Places, roads: seq<Road>): seq<Visit> {
    if roads == [] then [] else
      var last := roads[|roads| - 1];
      NaiveVisits(p, roads[..|roads| - 1]) + WayEdges(p, last.ids, last.tags, last.oneway)
  }

  ghost predicate PackedAs(road: Road, way: Way) {
    && road.ids != [] && AllInt64(road.ids)
    && way == Way(EncodeAll(Deltas(road.ids, 0)), road.tags, road.oneway)
  }

  /** Visiting packed ways visits exactly the edges of the original id lists. */
  lemma {:induction false} PackedVisits(p: Places, roads: seq<Road>, ways: seq<Way>)
    requires |roads| == |ways| && forall i :: 0 <= i < |ways| ==> PackedAs(roads[i], ways[i])
    ensures Visits(p, ways) == Some(NaiveVisits(p, roads))
  {
    hide Encode;
    hide EncodeAll;
    hide Deltas;
    if ways != [] {
      var n := |ways| - 1;
      assert PackedAs(roads[n], ways[n]);
      PackedVisits(p, roads[..n], ways[..n]);
      PackedRefsRoundTrip(roads[n].ids);
      hide PackedAs;
      hide RefsOf;
      hide WayEdges;
    }
  }

  method VisitHighwayEdges(p: Places, ways: seq<Way>) returns (r: Option<seq<Visit>>)
    ensures r == Visits(p, ways)
  {
    var all: seq<Visit> := [];
    for i := 0 to |ways|
      invariant Visits(p, ways[..i]) == Some(all)
    {
      assert ways[..i + 1][..i] == ways[..i];
      var visited := VisitWay(p, ways[i].refs, ways[i].tags, ways[i].oneway);
      if visited.None? {
        VisitsStop(p, ways, i + 1);
        return None;
      }
      all := all + visited.value;
    }
    assert ways[..|ways|] == ways;
    r := Some(all);
  }

  // ---- The naive adjacency ----

  /** The edges leaving a node, in the order they were visited. */
  function Outgoing(visits: seq<Visit>, id: int): seq<ImportedEdge> {
    if visits == [] then [] else
      Outgoing(visits[..|visits| - 1], id) + if visits[|visits| - 1].from == id then [visits[|visits| - 1].edge] else []
  }

  lemma OutgoingStep(visits: seq<Visit>, i: nat, id: int)
    requires i < |visits|
    ensures Outgoing(visits[..i + 1], id) == Outgoing(visits[..i], id) + if visits[i].from == id then [visits[i].edge]
      else []
  {
    assert visits[..i + 1][..i] == visits[..i];
  }

  lemma {:induction false} OutgoingGrows(visits: seq<Visit>, i: nat, id: int)
    requires i <= |visits|
    ensures |Outgoing(visits[..i], id)| <= |Outgoing(visits, id)|
    decreases |visits|
  {
    if i == |visits| {
      assert visits[..i] == visits;
    } else {
      assert visits[..|visits| - 1][..i] == visits[..i];
      OutgoingGrows(visits[..|visits| - 1], i, id);
    }
  }

  // ---- Counting and allocating ----

  /** One of the first `n` edges leaves or enters the node. */
  ghost predicate Touched(visits: seq<Visit>, n: nat, id: int)
    requires n <= |visits|
  {
    exists k :: 0 <= k < n && (visits[k].from == id || visits[k].edge.to == id)
  }

  lemma TouchedStep(visits: seq<Visit>, n: nat, id: int)
    requires n < |visits|
    ensures Touched(visits, n + 1, id) <==> Touched(visits, n, id) || visits[n].from == id || visits[n].edge.to == id
  {}

  /** The degrees counted after the first `n` edges. */
  ghost predicate Degrees(visits: seq<Visit>, n: nat, degrees: map<int, nat>)
    requires n <= |visits|
  {
    && (forall id :: id in degrees ==> degrees[id] == |Outgoing(visits[..n], id)|)
    && (forall id :: id !in degrees ==> Outgoing(visits[..n], id) == [])
    && (forall id :: id in degrees <==> Touched(visits, n, id))
  }

  lemma DegreesStep(visits: seq<Visit>, n: nat, degrees: map<int, nat>)
    requires n < |visits| && Degrees(visits, n, degrees)
    ensures var (from, to) := (visits[n].from, visits[n].edge.to);
      var counted := degrees[from := if from in degrees then degrees[from] + 1 else 1];
      Degrees(visits, n + 1, if to in counted then counted else counted[to := 0])
  {
    hide Outgoing;
    hide Touched;
    var (from, to) := (visits[n].from, visits[n].edge.to);
    var m := n + 1;
    forall id
      ensures Outgoing(visits[..m], id) == Outgoing(visits[..n], id) + if from == id then [visits[n].edge] else []
      ensures Touched(visits, m, id) <==> Touched(visits, n, id) || from == id || to == id
    {
      OutgoingStep(visits, n, id);
      TouchedStep(visits, n, id);
    }
  }

  /** Nodes an edge leaves or enters, with their number of outgoing edges. */
  method CountDegrees(visits: seq<Visit>) returns (degrees: map<int, nat>, edgeCount: nat)
    ensures edgeCount == |visits| && Degrees(visits, |visits|, degrees)
  {
    degrees, edgeCount := map[], 0;
    assert Degrees(visits, 0, degrees);
    hide Degrees;
    for i := 0 to |visits|
      invariant edgeCount == i && Degrees(visits, i, degrees)
    {
      DegreesStep(visits, i, degrees);
      var (from, to) := (visits[i].from, visits[i].edge.to);
      degrees := degrees[from := if from in degrees then degrees[from] + 1 else 1];
      if to !in degrees {
        degrees := degrees[to := 0];
      }
      edgeCount := edgeCount + 1;
    }
  }

  ghost function SizesOf(visits: seq<Visit>, order: seq<int>): (r: seq<nat>)
    ensures |r| == |order| && forall k :: 0 <= k < |r| ==> r[k] == |Outgoing(visits, order[k])|
  {
    seq(|order|, k requires 0 <= k < |order| => |Outgoing(visits, order[k])|)
  }

  lemma {:induction false} StartOfBumped(sizes: seq<nat>, j: nat, n: nat)
    requires j < |sizes| && n <= |sizes|
    ensures Start(sizes[j := sizes[j] + 1], n) == Start(sizes, n) + if j < n then 1 else 0
  {
    if n > 0 {
      StartOfBumped(sizes, j, n - 1);
    }
  }

  lemma {:induction false} StartOfZeros(sizes: seq<nat>, n: nat)
    requires n <= |sizes| && forall k :: 0 <= k < |sizes| ==> sizes[k] == 0
    ensures Start(sizes, n) == 0
  {
    if n > 0 {
      StartOfZeros(sizes, n - 1);
    }
  }

  /** The degrees of distinct nodes that send all edges add up to the number of edges. */
  lemma {:induction false} SizesAddUp(visits: seq<Visit>, order: seq<int>)
    requires Distinct(order) && forall v :: v in visits ==> v.from in order
    ensures Start(SizesOf(visits, order), |order|) == |visits|
  {
    if visits == [] {
      StartOfZeros(SizesOf(visits, order), |order|);
    } else {
      var init, last := visits[..|visits| - 1], visits[|visits| - 1];
      assert last in visits && forall v :: v in init ==> v in visits;
      SizesAddUp(init, order);
      var j :| 0 <= j < |order| && order[j] == last.from;
      var sizes := SizesOf(init, order);
      forall k | 0 <= k < |order|
        ensures SizesOf(visits, order)[k] == sizes[j := sizes[j] + 1][k]
      {
        assert k != j ==> order[k] != order[j];
      }
      assert SizesOf(visits, order) == sizes[j := sizes[j] + 1];
      StartOfBumped(sizes, j, |order|);
    }
  }

  ghost predicate SpanOk(visits: seq<Visit>, order: seq<int>, spans: map<int, nat>, k: nat)
    requires k < |order|
  {
    && Outgoing(visits, order[k]) != []
    && order[k] in spans && spans[order[k]] == Start(SizesOf(visits, order), k)
  }

  /** Spans handed out to the nodes of `order`, one after another. */
  ghost predicate Allocated(visits: seq<Visit>, order: seq<int>, spans: map<int, nat>) {
    && Distinct(order) && spans.Keys == Elements(order)
    && forall k :: 0 <= k < |order| ==> SpanOk(visits, order, spans, k)
  }

  lemma {:induction false} StartOfPrefix(a: seq<nat>, b: seq<nat>, k: nat)
    requires k <= |a| <= |b| && forall i :: 0 <= i < |a| ==> a[i] == b[i]
    ensures Start(a, k) == Start(b, k)
  {
    if k > 0 {
      StartOfPrefix(a, b, k - 1);
    }
  }

  lemma SizesExtend(visits: seq<Visit>, order: seq<int>, id: int, k: nat)
    requires k <= |order|
    ensures Start(SizesOf(visits, order + [id]), k) == Start(SizesOf(visits, order), k)
    ensures Start(SizesOf(visits, order + [id]), |order| + 1)
      == Start(SizesOf(visits, order + [id]), |order|) + |Outgoing(visits, id)|
  {
    hide Outgoing;
    hide Start;
    StartOfPrefix(SizesOf(visits, order), SizesOf(visits, order + [id]), k);
    StartStep(SizesOf(visits, order + [id]), |order| + 1);
  }

  lemma SpanKept(visits: seq<Visit>, order: seq<int>, spans: map<int, nat>, id: int, start: nat, k: nat)
    requires k < |order| && SpanOk(visits, order, spans, k) && order[k] != id
    ensures SpanOk(visits, order + [id], spans[id := start], k)
  {
    hide Outgoing;
    hide Start;
    hide SizesOf;
    SizesExtend(visits, order, id, k);
  }

  lemma AllocateOne(visits: seq<Visit>, order: seq<int>, spans: map<int, nat>, id: int)
    requires Allocated(visits, order, spans) && id !in order && Outgoing(visits, id) != []
    ensures Allocated(visits, order + [id], spans[id := Start(SizesOf(visits, order), |order|)])
    ensures Start(SizesOf(visits, order + [id]), |order| + 1)
      == Start(SizesOf(visits, order), |order|) + |Outgoing(visits, id)|
  {
    hide *;
    var start := Start(SizesOf(visits, order), |order|);
    SizesExtend(visits, order, id, |order|);
    NewSpan(visits, order + [id], spans, id, start, |order|);
    AllSpansKept(visits, order, spans, id, start);
    AllAllocated(visits, order, spans, id, start);
  }

  lemma NewSpan(visits: seq<Visit>, order: seq<int>, spans: map<int, nat>, id: int, start: nat, k: nat)
    requires k < |order| && order[k] == id && Outgoing(visits, id) != [] && start == Start(SizesOf(visits, order), k)
    ensures SpanOk(visits, order, spans[id := start], k)
  {
    hide Outgoing;
    hide Start;
    hide SizesOf;
  }

  lemma DistinctExtends(order: seq<int>, id: int)
    requires Distinct(order) && id !in order
    ensures Distinct(order + [id]) && Elements(order + [id]) == Elements(order) + {id}
  {}

  ghost predicate AllSpans(visits: seq<Visit>, order: seq<int>, spans: map<int, nat>, n: nat) {
    n <= |order| && forall k :: 0 <= k < n ==> SpanOk(visits, order, spans, k)
  }

  lemma AllSpansKept(visits: seq<Visit>, order: seq<int>, spans: map<int, nat>, id: int, start: nat)
    requires Allocated(visits, order, spans) && id !in order
    ensures AllSpans(visits, order + [id], spans[id := start], |order|)
  {
    hide SpanOk;
    hide Distinct;
    hide Elements;
    var order', spans' := order + [id], spans[id := start];
    forall k | 0 <= k < |order|
      ensures SpanOk(visits, order', spans', k)
    {
      SpanKept(visits, order, spans, id, start, k);
    }
  }

  lemma AllAllocated(visits: seq<Visit>, order: seq<int>, spans: map<int, nat>, id: int, start: nat)
    requires Allocated(visits, order, spans) && id !in order
    requires AllSpans(visits, order + [id], spans[id := start], |order|)
    requires SpanOk(visits, order + [id], spans[id := start], |order|)
    ensures Allocated(visits, order + [id], spans[id := start])
  {
    DistinctExtends(order, id);
    assert spans[id := start].Keys == spans.Keys + {id};
    hide SpanOk;
    hide Distinct;
    hide Elements;
  }

  lemma NothingAllocated(visits: seq<Visit>)
    ensures Allocated(visits, [], map[]) && Start(SizesOf(visits, []), 0) == 0
  {}

  lemma SpanKeys(visits: seq<Visit>, order: seq<int>, spans: map<int, nat>, id: int)
    requires Allocated(visits, order, spans)
    ensures id in spans <==> id in order
  {}

  /** The order in which a map yields its keys is not determined. */
  method AnyOf(keys: set<int>) returns (id: int)
    requires keys != {}
    ensures id in keys
  {
    WithoutMembers(keys);
    id :| id in keys;
  }

  lemma WithoutMembers(keys: set<int>)
    ensures (forall x :: x !in keys) ==> keys == {}
  {
    if forall x :: x !in keys {
      assert keys == {};
    }
  }

  /** Gives every node with outgoing edges its own span, in whatever order the map yields them. */
  method Allocate(visits: seq<Visit>, degrees: map<int, nat>) returns (spans: map<int, nat>, ghost order: seq<int>)
    requires forall id :: id in degrees ==> degrees[id] == |Outgoing(visits, id)|
    ensures Allocated(visits, order, spans)
    ensures forall id :: id in spans <==> id in degrees && Outgoing(visits, id) != []
  {
    hide Allocated;
    hide Outgoing;
    hide Start;
    hide SizesOf;
    spans, order := map[], [];
    NothingAllocated(visits);
    var left: set<int>, offset: nat := degrees.Keys, 0;
    while left != {}
      invariant left <= degrees.Keys
      invariant Allocated(visits, order, spans) && offset == Start(SizesOf(visits, order), |order|)
      invariant forall id :: id in spans <==> id in degrees && id !in left && Outgoing(visits, id) != []
      decreases left
    {
      var id := AnyOf(left);
      if degrees[id] > 0 {
        SpanKeys(visits, order, spans, id);
        AllocateOne(visits, order, spans, id);
        spans, order := spans[id := offset], order + [id];
        offset := offset + degrees[id];
      }
      left := left - {id};
    }
  }

  // ---- Filling ----

  ghost function RowsOf(visits: seq<Visit>, order: seq<int>): (r: seq<seq<ImportedEdge>>)
    ensures |r| == |order| && forall k :: 0 <= k < |r| ==> r[k] == Outgoing(visits, order[k])
  {
    seq(|order|, k requires 0 <= k < |order| => Outgoing(visits, order[k]))
  }

  /** The next edge goes to the row of its tail, where there is room. */
  lemma RowsStep(visits: seq<Visit>, order: seq<int>, i: nat, k: nat)
    requires i < |visits| && Distinct(order) && k < |order| && order[k] == visits[i].from
    ensures var rows := RowsOf(visits[..i], order);
      RowsOf(visits[..i + 1], order) == rows[k := rows[k] + [visits[i].edge]] && |rows[k]| < SizesOf(visits, order)[k]
  {
    hide Outgoing;
    var m := i + 1;
    var rows, rows' := RowsOf(visits[..i], order), RowsOf(visits[..m], order);
    forall j | 0 <= j < |order|
      ensures rows'[j] == if j == k then rows[j] + [visits[i].edge] else rows[j]
    {
      OutgoingStep(visits, i, order[j]);
      assert j != k ==> order[j] != order[k];
    }
    assert rows' == rows[k := rows[k] + [visits[i].edge]];
    OutgoingGrows(visits, m, order[k]);
  }

  lemma NoRowsYet(visits: seq<Visit>, order: seq<int>)
    ensures forall k :: 0 <= k < |order| ==> RowsOf(visits[..0], order)[k] == []
  {}

  lemma AllSendersAllocated(visits: seq<Visit>, order: seq<int>, spans: map<int, nat>, v: Visit)
    requires Allocated(visits, order, spans) && v in visits
    requires forall id :: id in spans <==> Touched(visits, |visits|, id) && Outgoing(visits, id) != []
    ensures v.from in order
  {
    SomeoneSends(visits, v);
    var k :| 0 <= k < |visits| && visits[k] == v;
  }

  lemma SendersAllocated(visits: seq<Visit>, order: seq<int>, spans: map<int, nat>)
    requires Allocated(visits, order, spans)
    requires forall id :: id in spans <==> Touched(visits, |visits|, id) && Outgoing(visits, id) != []
    ensures Distinct(order) && forall v :: v in visits ==> v.from in order
  {
    forall v | v in visits
      ensures v.from in order
    {
      AllSendersAllocated(visits, order, spans, v);
    }
  }

  lemma {:induction false} SomeoneSends(visits: seq<Visit>, v: Visit)
    requires v in visits
    ensures Outgoing(visits, v.from) != []
  {
    if v != visits[|visits| - 1] {
      assert v in visits[..|visits| - 1];
      SomeoneSends(visits[..|visits| - 1], v);
    }
  }

  lemma SpanAt(visits: seq<Visit>, order: seq<int>, spans: map<int, nat>, id: int) returns (k: nat)
    requires Allocated(visits, order, spans) && id in order
    ensures k < |order| && order[k] == id && id in spans && spans[id] == Start(SizesOf(visits, order), k)
  {
    k :| 0 <= k < |order| && order[k] == id;
    assert SpanOk(visits, order, spans, k);
  }

  /** The number of edges appended to every node so far. */
  ghost predicate Lengths(visits: seq<Visit>, lengths: map<int, nat>, i: nat, spans: map<int, nat>)
    requires i <= |visits|
  {
    lengths.Keys == spans.Keys && forall id :: id in lengths ==> lengths[id] == |Outgoing(visits[..i], id)|
  }

  lemma LengthsStep(visits: seq<Visit>, lengths: map<int, nat>, i: nat, spans: map<int, nat>)
    requires i < |visits| && Lengths(visits, lengths, i, spans) && visits[i].from in lengths
    ensures Lengths(visits, lengths[visits[i].from := lengths[visits[i].from] + 1], i + 1, spans)
  {
    hide Outgoing;
    var m := i + 1;
    forall id | id in lengths
      ensures |Outgoing(visits[..m], id)| == |Outgoing(visits[..i], id)| + if visits[i].from == id then 1 else 0
    {
      OutgoingStep(visits, i, id);
    }
  }

  /** Appends every edge within the span of its tail; the spans end up exactly full. */
  method FillEdges(visits: seq<Visit>, edgeCount: nat, spans: map<int, nat>, ghost order: seq<int>)
    returns (edges: array<ImportedEdge>)
    requires edgeCount == |visits| && Allocated(visits, order, spans)
    requires forall id :: id in spans <==> Touched(visits, |visits|, id) && Outgoing(visits, id) != []
    ensures fresh(edges) && Filled(edges[..], SizesOf(visits, order), RowsOf(visits, order))
  {
    hide *;
    SendersAllocated(visits, order, spans);
    SizesAddUp(visits, order);
    NoRowsYet(visits, order);
    edges := new ImportedEdge[edgeCount](_ => ImportedEdge(0, 0, WayTags(0, 0, 0, "")));
    var lengths: map<int, nat> := map id | id in spans :: 0;
    Spans.NothingFilled(edges[..], SizesOf(visits, order), RowsOf(visits[..0], order));
    NoLengths(visits, lengths, spans);
    for i := 0 to |visits|
      invariant Filled(edges[..], SizesOf(visits, order), RowsOf(visits[..i], order))
      invariant Lengths(visits, lengths, i, spans)
    {
      var (from, edge) := (visits[i].from, visits[i].edge);
      assert visits[i] in visits;
      var k := SpanAt(visits, order, spans, from);
      RowsStep(visits, order, i, k);
      LengthAt(visits, lengths, i, spans, order, k);
      LengthsStep(visits, lengths, i, spans);
      Appended(edges[..], SizesOf(visits, order), RowsOf(visits[..i], order), k, edge);
      ghost var was := edges[..];
      var at := spans[from] + lengths[from];
      edges[at] := edge;
      assert edges[..] == was[at := edge];
      lengths := lengths[from := lengths[from] + 1];
    }
    assert visits[..|visits|] == visits;
  }

  lemma NoLengths(visits: seq<Visit>, lengths: map<int, nat>, spans: map<int, nat>)
    requires lengths.Keys == spans.Keys && forall id :: id in lengths ==> lengths[id] == 0
    ensures Lengths(visits, lengths, 0, spans)
  {}

  lemma LengthAt(visits: seq<Visit>, lengths: map<int, nat>, i: nat, spans: map<int, nat>, order: seq<int>, k: nat)
    requires i <= |visits| && Lengths(visits, lengths, i, spans) && k < |order| && order[k] in spans
    ensures order[k] in lengths && lengths[order[k]] == |RowsOf(visits[..i], order)[k]|
  {}

  // ---- The adjacency ----

  /** The first appearance of every distinct edge, node by node. */
  ghost predicate IsAdjacency(visits: seq<Visit>, adj: map<int, seq<ImportedEdge>>) {
    && (forall id :: id in adj <==> Outgoing(visits, id) != [])
    && forall id :: id in adj ==> adj[id] == FirstOccurrences(Outgoing(visits, id))
  }

  lemma SpanRead(visits: seq<Visit>, order: seq<int>, spans: map<int, nat>, edges: seq<ImportedEdge>, id: int)
    requires Allocated(visits, order, spans)
    requires Filled(edges, SizesOf(visits, order), RowsOf(visits, order)) && id in spans
    ensures spans[id] + |Outgoing(visits, id)| <= |edges|
    ensures edges[spans[id]..spans[id] + |Outgoing(visits, id)|] == Outgoing(visits, id)
  {
    SpanKeys(visits, order, spans, id);
    hide Allocated;
    hide Filled;
    hide Outgoing;
    hide Start;
    var k := SpanAt(visits, order, spans, id);
    RowRead(edges, SizesOf(visits, order), RowsOf(visits, order), k);
    StartStep(SizesOf(visits, order), k + 1);
  }

  /** Copies one node's span and clears it of repeated edges. */
  method Deduplicated(edges: seq<ImportedEdge>) returns (kept: seq<ImportedEdge>)
    ensures kept == FirstOccurrences(edges)
  {
    KeptAtMost(edges);
    if |edges| < 2 {
      Short(edges);
      return edges;
    }
    var own := new ImportedEdge[|edges|](i requires 0 <= i < |edges| => edges[i]);
    assert own[..] == edges;
    var n := DeduplicateEdges(own, ImportedEdge(0, 0, WayTags(0, 0, 0, "")));
    kept := own[..n];
  }

  lemma Short(edges: seq<ImportedEdge>)
    requires |edges| < 2
    ensures FirstOccurrences(edges) == edges
  {
    DistinctUnchanged(edges);
  }

  /** Reads off every span in whatever order the map yields the nodes. */
  method DeduplicateImportedEdges(visits: seq<Visit>, degrees: map<int, nat>, spans: map<int, nat>,
      edges: seq<ImportedEdge>, ghost order: seq<int>)
    returns (adj: map<int, seq<ImportedEdge>>)
    requires Allocated(visits, order, spans) && Filled(edges, SizesOf(visits, order), RowsOf(visits, order))
    requires Degrees(visits, |visits|, degrees)
    requires forall id :: id in spans <==> Touched(visits, |visits|, id) && Outgoing(visits, id) != []
    ensures IsAdjacency(visits, adj)
  {
    hide *;
    adj := map[];
    var left := spans.Keys;
    while left != {}
      invariant left <= spans.Keys
      invariant forall id :: id in adj <==> id in spans && id !in left
      invariant forall id :: id in adj ==> adj[id] == FirstOccurrences(Outgoing(visits, id))
      decreases left
    {
      var id := AnyOf(left);
      SpanRead(visits, order, spans, edges, id);
      DegreeIs(visits, degrees, id);
      var kept := Deduplicated(edges[spans[id]..spans[id] + degrees[id]]);
      adj := adj[id := kept];
      left := left - {id};
    }
    AllKept(visits, spans, adj);
  }

  lemma DegreeIs(visits: seq<Visit>, degrees: map<int, nat>, id: int)
    requires Degrees(visits, |visits|, degrees) && Touched(visits, |visits|, id)
    ensures id in degrees && degrees[id] == |Outgoing(visits, id)|
  {
    assert visits[..|visits|] == visits;
  }

  lemma AllKept(visits: seq<Visit>, spans: map<int, nat>, adj: map<int, seq<ImportedEdge>>)
    requires forall id :: id in spans <==> Touched(visits, |visits|, id) && Outgoing(visits, id) != []
    requires (forall id :: id in adj <==> id in spans)
    requires forall id :: id in adj ==> adj[id] == FirstOccurrences(Outgoing(visits, id))
    ensures IsAdjacency(visits, adj)
  {
    forall id | Outgoing(visits, id) != []
      ensures Touched(visits, |visits|, id)
    {
      Sender(visits, id);
    }
  }

  lemma {:induction false} Sender(visits: seq<Visit>, id: int)
    requires Outgoing(visits, id) != []
    ensures Touched(visits, |visits|, id)
  {
    var n := |visits| - 1;
    if visits[n].from != id {
      Sender(visits[..n], id);
      var k :| 0 <= k < n && (visits[..n][k].from == id || visits[..n][k].edge.to == id);
      assert visits[k] == visits[..n][k];
    }
  }

  /** Imports the ways: two passes over them, one block of edges, then deduplication. The nodes kept are
      those an edge leaves or enters, so that the end of a one-way street keeps its coordinate. */
  method ImportAdjacency(p: Places, ways: seq<Way>) returns (adj: Option<map<int, seq<ImportedEdge>>>, kept: set<int>)
    ensures adj.None? <==> Visits(p, ways).None?
    ensures adj.Some? ==> IsAdjacency(Visits(p, ways).value, adj.value)
    ensures adj.Some? ==> forall id :: id in kept <==> Touched(Visits(p, ways).value, |Visits(p, ways).value|, id)
  {
    hide *;
    var counted := VisitHighwayEdges(p, ways);
    if counted.None? {
      return None, {};
    }
    var degrees, edgeCount := CountDegrees(counted.value);
    DegreesRead(counted.value, degrees);
    var spans;
    ghost var order;
    spans, order := Allocate(counted.value, degrees);
    var visited := VisitHighwayEdges(p, ways);
    var edges := FillEdges(visited.value, edgeCount, spans, order);
    var result := DeduplicateImportedEdges(visited.value, degrees, spans, edges[..], order);
    return Some(result), degrees.Keys;
  }

  lemma DegreesRead(visits: seq<Visit>, degrees: map<int, nat>)
    requires Degrees(visits, |visits|, degrees)
    ensures forall id :: id in degrees ==> degrees[id] == |Outgoing(visits, id)|
    ensures forall id :: id in degrees <==> Touched(visits, |visits|, id)
  {
    assert visits[..|visits|] == visits;
  }
}
