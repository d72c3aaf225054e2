/** A graph file with its spatial index: writing both and opening both (`WriteGraph` and `OpenGraph` in
    core/router_store.go). */
module IndexedGraph {
  import opened Common
  import opened GraphStore
  import opened GraphWriter
  import opened GraphAcceptance
  import opened GraphRoundTrip
  import opened CellTable

  /** The records of all nodes in node order, as the writer collects them. */
  function Collected(cellOf: nat -> int, n: nat): (r: seq<CellRec>)
    ensures |r| == n && forall i :: 0 <= i < n ==> r[i] == CellRec(cellOf(i), i)
  {
    seq(n, i requires 0 <= i < n => CellRec(cellOf(i), i))
  }

  ghost predicate Sorted(cells: seq<CellRec>) {
    forall i, j :: 0 <= i < j < |cells| ==> !Before(cells[j], cells[i])
  }

  /** The same records, sorted by key and then by node. */
  ghost predicate IsTableOf(cells: seq<CellRec>, cellOf: nat -> int, n: nat) {
    multiset(cells) == multiset(Collected(cellOf, n)) && Sorted(cells)
  }

  lemma RecordsCollected(cells: seq<CellRec>, cellOf: nat -> int, n: nat, i: nat)
    requires multiset(cells) == multiset(Collected(cellOf, n)) && i < |cells|
    ensures cells[i].node < n && cells[i].key == cellOf(cells[i].node)
  {
    assert cells[i] in multiset(cells);
    assert cells[i] in Collected(cellOf, n);
  }

  lemma CollectedOnce(cellOf: nat -> int, n: nat, c: CellRec)
    ensures multiset(Collected(cellOf, n))[c] <= 1
    decreases n
  {
    if n > 0 {
      CollectedOnce(cellOf, n - 1, c);
      assert Collected(cellOf, n) == Collected(cellOf, n - 1) + [CellRec(cellOf(n - 1), n - 1)];
      if c.node == n - 1 {
        assert c !in Collected(cellOf, n - 1);
      }
    }
  }

  /** No record stands at two places. */
  lemma NoneTwice(cells: seq<CellRec>, cellOf: nat -> int, n: nat, i: nat, j: nat)
    requires multiset(cells) == multiset(Collected(cellOf, n)) && i < j < |cells|
    ensures cells[i] != cells[j]
  {
    var c := cells[i];
    CollectedOnce(cellOf, n, c);
    var (front, back) := (cells[..j], cells[j..]);
    assert cells == front + back;
    assert front[i] == c && back[0] == cells[j];
    assert multiset(cells) == multiset(front) + multiset(back);
    assert c in multiset(front) && cells[j] in multiset(back);
  }

  /** However it was sorted, the writer's table passes the reader's check. */
  lemma SortedPasses(cells: seq<CellRec>, cellOf: nat -> int, n: nat)
    requires IsTableOf(cells, cellOf, n)
    ensures |cells| == n && CellsOk(cells, cellOf)
  {
    assert |multiset(cells)| == |multiset(Collected(cellOf, n))|;
    forall i | 0 <= i < |cells|
      ensures RecordOk(cells, cellOf, i)
    {
      RecordsCollected(cells, cellOf, n, i);
      if i > 0 {
        NoneTwice(cells, cellOf, n, i - 1, i);
        assert !Before(cells[i], cells[i - 1]);
      }
    }
  }

  lemma InsertedMultiset(cells: seq<CellRec>, at: nat, c: CellRec)
    requires at <= |cells|
    ensures multiset(cells[..at] + [c] + cells[at..]) == multiset(cells) + multiset{c}
  {
    assert cells == cells[..at] + cells[at..];
  }

  lemma InsertedSorted(cells: seq<CellRec>, at: nat, c: CellRec)
    requires Sorted(cells) && at <= |cells|
    requires forall k :: 0 <= k < at ==> Before(cells[k], c)
    requires at < |cells| ==> !Before(cells[at], c)
    ensures Sorted(cells[..at] + [c] + cells[at..])
  {
    var r := cells[..at] + [c] + cells[at..];
    forall i, j | 0 <= i < j < |r|
      ensures !Before(r[j], r[i])
    {
      var (a, b) := (if i < at then i else i - 1, if j < at then j else j - 1);
      assert i != at ==> r[i] == cells[a];
      assert j != at ==> r[j] == cells[b];
      if i != at && j != at {
        assert a < b;
      } else if i == at && at < b {
        assert !Before(cells[b], cells[at]);
      }
    }
  }

  /** A sorting of the records; any other would do as well. */
  method SortCells(cells: seq<CellRec>) returns (sorted: seq<CellRec>)
    ensures multiset(sorted) == multiset(cells) && Sorted(sorted)
  {
    hide Sorted;
    sorted := [];
    NothingSorted();
    for i := 0 to |cells|
      invariant multiset(sorted) == multiset(cells[..i]) && Sorted(sorted)
    {
      var at := 0;
      while at < |sorted| && Before(sorted[at], cells[i])
        invariant 0 <= at <= |sorted|
        invariant forall k :: 0 <= k < at ==> Before(sorted[k], cells[i])
      {
        at := at + 1;
      }
      InsertedSorted(sorted, at, cells[i]);
      InsertedMultiset(sorted, at, cells[i]);
      assert cells[..i + 1] == cells[..i] + [cells[i]];
      sorted := sorted[..at] + [cells[i]] + sorted[at..];
    }
    assert cells[..|cells|] == cells;
  }

  lemma NothingSorted()
    ensures Sorted([])
  {}

  /** A store and its spatial index as a reader accepts them together. */
  ghost predicate AcceptsIndexed(d: Store, cells: seq<CellRec>, cellOf: nat -> int) {
    Accepts(d) && |cells| == |d.nodes| && CellsOk(cells, cellOf)
  }

  /** Opening checks the graph first, then the table of as many records as there are nodes. */
  method OpenIndexedGraph(d: Store, cells: seq<CellRec>, cellOf: nat -> int) returns (ok: bool)
    ensures ok <==> AcceptsIndexed(d, cells, cellOf)
  {
    hide Accepts;
    hide CellsOk;
    if |cells| != |d.nodes| {
      return false;
    }
    ok := OpenGraph(d);
    if ok {
      ok := CheckCells(cells, cellOf);
    }
  }

  /** Writes the graph and its spatial index: what is written is accepted as a whole and reads back as the
      same graph. */
  method WriteIndexedGraph(g: Graph, cellOf: nat -> int) returns (r: Option<(Store, seq<CellRec>)>)
    requires WellFormed(g)
    ensures r.Some? ==> AcceptsIndexed(r.value.0, r.value.1, cellOf) && Lossless(g, r.value.0)
    ensures r.Some? ==> IsTableOf(r.value.1, cellOf, |g.ids|)
    ensures r.Some? ==> NoDanglingEdge(g)
    ensures 0 < |g.ids| < CHAIN_REVERSE - 1 && LogicalEdges(g.adj, |g.adj|) < CHAIN_FLAG && NoDanglingEdge(g) ==>
      r.Some?
  {
    hide Accepts;
    hide CellsOk;
    hide Sorted;
    hide Readable;
    hide DecodeNode;
    var d := WriteGraph(g);
    if d.None? {
      return None;
    }
    var cells := SortCells(Collected(cellOf, |g.ids|));
    SortedPasses(cells, cellOf, |g.ids|);
    r := Some((d.value, cells));
  }
}
