/** The transposed graph in compressed rows, filled by a counting sort
    (`buildLandmarkReverse` in core/router_landmarks.go). */
module LandmarkReverse {
  import opened GraphStore
  import opened ChainRuns
  import opened Spans

  /** The edges to `v` among those leaving `u`, turned round. */
  function Sent(es: seq<EdgeRec>, v: nat, u: nat): (r: seq<EdgeRec>)
    ensures |r| == CountTo(es, v)
  {
    if es == [] then [] else
      var last := es[|es| - 1];
      Sent(es[..|es| - 1], v, u) + if last.target == v then [EdgeRec(u, last.attribute, last.distance)] else []
  }

  /** The edges into `v` from the first `n` nodes, turned round, in the order of their tails. */
  function InEdges(adj: Adjacency, v: nat, n: nat): (r: seq<EdgeRec>)
    requires n <= |adj|
    ensures |r| == Incoming(adj, v, n)
  {
    if n == 0 then [] else InEdges(adj, v, n - 1) + Sent(adj[n - 1], v, n - 1)
  }

  lemma {:induction false} SentMembers(es: seq<EdgeRec>, v: nat, u: nat, e: EdgeRec)
    ensures e in Sent(es, v, u) <==> e.target == u && EdgeRec(v, e.attribute, e.distance) in es
  {
    if es != [] {
      var init, last := es[..|es| - 1], es[|es| - 1];
      SentMembers(init, v, u, e);
      assert es == init + [last];
    }
  }

  /** A row holds exactly the edges into its node. */
  lemma {:induction false} RowMembers(adj: Adjacency, v: nat, n: nat, e: EdgeRec)
    requires n <= |adj|
    ensures e in InEdges(adj, v, n) <==> e.target < n && EdgeRec(v, e.attribute, e.distance) in adj[e.target]
  {
    if n > 0 {
      RowMembers(adj, v, n - 1, e);
      SentMembers(adj[n - 1], v, n - 1, e);
    }
  }

  // ---- What is filled so far ----

  /** The part of row `v` found in the nodes before `n` and the first `k` edges of `n`. */
  function Found(adj: Adjacency, v: nat, n: nat, k: nat): seq<EdgeRec>
    requires n < |adj| && k <= |adj[n]|
  {
    InEdges(adj, v, n) + Sent(adj[n][..k], v, n)
  }

  lemma FoundStep(adj: Adjacency, v: nat, n: nat, k: nat)
    requires n < |adj| && k < |adj[n]|
    ensures var e := adj[n][k];
      Found(adj, v, n, k + 1) == Found(adj, v, n, k) + if e.target == v then [EdgeRec(n, e.attribute, e.distance)]
        else []
  {
    hide InEdges;
    assert adj[n][..k + 1][..k] == adj[n][..k];
  }

  lemma {:induction false} SentPrefix(es: seq<EdgeRec>, v: nat, u: nat, k: nat)
    requires k <= |es|
    ensures |Sent(es[..k], v, u)| <= |Sent(es, v, u)|
    decreases |es|
  {
    if k < |es| {
      SentPrefix(es[..|es| - 1], v, u, k);
      assert es[..|es| - 1][..k] == es[..k];
    } else {
      assert es[..k] == es;
    }
  }

  lemma {:induction false} IncomingGrows(adj: Adjacency, v: nat, m: nat, n: nat)
    requires m <= n <= |adj|
    ensures Incoming(adj, v, m) <= Incoming(adj, v, n)
    decreases n
  {
    if m < n {
      IncomingGrows(adj, v, m, n - 1);
    }
  }

  lemma FoundFits(adj: Adjacency, v: nat, n: nat, k: nat)
    requires n < |adj| && k <= |adj[n]|
    ensures |Found(adj, v, n, k)| <= Incoming(adj, v, |adj|)
  {
    SentPrefix(adj[n], v, n, k);
    IncomingGrows(adj, v, n + 1, |adj|);
  }

  /** The final length of every row. */
  ghost function Sizes(adj: Adjacency): (r: seq<nat>)
    ensures |r| == |adj| && forall v :: 0 <= v < |adj| ==> r[v] == Incoming(adj, v, |adj|)
  {
    seq(|adj|, v requires 0 <= v < |adj| => Incoming(adj, v, |adj|))
  }

  ghost function RowsTo(adj: Adjacency, n: nat): (r: seq<seq<EdgeRec>>)
    requires n <= |adj|
    ensures |r| == |adj| && forall v :: 0 <= v < |adj| ==> r[v] == InEdges(adj, v, n)
  {
    seq(|adj|, v requires 0 <= v < |adj| => InEdges(adj, v, n))
  }

  ghost function RowsFound(adj: Adjacency, n: nat, k: nat): (r: seq<seq<EdgeRec>>)
    requires n < |adj| && k <= |adj[n]|
    ensures |r| == |adj| && forall v :: 0 <= v < |adj| ==> r[v] == Found(adj, v, n, k)
  {
    seq(|adj|, v requires 0 <= v < |adj| => Found(adj, v, n, k))
  }

  lemma RowsOfNode(adj: Adjacency, n: nat)
    requires n < |adj|
    ensures RowsFound(adj, n, 0) == RowsTo(adj, n) && RowsFound(adj, n, |adj[n]|) == RowsTo(adj, n + 1)
  {
    hide RowsFound;
    hide RowsTo;
    assert adj[n][..|adj[n]|] == adj[n];
    forall v | 0 <= v < |adj|
      ensures Found(adj, v, n, 0) == InEdges(adj, v, n) && Found(adj, v, n, |adj[n]|) == InEdges(adj, v, n + 1)
    {}
  }

  /** Each edge goes to the row of its target, and there is room for it. */
  lemma RowsStep(adj: Adjacency, n: nat, k: nat)
    requires n < |adj| && k < |adj[n]| && adj[n][k].target < |adj|
    ensures var e := adj[n][k];
      var row := RowsFound(adj, n, k)[e.target];
      && RowsFound(adj, n, k + 1) == RowsFound(adj, n, k)[e.target := row + [EdgeRec(n, e.attribute, e.distance)]]
      && |row| < Sizes(adj)[e.target]
  {
    hide Found;
    hide Incoming;
    hide RowsFound;
    hide Sizes;
    var m := k + 1;
    var e := adj[n][k];
    var rows, rows' := RowsFound(adj, n, k), RowsFound(adj, n, m);
    forall v | 0 <= v < |adj|
      ensures rows'[v] == if v == e.target then rows[v] + [EdgeRec(n, e.attribute, e.distance)] else rows[v]
    {
      FoundStep(adj, v, n, k);
    }
    FoundFits(adj, e.target, n, m);
    assert rows' == rows[e.target := rows[e.target] + [EdgeRec(n, e.attribute, e.distance)]];
  }

  // ---- The counting sort ----

  /** Rows of edges turned round: row `v` is `entries[offsets[v]..offsets[v + 1]]`. */
  datatype Reverse = Reverse(offsets: seq<nat>, entries: seq<EdgeRec>)

  ghost predicate IsTranspose(adj: Adjacency, r: Reverse) {
    && |r.offsets| == |adj| + 1
    && forall v :: 0 <= v < |adj| ==> RowIs(adj, r, v)
  }

  ghost predicate RowIs(adj: Adjacency, r: Reverse, v: nat)
    requires v < |adj| && v + 1 < |r.offsets|
  {
    && r.offsets[v] <= r.offsets[v + 1] <= |r.entries|
    && r.entries[r.offsets[v]..r.offsets[v + 1]] == InEdges(adj, v, |adj|)
  }

  function Row(r: Reverse, v: nat): seq<EdgeRec>
  {
    if v + 1 < |r.offsets|
      && r.offsets[v] <= r.offsets[v + 1] <= |r.entries| then r.entries[r.offsets[v]..r.offsets[v + 1]]
    else []
  }

  /** Counts the edges into every node, one place to the right. */
  method CountRows(adj: Adjacency, offsets: array<nat>)
    requires TargetsExist(adj) && offsets.Length == |adj| + 1
    requires forall v :: 0 <= v <= |adj| ==> offsets[v] == 0
    modifies offsets
    ensures offsets[0] == 0
    ensures forall v :: 0 <= v < |adj| ==> offsets[v + 1] == Incoming(adj, v, |adj|)
  {
    for n := 0 to |adj|
      invariant offsets[0] == 0
      invariant forall v :: 0 <= v < |adj| ==> offsets[v + 1] == Incoming(adj, v, n)
    {
      for k := 0 to |adj[n]|
        invariant offsets[0] == 0
        invariant forall v :: 0 <= v < |adj| ==> offsets[v + 1] == Incoming(adj, v, n) + CountTo(adj[n][..k], v)
      {
        var target := adj[n][k].target;
        assert adj[n][k] in adj[n];
        forall v | 0 <= v < |adj|
          ensures CountTo(adj[n][..k + 1], v) == CountTo(adj[n][..k], v) + if target == v then 1 else 0
        {
          assert adj[n][..k + 1][..k] == adj[n][..k];
        }
        offsets[target + 1] := offsets[target + 1] + 1;
      }
      assert adj[n][..|adj[n]|] == adj[n];
    }
  }

  /** Turns the counts into the starts of the rows, in place. */
  method PrefixSums(adj: Adjacency, offsets: array<nat>)
    requires offsets.Length == |adj| + 1 && offsets[0] == 0
    requires forall v :: 0 <= v < |adj| ==> offsets[v + 1] == Incoming(adj, v, |adj|)
    modifies offsets
    ensures forall v :: 0 <= v <= |adj| ==> offsets[v] == Start(Sizes(adj), v)
  {
    hide Incoming;
    hide Sizes;
    hide Start;
    StartStep(Sizes(adj), 0);
    for i := 1 to offsets.Length
      invariant forall v :: 0 <= v < i ==> offsets[v] == Start(Sizes(adj), v)
      invariant forall v :: i <= v <= |adj| ==> offsets[v] == old(offsets[v])
    {
      assert old(offsets[i - 1 + 1]) == Sizes(adj)[i - 1];
      StartStep(Sizes(adj), i);
      offsets[i] := offsets[i] + offsets[i - 1];
    }
  }

  /** The cursor of every row points behind what the row holds. */
  ghost predicate Cursors(adj: Adjacency, cursor: seq<nat>, rows: seq<seq<EdgeRec>>) {
    && |cursor| == |rows| == |adj|
    && forall v :: 0 <= v < |adj| ==> cursor[v] == Start(Sizes(adj), v) + |rows[v]|
  }

  lemma TransposeReached(adj: Adjacency, entries: seq<EdgeRec>, offsets: seq<nat>)
    requires Filled(entries, Sizes(adj), RowsTo(adj, |adj|))
    requires |offsets| == |adj| + 1 && forall v :: 0 <= v <= |adj| ==> offsets[v] == Start(Sizes(adj), v)
    ensures IsTranspose(adj, Reverse(offsets, entries))
  {
    hide Filled;
    var r := Reverse(offsets, entries);
    forall v | 0 <= v < |adj|
      ensures RowIs(adj, r, v)
    {
      RowRead(entries, Sizes(adj), RowsTo(adj, |adj|), v);
      assert offsets[v + 1] == Start(Sizes(adj), v + 1);
    }
  }

  /** Counts, sums and places: every row ends up holding exactly the edges into its node. */
  method BuildReverse(adj: Adjacency) returns (r: Reverse)
    requires TargetsExist(adj)
    ensures IsTranspose(adj, r)
  {
    hide Filled;
    hide InEdges;
    hide Found;
    hide RowsFound;
    hide RowsTo;
    hide Sizes;
    hide Incoming;
    hide Start;
    hide IsTranspose;
    var offsets := new nat[|adj| + 1](_ => 0);
    CountRows(adj, offsets);
    PrefixSums(adj, offsets);
    ghost var starts := offsets[..];
    var entries := new EdgeRec[offsets[|adj|]](_ => EdgeRec(0, 0, 0));
    var cursor := new nat[|adj|](v requires 0 <= v < |adj| && |adj| < offsets.Length reads offsets => offsets[v]);
    NoRows(adj);
    Spans.NothingFilled(entries[..], Sizes(adj), RowsTo(adj, 0));
    for n := 0 to |adj|
      invariant offsets[..] == starts
      invariant Filled(entries[..], Sizes(adj), RowsTo(adj, n)) && Cursors(adj, cursor[..], RowsTo(adj, n))
    {
      RowsOfNode(adj, n);
      for k := 0 to |adj[n]|
        invariant offsets[..] == starts
        invariant Filled(entries[..], Sizes(adj), RowsFound(adj, n, k))
        invariant Cursors(adj, cursor[..], RowsFound(adj, n, k))
      {
        var e := adj[n][k];
        assert e in adj[n];
        RowsStep(adj, n, k);
        Appended(entries[..], Sizes(adj), RowsFound(adj, n, k), e.target, EdgeRec(n, e.attribute, e.distance));
        ghost var was, counted := entries[..], cursor[..];
        var at := cursor[e.target];
        cursor[e.target] := cursor[e.target] + 1;
        assert cursor[..] == counted[e.target := at + 1];
        entries[at] := EdgeRec(n, e.attribute, e.distance);
        assert entries[..] == was[at := EdgeRec(n, e.attribute, e.distance)];
      }
    }
    TransposeReached(adj, entries[..], offsets[..]);
    r := Reverse(offsets[..], entries[..]);
  }

  lemma NoRows(adj: Adjacency)
    ensures forall v :: 0 <= v < |adj| ==> RowsTo(adj, 0)[v] == []
  {}
}
