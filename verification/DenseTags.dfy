/** What the dense nodes of a message are decoded to, told by the nodes that were put in: ids and coordinates come
    back, and a node somebody asks for comes with the last kept value of each of its keys (core/extract.go). */
module DenseTags {
  import opened Common
  import opened Varints
  import opened PackedFields
  import opened DenseNodes
  import opened WayRefs

  // ---- The keys_vals field ----

  /** Key and value of one tag after the other, and a zero. */
  function Listed(pairs: seq<(nat, nat)>): seq<nat> {
    if pairs == [] then [0] else [pairs[0].0, pairs[0].1] + Listed(pairs[1..])
  }

  /** The lists of all nodes. */
  function AllListed(lists: seq<seq<(nat, nat)>>): seq<nat> {
    if lists == [] then [] else Listed(lists[0]) + AllListed(lists[1..])
  }

  /** No key may look like the zero that ends a list. */
  ghost predicate ProperList(pairs: seq<(nat, nat)>) {
    forall j :: 0 <= j < |pairs| ==> Int32(pairs[j].0) != 0
  }

  /** The low 32 bits, read as two's complement. */
  lemma Int32Means(v: nat)
    ensures -0x8000_0000 <= Int32(v) < 0x8000_0000 && (v - Int32(v)) % 0x1_0000_0000 == 0
    ensures v < 0x8000_0000 ==> Int32(v) == v
  {}

  function ValueStream(values: seq<nat>): Stream {
    if values == [] then End else More(values[0], ValueStream(values[1..]))
  }

  lemma {:induction false} StreamIsValues(s: Stream)
    requires Whole(s).Some?
    ensures s == ValueStream(Whole(s).value)
    decreases s
  {
    if s.More? {
      StreamIsValues(s.rest);
      assert Whole(s).value[1..] == Whole(s.rest).value;
    }
  }

  lemma {:induction false} ListRead(pairs: seq<(nat, nat)>, after: seq<nat>, started: bool)
    requires ProperList(pairs)
    ensures TagsFrom(ValueStream(Listed(pairs) + after), started) == Pairs(pairs, ValueStream(after))
    decreases |pairs|
  {
    var values := Listed(pairs) + after;
    if pairs == [] {
      assert values[0] == 0 && values[1..] == after;
    } else {
      ListRead(pairs[1..], after, true);
      assert values[0] == pairs[0].0 && values[1..][0] == pairs[0].1;
      assert values[1..][1..] == Listed(pairs[1..]) + after;
      assert [pairs[0]] + pairs[1..] == pairs;
    }
  }

  // ---- The tags handed out ----

  /** The tag can be spelled out and is kept. */
  ghost predicate Kept(x: Reader, tag: (nat, nat)) {
    InTable(x, Int32(tag.0)) && InTable(x, Int32(tag.1)) && x.keep(x.strings[Int32(tag.0)])
  }

  /** Tag `j` is the last kept one with this key. */
  ghost predicate LastKept(x: Reader, pairs: seq<(nat, nat)>, key: string, j: nat) {
    && j < |pairs| && Kept(x, pairs[j]) && x.strings[Int32(pairs[j].0)] == key
    && forall k :: j < k < |pairs| && Kept(x, pairs[k]) ==> x.strings[Int32(pairs[k].0)] != key
  }

  /** A node with a tag that asks, or with any tag if all are asked for. */
  ghost predicate Wanted(x: Reader, pairs: seq<(nat, nat)>) {
    x.wantTags && pairs != [] && (x.askAny
      || exists j :: 0 <= j < |pairs| && InTable(x, Int32(pairs[j].0)) && x.asked(x.strings[Int32(pairs[j].0)]))
  }

  /** Every kept key with the value given last, and nothing else. */
  ghost predicate LastValues(x: Reader, pairs: seq<(nat, nat)>, tags: map<string, string>) {
    forall key: string ::
      && (key in tags <==> exists j: nat :: LastKept(x, pairs, key, j))
      && forall j: nat :: LastKept(x, pairs, key, j) ==> key in tags && tags[key] == x.strings[Int32(pairs[j].1)]
  }

  lemma LastKeptGrows(x: Reader, pairs: seq<(nat, nat)>, key: string, j: nat)
    requires pairs != []
    ensures var n := |pairs| - 1;
      LastKept(x, pairs, key, j) <==>
        if Kept(x, pairs[n]) && x.strings[Int32(pairs[n].0)] == key then j == n else LastKept(x, pairs[..n], key, j)
  {
    var n := |pairs| - 1;
    hide Int32;
    if LastKept(x, pairs[..n], key, j) {
      assert pairs[..n][j] == pairs[j];
      forall k | j < k < n && Kept(x, pairs[k])
        ensures x.strings[Int32(pairs[k].0)] != key
      {
        assert pairs[..n][k] == pairs[k];
      }
    }
  }

  lemma {:induction false} MapHasLast(x: Reader, pairs: seq<(nat, nat)>)
    ensures LastValues(x, pairs, TagMap(x, pairs))
  {
    if pairs == [] {
      return;
    }
    var n := |pairs| - 1;
    MapHasLast(x, pairs[..n]);
    var (before, tags) := (TagMap(x, pairs[..n]), TagMap(x, pairs));
    forall key: string
      ensures key in tags <==> exists j: nat :: LastKept(x, pairs, key, j)
      ensures forall j: nat :: LastKept(x, pairs, key, j) ==> key in tags && tags[key] == x.strings[Int32(pairs[j].1)]
    {
      KeyHasLast(x, pairs, key, before, tags);
    }
  }

  lemma KeyHasLast(x: Reader, pairs: seq<(nat, nat)>, key: string, before: map<string, string>,
      tags: map<string, string>)
    requires pairs != [] && LastValues(x, pairs[..|pairs| - 1], before)
    requires var (k, v) := (Int32(pairs[|pairs| - 1].0), Int32(pairs[|pairs| - 1].1));
      tags == if InTable(x, k) && InTable(x, v) && x.keep(x.strings[k]) then before[x.strings[k] := x.strings[v]]
        else before
    ensures key in tags <==> exists j: nat :: LastKept(x, pairs, key, j)
    ensures forall j: nat :: LastKept(x, pairs, key, j) ==> key in tags && tags[key] == x.strings[Int32(pairs[j].1)]
  {
    var n: nat := |pairs| - 1;
    var last := Kept(x, pairs[n]) && x.strings[Int32(pairs[n].0)] == key;
    assert key in tags <==> last || key in before;
    assert !last && key in tags ==> tags[key] == before[key];
    hide Int32;
    hide LastKept;
    LastKeptGrows(x, pairs, key, n);
    forall j: nat
      ensures LastKept(x, pairs, key, j) <==> if last then j == n else LastKept(x, pairs[..n], key, j)
    {
      LastKeptGrows(x, pairs, key, j);
    }
    forall j: nat | LastKept(x, pairs, key, j)
      ensures key in tags && tags[key] == x.strings[Int32(pairs[j].1)]
    {
      KeptIndex(x, pairs, key, j);
      if !last {
        KeptIndex(x, pairs[..n], key, j);
      }
    }
    if key in tags && !last {
      var j: nat :| LastKept(x, pairs[..n], key, j);
      assert LastKept(x, pairs, key, j);
    }
  }

  lemma KeptIndex(x: Reader, pairs: seq<(nat, nat)>, key: string, j: nat)
    requires LastKept(x, pairs, key, j)
    ensures j < |pairs| && InTable(x, Int32(pairs[j].1)) && InTable(x, Int32(pairs[j].0))
  {}

  // ---- Whole messages ----

  /** A node as it was put into the message. */
  datatype Given = Given(id: int, lat: int, lon: int, pairs: seq<(nat, nat)>)

  ghost predicate ProperNode(n: Given) {
    IsInt64(n.id) && IsInt64(n.lat) && IsInt64(n.lon) && ProperList(n.pairs)
  }

  /** The node handed out for one put in. */
  ghost predicate Arrives(x: Reader, n: Given, d: DenseNode) {
    && d.id == n.id && d.lat == n.lat && d.lon == n.lon
    && (d.tags.Some? <==> Wanted(x, n.pairs))
    && (d.tags.Some? ==> LastValues(x, n.pairs, d.tags.value))
  }

  function Ids(given: seq<Given>): (r: seq<int>)
    ensures |r| == |given| && forall i :: 0 <= i < |r| ==> r[i] == given[i].id
  {
    seq(|given|, i requires 0 <= i < |given| => given[i].id)
  }

  function Lats(given: seq<Given>): (r: seq<int>)
    ensures |r| == |given| && forall i :: 0 <= i < |r| ==> r[i] == given[i].lat
  {
    seq(|given|, i requires 0 <= i < |given| => given[i].lat)
  }

  function Lons(given: seq<Given>): (r: seq<int>)
    ensures |r| == |given| && forall i :: 0 <= i < |r| ==> r[i] == given[i].lon
  {
    seq(|given|, i requires 0 <= i < |given| => given[i].lon)
  }

  function Lists(given: seq<Given>): (r: seq<seq<(nat, nat)>>)
    ensures |r| == |given| && forall i :: 0 <= i < |r| ==> r[i] == given[i].pairs
  {
    seq(|given|, i requires 0 <= i < |given| => given[i].pairs)
  }

  ghost predicate AllArrive(x: Reader, given: seq<Given>, nodes: seq<DenseNode>) {
    |nodes| == |given| && forall i :: 0 <= i < |given| ==> Arrives(x, given[i], nodes[i])
  }

  lemma DeltasCount(xs: seq<int>, previous: int)
    ensures |Deltas(xs, previous)| == |xs|
  {}

  /** The first delta leads to the first number, the others on from there. */
  lemma FirstDelta(xs: seq<int>, previous: int)
    requires xs != [] && IsInt64(xs[0]) && IsInt64(previous)
    ensures Deltas(xs, previous) != [] && Deltas(xs, previous)[1..] == Deltas(xs[1..], xs[0])
    ensures Wrap(previous + ZigzagDecode(Deltas(xs, previous)[0])) == xs[0]
  {
    ZigzagRoundTrip(Wrap(xs[0] - previous), 0);
    DeltaRestores(previous, xs[0]);
  }

  lemma {:induction false} DenseArrives(x: Reader, given: seq<Given>, kv: Stream, id: int, lat: int, lon: int)
    requires (forall i :: 0 <= i < |given| ==> ProperNode(given[i])) && IsInt64(id) && IsInt64(lat) && IsInt64(lon)
    requires x.wantTags ==> kv == ValueStream(AllListed(Lists(given)))
    ensures |Deltas(Ids(given), id)| == |Deltas(Lats(given), lat)| == |Deltas(Lons(given), lon)|
    ensures var r :=
      Dense(x, Deltas(Ids(given), id), Deltas(Lats(given), lat), Deltas(Lons(given), lon), kv, id, lat, lon);
      r.ok && AllArrive(x, given, r.nodes)
    decreases |given|
  {
    hide *;
    DeltasCount(Ids(given), id);
    DeltasCount(Lats(given), lat);
    DeltasCount(Lons(given), lon);
    if given == [] {
      NoNodes(x, given, kv, id, lat, lon);
    } else {
      OneNode(x, given, kv, id, lat, lon);
    }
  }

  lemma NoNodes(x: Reader, given: seq<Given>, kv: Stream, id: int, lat: int, lon: int)
    requires given == []
    ensures Deltas(Ids(given), id) == Deltas(Lats(given), lat) == Deltas(Lons(given), lon) == []
    ensures var r := Dense(x, [], [], [], kv, id, lat, lon);
      r.ok && AllArrive(x, given, r.nodes)
  {}

  /** The tags of the first node are read, and the lists of the others are left. */
  lemma FirstList(x: Reader, given: seq<Given>, kv: Stream)
    requires given != [] && ProperNode(given[0])
    requires x.wantTags ==> kv == ValueStream(AllListed(Lists(given)))
    ensures NodeTags(x, kv).Pairs?
    ensures NodeTags(x, kv).pairs == if x.wantTags then given[0].pairs else []
    ensures x.wantTags ==> NodeTags(x, kv).rest == ValueStream(AllListed(Lists(given[1..])))
  {
    hide TagsFrom;
    hide Listed;
    assert Lists(given)[1..] == Lists(given[1..]);
    ListRead(given[0].pairs, AllListed(Lists(given[1..])), false);
  }

  lemma NodeArrives(x: Reader, n: Given, pairs: seq<(nat, nat)>, d: DenseNode)
    requires pairs == if x.wantTags then n.pairs else []
    requires d == DenseNode(n.id, n.lat, n.lon, if Asked(x, pairs) then Some(TagMap(x, pairs)) else None)
    ensures Arrives(x, n, d)
  {
    MapHasLast(x, pairs);
    hide TagMap;
    hide LastValues;
  }

  lemma ArrivalsGrow(x: Reader, given: seq<Given>, d: DenseNode, tail: seq<DenseNode>)
    requires given != [] && Arrives(x, given[0], d) && AllArrive(x, given[1..], tail)
    ensures AllArrive(x, given, [d] + tail)
  {
    hide Arrives;
    var all := [d] + tail;
    forall i | 0 <= i < |given|
      ensures Arrives(x, given[i], all[i])
    {
      if i > 0 {
        assert given[i] == given[1..][i - 1] && all[i] == tail[i - 1];
      }
    }
  }

  /** The first node and the columns of the others. */
  lemma FirstParts(given: seq<Given>)
    requires given != [] && forall i :: 0 <= i < |given| ==> ProperNode(given[i])
    ensures var (n, more) := (given[0], given[1..]);
      && IsInt64(n.id) && IsInt64(n.lat) && IsInt64(n.lon) && ProperNode(n)
      && Ids(given)[1..] == Ids(more) && Lats(given)[1..] == Lats(more) && Lons(given)[1..] == Lons(more)
      && Ids(given)[0] == n.id && Lats(given)[0] == n.lat && Lons(given)[0] == n.lon
      && forall i :: 0 <= i < |more| ==> ProperNode(more[i])
  {
    assert ProperNode(given[0]);
    hide ProperNode;
  }

  lemma {:induction false} OneNode(x: Reader, given: seq<Given>, kv: Stream, id: int, lat: int, lon: int)
    requires given != []
    requires (forall i :: 0 <= i < |given| ==> ProperNode(given[i])) && IsInt64(id) && IsInt64(lat) && IsInt64(lon)
    requires x.wantTags ==> kv == ValueStream(AllListed(Lists(given)))
    requires |Deltas(Ids(given), id)| == |Deltas(Lats(given), lat)| == |Deltas(Lons(given), lon)|
    ensures var r :=
      Dense(x, Deltas(Ids(given), id), Deltas(Lats(given), lat), Deltas(Lons(given), lon), kv, id, lat, lon);
      r.ok && AllArrive(x, given, r.nodes)
    decreases |given|, 0
  {
    hide *;
    var (n, more) := (given[0], given[1..]);
    FirstParts(given);
    FirstDelta(Ids(given), id);
    FirstDelta(Lats(given), lat);
    FirstDelta(Lons(given), lon);
    FirstList(x, given, kv);
    var t := NodeTags(x, kv);
    DenseArrives(x, more, t.rest, n.id, n.lat, n.lon);
    DenseStep(x, Deltas(Ids(given), id), Deltas(Lats(given), lat), Deltas(Lons(given), lon), kv, id, lat, lon);
    var tail := Dense(x, Deltas(Ids(more), n.id), Deltas(Lats(more), n.lat), Deltas(Lons(more), n.lon), t.rest,
      n.id, n.lat, n.lon);
    var d := DenseNode(n.id, n.lat, n.lon, if Asked(x, t.pairs) then Some(TagMap(x, t.pairs)) else None);
    NodeArrives(x, n, t.pairs, d);
    ArrivalsGrow(x, given, d, tail.nodes);
  }

  /** Whatever segments the four fields come in, every node put into the message is handed out, in order. */
  method DecodeMessage(x: Reader, ghost given: seq<Given>, idSegs: seq<seq<Byte>>, latSegs: seq<seq<Byte>>,
      lonSegs: seq<seq<Byte>>, kvSegs: seq<seq<Byte>>) returns (nodes: seq<DenseNode>, r: Outcome)
    requires forall i :: 0 <= i < |given| ==> ProperNode(given[i])
    requires Whole(StreamOf(idSegs)) == Some(Deltas(Ids(given), 0))
    requires Whole(StreamOf(latSegs)) == Some(Deltas(Lats(given), 0))
    requires Whole(StreamOf(lonSegs)) == Some(Deltas(Lons(given), 0))
    requires Whole(StreamOf(kvSegs)) == Some(AllListed(Lists(given)))
    ensures r == Done && AllArrive(x, given, nodes)
  {
    hide Dense;
    hide Deltas;
    hide Whole;
    hide Arrives;
    StreamIsValues(StreamOf(kvSegs));
    DenseArrives(x, given, StreamOf(kvSegs), 0, 0, 0);
    DeltasCount(Ids(given), 0);
    nodes, r := ProcessDenseNodes(x, idSegs, latSegs, lonSegs, kvSegs);
  }
}
