/** The importer's packed way references and the edges it takes from them (core/router.go). */
module WayRefs {
  import opened Common
  import opened Varints
  import opened PackedFields
  import opened DenseNodes

  // ---- Packing references ----

  /** The deltas of a list of ids, as the unsigned numbers that are written. */
  function Deltas(ids: seq<int>, previous: int): seq<nat> {
    if ids == [] then [] else [ZigzagEncode(Wrap(ids[0] - previous))] + Deltas(ids[1..], ids[0])
  }

  function EncodeAll(values: seq<nat>): seq<Byte> {
    if values == [] then [] else EncodeAll(values[..|values| - 1]) + Encode(values[|values| - 1])
  }

  ghost predicate AllInt64(ids: seq<int>) {
    forall i :: 0 <= i < |ids| ==> IsInt64(ids[i])
  }

  lemma {:induction false} DeltasTotal(ids: seq<int>, previous: int)
    requires AllInt64(ids) && IsInt64(previous)
    ensures Totals(Deltas(ids, previous), previous) == ids
    ensures forall v :: v in Deltas(ids, previous) ==> v < TWO_64
  {
    if ids != [] {
      var delta := Wrap(ids[0] - previous);
      ZigzagRoundTrip(delta, 0);
      DeltaRestores(previous, ids[0]);
      DeltasTotal(ids[1..], ids[0]);
      assert Deltas(ids, previous)[1..] == Deltas(ids[1..], ids[0]);
    }
  }

  lemma {:induction false} DeltasAppend(ids: seq<int>, previous: int, x: int)
    ensures Deltas(ids + [x], previous) ==
      Deltas(ids, previous) + [ZigzagEncode(Wrap(x - if ids == [] then previous else ids[|ids| - 1]))]
  {
    if ids == [] {
      assert (ids + [x])[1..] == [];
    } else {
      assert (ids + [x])[1..] == ids[1..] + [x];
      DeltasAppend(ids[1..], ids[0], x);
    }
  }

  /** What was written is read back from any position between two values. */
  lemma {:induction false} EncodedStream(values: seq<nat>, n: nat)
    requires n <= |values| && forall v :: v in values ==> v < TWO_64
    ensures |EncodeAll(values[..n])| <= |EncodeAll(values)|
    ensures Whole(StreamFrom([EncodeAll(values)], 0, |EncodeAll(values[..n])|)) == Some(values[n..])
    decreases |values| - n
  {
    PrefixEncoded(values, n);
    var b := EncodeAll(values);
    if n == |values| {
      assert values[..n] == values;
      StreamAt([b], 0, |b|);
      StreamIsOver([b]);
      assert values[n..] == [];
    } else {
      assert values[n] in values;
      EncodedStream(values, n + 1);
      var before, after := EncodeAll(values[..n]), b[|EncodeAll(values[..n + 1])|..];
      PrefixEncoded(values, n + 1);
      assert values[..n + 1][..n] == values[..n];
      assert EncodeAll(values[..n + 1]) == before + Encode(values[n]);
      assert b == before + Encode(values[n]) + after;
      RoundTrip(before, values[n], after);
      EncodeNotEmpty(values[n]);
      assert [values[n]] + values[n + 1..] == values[n..];
    }
  }

  lemma EncodeNotEmpty(u: nat)
    ensures |Encode(u)| > 0
  {}

  lemma {:induction false} PrefixEncoded(values: seq<nat>, n: nat)
    requires n <= |values|
    ensures EncodeAll(values[..n]) <= EncodeAll(values)
    decreases |values|
  {
    if n == |values| {
      assert values[..n] == values;
    } else {
      var init := values[..|values| - 1];
      PrefixEncoded(init, n);
      assert init[..n] == values[..n];
    }
  }

  /** The ids behind packed references: none if they are empty or do not decode. */
  function RefsOf(refs: seq<Byte>): Option<seq<int>> {
    match Whole(StreamOf([refs]))
    case None => None
    case Some(deltas) => if deltas == [] then None else Some(Totals(deltas, 0))
  }

  method PackHighwayRefs(ids: seq<int>) returns (refs: seq<Byte>)
    ensures refs == EncodeAll(Deltas(ids, 0))
  {
    refs := [];
    var previous := 0;
    assert ids[..0] == [];
    for i := 0 to |ids|
      invariant refs == EncodeAll(Deltas(ids[..i], 0))
      invariant previous == if i == 0 then 0 else ids[i - 1]
    {
      var delta := ZigzagEncode(Wrap(ids[i] - previous));
      assert ids[..i + 1] == ids[..i] + [ids[i]];
      DeltasAppend(ids[..i], 0, ids[i]);
      EncodeOneMore(Deltas(ids[..i], 0), delta);
      refs := AppendUvarint(refs, delta);
      previous := ids[i];
    }
    assert ids[..|ids|] == ids;
  }

  lemma EncodeOneMore(values: seq<nat>, v: nat)
    ensures EncodeAll(values + [v]) == EncodeAll(values) + Encode(v)
  {
    assert (values + [v])[..|values|] == values;
  }

  /** Packed references round-trip for every list of 64-bit ids, wrapping differences included. */
  lemma PackedRefsRoundTrip(ids: seq<int>)
    requires AllInt64(ids)
    ensures RefsOf(EncodeAll(Deltas(ids, 0))) == if ids == [] then None else Some(ids)
  {
    var values := Deltas(ids, 0);
    DeltasTotal(ids, 0);
    EncodedStream(values, 0);
    assert values[..0] == [] && values[0..] == values;
  }

  // ---- Edges of a way ----

  /** The bit patterns of a way's routing attributes. */
  datatype WayTags = WayTags(speed: nat, height: nat, weight: nat, highway: string)

  datatype ImportedEdge = ImportedEdge(to: int, distance: nat, tags: WayTags)

  datatype Visit = Visit(from: int, edge: ImportedEdge)

  /** The nodes with coordinates, and the distance of two of them unless it is zero or not finite. */
  datatype Places = Places(coords: map<int, Coord>, distance: (Coord, Coord) -> Option<nat>)

  /** `oneway` is 1 along the way, -1 against it, anything else both ways. */
  function Segment(p: Places, a: int, b: int, tags: WayTags, oneway: int): seq<Visit> {
    if a !in p.coords || b !in p.coords then [] else
      match p.distance(p.coords[a], p.coords[b])
      case None => []
      case Some(d) =>
        if oneway == 1 then [Visit(a, ImportedEdge(b, d, tags))]
        else if oneway == -1 then [Visit(b, ImportedEdge(a, d, tags))]
        else [Visit(a, ImportedEdge(b, d, tags)), Visit(b, ImportedEdge(a, d, tags))]
  }

  /** The edges of a way, segment by segment. */
  function WayEdges(p: Places, ids: seq<int>, tags: WayTags, oneway: int): seq<Visit> {
    if |ids| < 2 then [] else
      WayEdges(p, ids[..|ids| - 1], tags, oneway) + Segment(p, ids[|ids| - 2], ids[|ids| - 1], tags, oneway)
  }

  lemma OneMoreSegment(p: Places, ids: seq<int>, b: int, tags: WayTags, oneway: int)
    requires ids != []
    ensures WayEdges(p, ids + [b], tags, oneway)
      == WayEdges(p, ids, tags, oneway) + Segment(p, ids[|ids| - 1], b, tags, oneway)
  {
    assert (ids + [b])[..|ids|] == ids;
  }

  /** Decodes the references while visiting; a broken or empty list is an error. */
  method VisitWay(p: Places, refs: seq<Byte>, tags: WayTags, oneway: int) returns (r: Option<seq<Visit>>)
    ensures r == match RefsOf(refs) case None => None case Some(ids) => Some(WayEdges(p, ids, tags, oneway))
  {
    hide *;
    var segs := [refs];
    var first := ReadUvarint(refs, 0);
    FirstRef(refs);
    if !first.Value? {
      return None;
    }
    var aId, i := Wrap(ZigzagDecode(first.v)), first.next;
    ghost var seen: seq<int> := [aId];
    NoSegments(p, aId, tags, oneway);
    var visited: seq<Visit> := [];
    while i < |refs|
      invariant i <= |refs| && seen != [] && aId == seen[|seen| - 1]
      invariant visited == WayEdges(p, seen, tags, oneway)
      invariant RefsOf(refs) == Onto(seen, aId, StreamFrom(segs, 0, i))
      decreases |refs| - i
    {
      StreamAt(segs, 0, i);
      OntoNeedsWhole(seen, aId, StreamFrom(segs, 0, i));
      var next := ReadUvarint(refs, i);
      if !next.Value? {
        return None;
      }
      var bId := Wrap(aId + ZigzagDecode(next.v));
      OntoMore(seen, aId, next.v, StreamFrom(segs, 0, next.next));
      OneMoreSegment(p, seen, bId, tags, oneway);
      visited := visited + Segment(p, aId, bId, tags, oneway);
      aId, i, seen := bId, next.next, seen + [bId];
    }
    StreamAt(segs, 0, i);
    StreamIsOver(segs);
    OntoEnd(seen, aId);
    r := Some(visited);
  }

  lemma NoSegments(p: Places, id: int, tags: WayTags, oneway: int)
    ensures WayEdges(p, [id], tags, oneway) == []
  {}

  lemma FirstRef(refs: seq<Byte>)
    ensures var first := ReadVarint(refs, 0);
      if first.Value? then
        first.next <= |refs|
          && RefsOf(refs)
          == Onto([Wrap(ZigzagDecode(first.v))], Wrap(ZigzagDecode(first.v)), StreamFrom([refs], 0, first.next))
      else RefsOf(refs) == None
  {
    var segs := [refs];
    StreamAt(segs, 0, 0);
    StreamIsOver(segs);
    WholeStream(segs);
    OntoStart(StreamOf(segs));
    var first := ReadVarint(refs, 0);
    if first.Value? {
      OntoMore([], 0, first.v, StreamFrom(segs, 0, first.next));
    }
  }
}
