/** Delta-coded way references and dense nodes decoded straight from packed fields (core/extract.go). */
module DenseNodes {
  import opened Common
  import opened Varints
  import opened PackedFields

  /** The running totals of zigzag deltas, in 64-bit arithmetic. */
  function Totals(deltas: seq<nat>, acc: int): (r: seq<int>)
    ensures |r| == |deltas|
  {
    if deltas == [] then [] else
      var next := Wrap(acc + ZigzagDecode(deltas[0]));
      [next] + Totals(deltas[1..], next)
  }

  /** The totals so far, continued by a stream of deltas; none if the stream breaks. */
  ghost function Onto(out: seq<int>, acc: int, rest: Stream): Option<seq<int>> {
    match Whole(rest) case None => None case Some(deltas) => Some(out + Totals(deltas, acc))
  }

  lemma OntoMore(out: seq<int>, acc: int, v: nat, rest: Stream)
    ensures var next := Wrap(acc + ZigzagDecode(v));
      Onto(out, acc, More(v, rest)) == Onto(out + [next], next, rest)
  {
    var next := Wrap(acc + ZigzagDecode(v));
    if Whole(rest).Some? {
      assert ([v] + Whole(rest).value)[1..] == Whole(rest).value;
      assert out + ([next] + Totals(Whole(rest).value, next)) == (out + [next]) + Totals(Whole(rest).value, next);
    }
  }

  lemma OntoEnd(out: seq<int>, acc: int)
    ensures Onto(out, acc, End) == Some(out)
  {
    assert out + [] == out;
  }

  lemma OntoStart(s: Stream)
    ensures Onto([], 0, s) == match Whole(s) case None => None case Some(deltas) => Some(Totals(deltas, 0))
  {
    if Whole(s).Some? {
      assert [] + Totals(Whole(s).value, 0) == Totals(Whole(s).value, 0);
    }
  }

  lemma StreamAt(segs: seq<seq<Byte>>, seg: nat, i: nat)
    requires seg < |segs| && i <= |segs[seg]|
    ensures if i == |segs[seg]| then StreamFrom(segs, seg, i) == StreamFrom(segs, seg + 1, 0)
      else var read := ReadVarint(segs[seg], i);
        if read.Value? then i < read.next <= |segs[seg]|
          && StreamFrom(segs, seg, i) == More(read.v, StreamFrom(segs, seg, read.next))
        else Whole(StreamFrom(segs, seg, i)).None?
  {
    ReadFits(segs[seg], i);
  }

  lemma OntoNeedsWhole(out: seq<int>, acc: int, s: Stream)
    ensures Onto(out, acc, s).Some? <==> Whole(s).Some?
  {}

  /** Sizes the result by counting, then decodes; refuses exactly the fields that do not decode. */
  method DecodeWayRefs(segs: seq<seq<Byte>>) returns (r: Option<seq<int>>)
    ensures r == match Whole(StreamOf(segs)) case None => None case Some(deltas) => Some(Totals(deltas, 0))
  {
    var count := PackedValueCount(segs);
    CountIsLength(StreamOf(segs), 0);
    if count.Refused? {
      return None;
    }
    hide *;
    ghost var all := StreamOf(segs);
    OntoStart(all);
    WholeStream(segs);
    var out, acc := [], 0;
    for s := 0 to |segs|
      invariant Onto(out, acc, StreamFrom(segs, s, 0)) == Onto([], 0, all) && Onto([], 0, all).Some?
    {
      var i: nat := 0;
      while i < |segs[s]|
        invariant i <= |segs[s]| && Onto(out, acc, StreamFrom(segs, s, i)) == Onto([], 0, all)
        decreases |segs[s]| - i
      {
        StreamAt(segs, s, i);
        OntoNeedsWhole(out, acc, StreamFrom(segs, s, i));
        var read := ReadUvarint(segs[s], i);
        OntoMore(out, acc, read.v, StreamFrom(segs, s, read.next));
        acc, i := Wrap(acc + ZigzagDecode(read.v)), read.next;
        out := out + [acc];
      }
      StreamAt(segs, s, i);
    }
    StreamIsOver(segs);
    OntoEnd(out, acc);
    r := Some(out);
  }

  lemma WholeStream(segs: seq<seq<Byte>>)
    ensures StreamOf(segs) == StreamFrom(segs, 0, 0)
  {}

  lemma StreamIsOver(segs: seq<seq<Byte>>)
    ensures StreamFrom(segs, |segs|, 0) == End
  {}

  // ---- Dense nodes ----

  /** How a 64-bit varint is read as a 32-bit signed number. */
  function Int32(v: nat): int {
    var low := v % 0x1_0000_0000;
    if low < 0x8000_0000 then low else low - 0x1_0000_0000
  }

  /** The pairs before the next zero key, and what follows them. */
  datatype Tags = Pairs(pairs: seq<(nat, nat)>, rest: Stream) | Bad

  function TagsFrom(kv: Stream, started: bool): Tags {
    match kv
    case End => if started then Bad else Pairs([], End)
    case Broken(_) => Bad
    case More(k, rest) =>
      if Int32(k) == 0 then Pairs([], rest) else
        match rest
        case More(v, rest') =>
          (match TagsFrom(rest', true)
           case Bad => Bad
           case Pairs(pairs, end) => Pairs([(k, v)] + pairs, end))
        case _ => Bad
  }

  /** The table of strings keys and values refer to, which tags are kept, and who asks for them: nobody
      unless `wantTags`, every node with tags if `askAny`, otherwise nodes with a key that asks. */
  datatype Reader =
      Reader(strings: seq<string>, keep: string -> bool, wantTags: bool, askAny: bool, asked: string -> bool)

  /** The tags of the next node; a reader without interest in tags does not look at them. */
  function NodeTags(x: Reader, kv: Stream): Tags {
    if x.wantTags then TagsFrom(kv, false) else Pairs([], kv)
  }

  predicate InTable(x: Reader, i: int) {
    0 <= i < |x.strings|
  }

  predicate Asked(x: Reader, pairs: seq<(nat, nat)>) {
    pairs != [] && (x.askAny || KeyAsks(x, pairs))
  }

  predicate KeyAsks(x: Reader, pairs: seq<(nat, nat)>) {
    exists i :: 0 <= i < |pairs| && InTable(x, Int32(pairs[i].0)) && x.asked(x.strings[Int32(pairs[i].0)])
  }

  /** The kept tags; the last value of a repeated key stays. */
  function TagMap(x: Reader, pairs: seq<(nat, nat)>): map<string, string> {
    if pairs == [] then map[] else
      var (k, v) := (Int32(pairs[|pairs| - 1].0), Int32(pairs[|pairs| - 1].1));
      var before := TagMap(x, pairs[..|pairs| - 1]);
      if InTable(x, k) && InTable(x, v) && x.keep(x.strings[k]) then before[x.strings[k] := x.strings[v]] else before
  }

  datatype DenseNode = DenseNode(id: int, lat: int, lon: int, tags: Option<map<string, string>>)

  datatype Decoded = Decoded(nodes: seq<DenseNode>, ok: bool)

  /** The nodes of three delta fields with the tags of the fourth, up to the first bad tag list. */
  function Dense(x: Reader, ids: seq<nat>, lats: seq<nat>, lons: seq<nat>, kv: Stream, id: int, lat: int,
      lon: int): Decoded
    requires |ids| == |lats| == |lons|
  {
    if ids == [] then Decoded([], true) else
      var id', lat', lon' :=
        Wrap(id + ZigzagDecode(ids[0])), Wrap(lat + ZigzagDecode(lats[0])), Wrap(lon + ZigzagDecode(lons[0]));
      match NodeTags(x, kv)
      case Bad => Decoded([DenseNode(id', lat', lon', None)], false)
      case Pairs(pairs, rest) =>
        var tags := if Asked(x, pairs) then Some(TagMap(x, pairs)) else None;
        var more := Dense(x, ids[1..], lats[1..], lons[1..], rest, id', lat', lon');
        Decoded([DenseNode(id', lat', lon', tags)] + more.nodes, more.ok)
  }

  /** The coordinates handed out are the running totals of the three fields. */
  lemma {:induction false} DenseTotals(x: Reader, ids: seq<nat>, lats: seq<nat>, lons: seq<nat>, kv: Stream, id: int,
      lat: int, lon: int)
    requires |ids| == |lats| == |lons|
    ensures var r := Dense(x, ids, lats, lons, kv, id, lat, lon);
      && |r.nodes| <= |ids| && (r.ok ==> |r.nodes| == |ids|)
      && forall i :: 0 <= i < |r.nodes| ==>
           r.nodes[i].id == Totals(ids, id)[i] && r.nodes[i].lat == Totals(lats, lat)[i]
             && r.nodes[i].lon == Totals(lons, lon)[i]
  {
    if ids != [] && NodeTags(x, kv).Pairs? {
      DenseTotals(x, ids[1..], lats[1..], lons[1..], NodeTags(x, kv).rest,
                  Wrap(id + ZigzagDecode(ids[0])), Wrap(lat + ZigzagDecode(lats[0])),
                    Wrap(lon + ZigzagDecode(lons[0])));
    }
  }

  // ---- The decoder ----

  lemma WholeOfMore(s: Stream)
    requires Whole(s).Some? && Whole(s).value != []
    ensures s.More? && Whole(s.rest) == Some(Whole(s).value[1..]) && s.v == Whole(s).value[0]
  {}

  /** Reads one value of a field that was counted before. */
  method ReadCounted(c: PackedCursor, ghost left: seq<nat>) returns (v: nat)
    requires c.Valid() && Whole(c.Rest()) == Some(left) && left != []
    modifies c
    ensures c.Valid() && v == left[0] && Whole(c.Rest()) == Some(left[1..])
  {
    WholeOfMore(c.Rest());
    var next := c.Read();
    v := next.v;
  }

  /** What the list from here on adds to the pairs scanned so far. */
  function Onward(before: seq<(nat, nat)>, t: Tags): Tags {
    match t case Bad => Bad case Pairs(pairs, rest) => Pairs(before + pairs, rest)
  }

  lemma OnwardAdds(before: seq<(nat, nat)>, k: nat, v: nat, t: Tags)
    ensures Onward(before, Onward([(k, v)], t)) == Onward(before + [(k, v)], t)
  {
    if t.Pairs? {
      assert before + ([(k, v)] + t.pairs) == (before + [(k, v)]) + t.pairs;
    }
  }

  lemma NothingAsks(x: Reader)
    ensures !KeyAsks(x, [])
  {}

  lemma AsksMore(x: Reader, pairs: seq<(nat, nat)>, p: (nat, nat))
    ensures KeyAsks(x, pairs + [p]) <==> KeyAsks(x, pairs) || (InTable(x, Int32(p.0)) && x.asked(x.strings[Int32(p.0)]))
  {
    var more := pairs + [p];
    if KeyAsks(x, pairs) {
      var i :| 0 <= i < |pairs| && InTable(x, Int32(pairs[i].0)) && x.asked(x.strings[Int32(pairs[i].0)]);
      assert more[i] == pairs[i];
    }
    if InTable(x, Int32(p.0)) && x.asked(x.strings[Int32(p.0)]) {
      assert more[|pairs|] == p;
    }
  }

  /** Scans the tags of one node: counts the pairs and notices whether any key is asked for. */
  method ScanTags(x: Reader, kv: PackedCursor)
    returns (ok: bool, pairCount: nat, asked: bool, ghost scanned: seq<(nat, nat)>)
    requires kv.Valid() && Whole(kv.Rest()).Some?
    modifies kv
    ensures kv.Valid()
    ensures ok <==> TagsFrom(old(kv.Rest()), false).Pairs?
    ensures ok ==> TagsFrom(old(kv.Rest()), false) == Pairs(scanned, kv.Rest()) && Whole(kv.Rest()).Some?
    ensures ok ==> pairCount == |scanned| && asked == (x.askAny || KeyAsks(x, scanned))
  {
    hide KeyAsks;
    NothingAsks(x);
    pairCount, asked, scanned := 0, x.askAny, [];
    ghost var all := TagsFrom(kv.Rest(), false);
    assert Onward([], all) == all;
    while true
      invariant kv.Valid() && Whole(kv.Rest()).Some?
      invariant Onward(scanned, TagsFrom(kv.Rest(), pairCount > 0)) == all
      invariant pairCount == |scanned| && asked == (x.askAny || KeyAsks(x, scanned))
      decreases kv.Rest()
    {
      var key := kv.Read();
      if key == AtEnd {
        ok := pairCount == 0;
        return;
      }
      var k := key.v;
      if Int32(k) == 0 {
        ok := true;
        assert scanned + [] == scanned;
        return;
      }
      var val := kv.Read();
      if val == AtEnd {
        ok := false;
        return;
      }
      OnwardAdds(scanned, k, val.v, TagsFrom(kv.Rest(), true));
      AsksMore(x, scanned, (k, val.v));
      pairCount, scanned := pairCount + 1, scanned + [(k, val.v)];
      if InTable(x, Int32(k)) && x.asked(x.strings[Int32(k)]) {
        asked := true;
      }
    }
  }

  /** The stream begins with the keys and values of these pairs. */
  ghost predicate StartsWith(s: Stream, pairs: seq<(nat, nat)>) {
    pairs == [] || (s.More? && s.rest.More? && (s.v, s.rest.v) == pairs[0] && StartsWith(s.rest.rest, pairs[1..]))
  }

  lemma {:induction false} ListStarts(kv: Stream, started: bool)
    requires TagsFrom(kv, started).Pairs?
    ensures StartsWith(kv, TagsFrom(kv, started).pairs)
  {
    if kv.More? && Int32(kv.v) != 0 {
      ListStarts(kv.rest.rest, true);
      var pairs := TagsFrom(kv, started).pairs;
      assert pairs[1..] == TagsFrom(kv.rest.rest, true).pairs;
    }
  }

  lemma TagMapMore(x: Reader, pairs: seq<(nat, nat)>, n: nat)
    requires n < |pairs|
    ensures TagMap(x, pairs[..n + 1]) ==
      var (k, v) := (Int32(pairs[n].0), Int32(pairs[n].1));
      if InTable(x, k) && InTable(x, v) && x.keep(x.strings[k]) then TagMap(x, pairs[..n])[x.strings[k] := x.strings[v]]
      else TagMap(x, pairs[..n])
  {
    assert pairs[..n + 1][..n] == pairs[..n];
  }

  /** Replays the pairs from a copy of the cursor taken before the scan. */
  method ReplayTags(x: Reader, start: PackedCursor, pairCount: nat, ghost scanned: seq<(nat, nat)>)
    returns (tags: map<string, string>)
    requires start.Valid() && StartsWith(start.Rest(), scanned) && pairCount == |scanned|
    modifies start
    ensures tags == TagMap(x, scanned)
  {
    tags := map[];
    for pair := 0 to pairCount
      invariant start.Valid() && StartsWith(start.Rest(), scanned[pair..])
      invariant tags == TagMap(x, scanned[..pair])
    {
      TagMapMore(x, scanned, pair);
      assert scanned[pair..][0] == scanned[pair] && scanned[pair..][1..] == scanned[pair + 1..];
      var key := start.Read();
      var val := start.Read();
      var ki, vi := Int32(key.v), Int32(val.v);
      if InTable(x, ki) && InTable(x, vi) && x.keep(x.strings[ki]) {
        tags := tags[x.strings[ki] := x.strings[vi]];
      }
    }
    assert scanned[..pairCount] == scanned;
  }

  /** One node: its tags are scanned once and replayed from a copy of the cursor if they are asked for. */
  method ReadTags(x: Reader, kv: PackedCursor) returns (ok: bool, tags: Option<map<string, string>>)
    requires kv.Valid() && Whole(kv.Rest()).Some?
    modifies kv
    ensures kv.Valid()
    ensures match NodeTags(x, old(kv.Rest()))
      case Bad => !ok
      case Pairs(pairs, rest) =>
        ok && kv.Rest() == rest && Whole(rest).Some? && tags == if Asked(x, pairs) then Some(TagMap(x, pairs)) else None
  {
    var tagStart := new PackedCursor.Copy(kv);
    var pairCount, asked;
    ghost var scanned;
    tags := None;
    if !x.wantTags {
      return true, None;
    }
    ok, pairCount, asked, scanned := ScanTags(x, kv);
    if ok && pairCount != 0 && asked {
      ListStarts(tagStart.Rest(), false);
      var all := ReplayTags(x, tagStart, pairCount, scanned);
      tags := Some(all);
    }
  }

  /** The outcome of decoding, and the nodes handed out before it. */
  datatype Outcome = Done | Error(error: Error)

  ghost predicate Counts(segs: seq<seq<Byte>>, values: seq<nat>) {
    Whole(StreamOf(segs)) == Some(values)
  }

  lemma DenseStep(x: Reader, ids: seq<nat>, lats: seq<nat>, lons: seq<nat>, kv: Stream, id: int, lat: int, lon: int)
    requires |ids| == |lats| == |lons| > 0
    ensures var id', lat', lon' :=
      Wrap(id + ZigzagDecode(ids[0])), Wrap(lat + ZigzagDecode(lats[0])), Wrap(lon + ZigzagDecode(lons[0]));
      Dense(x, ids, lats, lons, kv, id, lat, lon) ==
        match NodeTags(x, kv)
        case Bad => Decoded([DenseNode(id', lat', lon', None)], false)
        case Pairs(pairs, rest) =>
          var tags := if Asked(x, pairs) then Some(TagMap(x, pairs)) else None;
          var more := Dense(x, ids[1..], lats[1..], lons[1..], rest, id', lat', lon');
          Decoded([DenseNode(id', lat', lon', tags)] + more.nodes, more.ok)
  {}

  ghost function After(before: seq<DenseNode>, d: Decoded): Decoded {
    Decoded(before + d.nodes, d.ok)
  }

  lemma AfterStep(before: seq<DenseNode>, node: DenseNode, more: Decoded)
    ensures After(before, Decoded([node] + more.nodes, more.ok)) == After(before + [node], more)
  {
    assert before + ([node] + more.nodes) == (before + [node]) + more.nodes;
  }

  /** Replays the three validated fields in step and hands out a node for each triple. */
  method EmitNodes(x: Reader, ids: PackedCursor, lats: PackedCursor, lons: PackedCursor, kv: PackedCursor, n: nat,
                   ghost idVs: seq<nat>, ghost latVs: seq<nat>, ghost lonVs: seq<nat>)
    returns (nodes: seq<DenseNode>, ok: bool)
    requires ids.Valid() && lats.Valid() && lons.Valid() && kv.Valid() && Whole(kv.Rest()).Some?
    requires ids != lats && ids != lons && ids != kv && lats != lons && lats != kv && lons != kv
    requires |idVs| == |latVs| == |lonVs| == n
    requires Whole(ids.Rest()) == Some(idVs) && Whole(lats.Rest()) == Some(latVs) && Whole(lons.Rest()) == Some(lonVs)
    modifies ids, lats, lons, kv
    ensures Decoded(nodes, ok) == Dense(x, idVs, latVs, lonVs, old(kv.Rest()), 0, 0, 0)
  {
    hide *;
    nodes := [];
    var idAcc, latAcc, lonAcc := 0, 0, 0;
    ghost var all := Dense(x, idVs, latVs, lonVs, kv.Rest(), 0, 0, 0);
    assert idVs[0..] == idVs && latVs[0..] == latVs && lonVs[0..] == lonVs;
    NothingBefore(all);
    for idx := 0 to n
      invariant ids.Valid() && lats.Valid() && lons.Valid() && kv.Valid() && Whole(kv.Rest()).Some?
      invariant Whole(ids.Rest()) == Some(idVs[idx..]) && Whole(lats.Rest()) == Some(latVs[idx..])
      invariant Whole(lons.Rest()) == Some(lonVs[idx..])
      invariant After(nodes, Dense(x, idVs[idx..], latVs[idx..], lonVs[idx..], kv.Rest(), idAcc, latAcc, lonAcc)) == all
    {
      DenseStep(x, idVs[idx..], latVs[idx..], lonVs[idx..], kv.Rest(), idAcc, latAcc, lonAcc);
      assert idVs[idx..][1..] == idVs[idx + 1..] && latVs[idx..][1..] == latVs[idx + 1..]
        && lonVs[idx..][1..] == lonVs[idx + 1..];
      var id := ReadCounted(ids, idVs[idx..]);
      var lat := ReadCounted(lats, latVs[idx..]);
      var lon := ReadCounted(lons, lonVs[idx..]);
      idAcc, latAcc, lonAcc :=
        Wrap(idAcc + ZigzagDecode(id)), Wrap(latAcc + ZigzagDecode(lat)), Wrap(lonAcc + ZigzagDecode(lon));
      ghost var was := kv.Rest();
      var good, tags := ReadTags(x, kv);
      if !good {
        LastNode(nodes, DenseNode(idAcc, latAcc, lonAcc, None));
        ok, nodes := false, nodes + [DenseNode(idAcc, latAcc, lonAcc, None)];
        return;
      }
      AfterStep(nodes, DenseNode(idAcc, latAcc, lonAcc, tags),
                Dense(x, idVs[idx + 1..], latVs[idx + 1..], lonVs[idx + 1..], kv.Rest(), idAcc, latAcc, lonAcc));
      nodes := nodes + [DenseNode(idAcc, latAcc, lonAcc, tags)];
    }
    ok := true;
    DenseEnds(x, kv.Rest(), idAcc, latAcc, lonAcc);
    NoMoreNodes(nodes);
  }

  lemma NothingBefore(d: Decoded)
    ensures After([], d) == d
  {}

  lemma LastNode(before: seq<DenseNode>, node: DenseNode)
    ensures After(before, Decoded([node], false)) == Decoded(before + [node], false)
  {}

  lemma NoMoreNodes(before: seq<DenseNode>)
    ensures After(before, Decoded([], true)) == Decoded(before, true)
  {}

  lemma DenseEnds(x: Reader, kv: Stream, id: int, lat: int, lon: int)
    ensures Dense(x, [], [], [], kv, id, lat, lon) == Decoded([], true)
  {}

  lemma NothingStarted(segs: seq<seq<Byte>>)
    ensures CountOf(StreamOf(segs), 0).Counted? <==> Whole(StreamOf(segs)).Some?
    ensures Whole(StreamOf(segs)).Some? ==> CountOf(StreamOf(segs), 0) == Counted(|Whole(StreamOf(segs)).value|)
  {
    CountIsLength(StreamOf(segs), 0);
  }

  /** Validates all four fields before handing out anything, then decodes each delta on the fly. */
  method ProcessDenseNodes(x: Reader, idSegs: seq<seq<Byte>>, latSegs: seq<seq<Byte>>, lonSegs: seq<seq<Byte>>,
      kvSegs: seq<seq<Byte>>)
    returns (nodes: seq<DenseNode>, r: Outcome)
    ensures var (ids, lats, lons, kv) :=
      (Whole(StreamOf(idSegs)), Whole(StreamOf(latSegs)), Whole(StreamOf(lonSegs)), Whole(StreamOf(kvSegs)));
      if ids.None? || lats.None? || lons.None? || kv.None? then r.Error? && nodes == []
      else if ids.value == [] then r == Done && nodes == []
      else if |lats.value| != |ids.value| || |lons.value| != |ids.value| then r == Error(LengthMismatch) && nodes == []
      else Decoded(nodes, r.Done?) == Dense(x, ids.value, lats.value, lons.value, StreamOf(kvSegs), 0, 0, 0)
  {
    NothingStarted(idSegs);
    NothingStarted(latSegs);
    NothingStarted(lonSegs);
    NothingStarted(kvSegs);
    hide Dense;
    hide Whole;
    hide CountOf;
    nodes := [];
    var n := PackedValueCount(idSegs);
    if n.Refused? {
      return nodes, Error(n.error);
    }
    var latCount := PackedValueCount(latSegs);
    if latCount.Refused? {
      return nodes, Error(latCount.error);
    }
    var lonCount := PackedValueCount(lonSegs);
    if lonCount.Refused? {
      return nodes, Error(lonCount.error);
    }
    var kvCount := PackedValueCount(kvSegs);
    if kvCount.Refused? {
      return nodes, Error(kvCount.error);
    }
    if n.n == 0 {
      return nodes, Done;
    }
    if latCount.n != n.n || lonCount.n != n.n {
      return nodes, Error(LengthMismatch);
    }
    var ids := new PackedCursor(idSegs);
    var lats := new PackedCursor(latSegs);
    var lons := new PackedCursor(lonSegs);
    var kv := new PackedCursor(kvSegs);
    var ok;
    nodes, ok := EmitNodes(x, ids, lats, lons, kv, n.n,
                           Whole(StreamOf(idSegs)).value, Whole(StreamOf(latSegs)).value,
                             Whole(StreamOf(lonSegs)).value);
    r := if ok then Done else Error(UnexpectedEnd);
  }
}
