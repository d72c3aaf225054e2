/** The spatial index of a compact graph file: a table of (cell key, node) records, checked on opening
    and read cell by cell (`OpenGraph`, `cellNodesIter` and its iterator in core/router_store.go).
    The grid arithmetic is abstracted: `cellOf` gives the cell key of every node. */
module CellTable {
  import opened Pigeonhole

  datatype CellRec = CellRec(key: int, node: nat)

  predicate Before(a: CellRec, b: CellRec) {
    a.key < b.key || (a.key == b.key && a.node < b.node)
  }

  ghost predicate RecordOk(cells: seq<CellRec>, cellOf: nat -> int, i: nat)
    requires i < |cells|
  {
    && cells[i].node < |cells| && cells[i].key == cellOf(cells[i].node)
    && (i > 0 ==> Before(cells[i - 1], cells[i]))
  }

  /** As many records as nodes, strictly in order, each in the cell of its node. */
  ghost predicate CellsOk(cells: seq<CellRec>, cellOf: nat -> int) {
    forall i :: 0 <= i < |cells| ==> RecordOk(cells, cellOf, i)
  }

  method CheckCells(cells: seq<CellRec>, cellOf: nat -> int) returns (ok: bool)
    ensures ok <==> CellsOk(cells, cellOf)
  {
    var lastKey, lastNode := 0, 0;
    for i := 0 to |cells|
      invariant forall k :: 0 <= k < i ==> RecordOk(cells, cellOf, k)
      invariant i > 0 ==> lastKey == cells[i - 1].key && lastNode == cells[i - 1].node
    {
      var key, node := cells[i].key, cells[i].node;
      if node >= |cells| || (i > 0 && (key < lastKey || (key == lastKey && node <= lastNode))) {
        assert !RecordOk(cells, cellOf, i);
        return false;
      }
      if key != cellOf(node) {
        assert !RecordOk(cells, cellOf, i);
        return false;
      }
      lastKey, lastNode := key, node;
    }
    return true;
  }

  lemma {:induction false} InOrder(cells: seq<CellRec>, cellOf: nat -> int, i: nat, j: nat)
    requires CellsOk(cells, cellOf) && i < j < |cells|
    ensures Before(cells[i], cells[j])
    decreases j
  {
    assert RecordOk(cells, cellOf, j);
    if i < j - 1 {
      InOrder(cells, cellOf, i, j - 1);
    }
  }

  /** No node is listed twice. */
  lemma ListedOnce(cells: seq<CellRec>, cellOf: nat -> int, i: nat, j: nat)
    requires CellsOk(cells, cellOf) && i < |cells| && j < |cells| && cells[i].node == cells[j].node
    ensures i == j
  {
    assert RecordOk(cells, cellOf, i) && RecordOk(cells, cellOf, j);
    if i < j {
      InOrder(cells, cellOf, i, j);
    } else if j < i {
      InOrder(cells, cellOf, j, i);
    }
  }

  ghost function ListedNodes(cells: seq<CellRec>): (r: seq<nat>)
    ensures |r| == |cells| && forall i :: 0 <= i < |r| ==> r[i] == cells[i].node
  {
    seq(|cells|, i requires 0 <= i < |cells| => cells[i].node)
  }

  /** The order and the key check leave no room for a missing node: the table lists every node exactly once. */
  lemma EveryNodeListed(cells: seq<CellRec>, cellOf: nat -> int, x: nat) returns (i: nat)
    requires CellsOk(cells, cellOf) && x < |cells|
    ensures i < |cells| && cells[i].node == x && cells[i].key == cellOf(x)
    ensures forall j :: 0 <= j < |cells| && cells[j].node == x ==> j == i
  {
    var nodes := ListedNodes(cells);
    forall i, j | 0 <= i < j < |nodes|
      ensures nodes[i] != nodes[j]
    {
      if nodes[i] == nodes[j] {
        ListedOnce(cells, cellOf, i, j);
      }
    }
    forall i | 0 <= i < |nodes|
      ensures nodes[i] < |cells|
    {
      assert RecordOk(cells, cellOf, i);
    }
    DistinctSize(nodes);
    SubsetSize(Elements(nodes), Below(|cells|));
    assert x in Elements(nodes);
    i :| 0 <= i < |nodes| && nodes[i] == x;
    assert RecordOk(cells, cellOf, i);
    forall j | 0 <= j < |cells| && cells[j].node == x
      ensures j == i
    {
      ListedOnce(cells, cellOf, i, j);
    }
  }

  // ---- Reading one cell ----

  /** The nodes an iterator at the front of `data` still has to deliver. */
  function Remaining(data: seq<CellRec>, key: int): seq<nat> {
    if data == [] || data[0].key != key then [] else [data[0].node] + Remaining(data[1..], key)
  }

  class CellNodeIterator {
    var data: seq<CellRec>
    const key: int
    var node: nat

    constructor (data: seq<CellRec>, key: int)
      ensures this.data == data && this.key == key
    {
      this.data, this.key, this.node := data, key, 0;
    }

    method Next() returns (more: bool)
      modifies this
      ensures more <==> Remaining(old(data), key) != []
      ensures more ==> [node] + Remaining(data, key) == Remaining(old(data), key)
      ensures !more ==> data == [] && node == old(node)
      ensures more ==> |data| < |old(data)|
    {
      if |data| == 0 || data[0].key != key {
        data := [];
        return false;
      }
      node := data[0].node;
      data := data[1..];
      return true;
    }
  }

  /** Finds the first record of the cell by binary search. */
  method CellNodesIter(cells: seq<CellRec>, ghost cellOf: nat -> int, key: int)
    returns (it: CellNodeIterator, ghost start: nat)
    requires CellsOk(cells, cellOf)
    ensures fresh(it) && it.key == key
    ensures start <= |cells| && it.data == cells[start..]
    ensures forall i :: 0 <= i < |cells| ==> (i < start <==> cells[i].key < key)
  {
    var lo, hi := 0, |cells|;
    while lo < hi
      invariant 0 <= lo <= hi <= |cells|
      invariant forall i :: 0 <= i < lo ==> cells[i].key < key
      invariant forall i :: hi <= i < |cells| ==> cells[i].key >= key
    {
      var mid := (lo + hi) / 2;
      KeysAround(cells, cellOf, mid);
      if cells[mid].key >= key {
        hi := mid;
      } else {
        lo := mid + 1;
      }
    }
    start := lo;
    it := new CellNodeIterator(cells[lo..], key);
  }

  lemma KeysAround(cells: seq<CellRec>, cellOf: nat -> int, mid: nat)
    requires CellsOk(cells, cellOf) && mid < |cells|
    ensures forall i :: 0 <= i < mid ==> cells[i].key <= cells[mid].key
    ensures forall i :: mid < i < |cells| ==> cells[mid].key <= cells[i].key
  {
    forall i | 0 <= i < mid
      ensures cells[i].key <= cells[mid].key
    {
      InOrder(cells, cellOf, i, mid);
    }
    forall i | mid < i < |cells|
      ensures cells[mid].key <= cells[i].key
    {
      InOrder(cells, cellOf, mid, i);
    }
  }

  ghost predicate Increasing(s: seq<nat>) {
    forall a, b :: 0 <= a < b < |s| ==> s[a] < s[b]
  }

  /** Node `x` is listed under the key at or after record `i`. */
  ghost predicate ListedFrom(cells: seq<CellRec>, key: int, i: nat, x: nat) {
    exists k :: i <= k < |cells| && cells[k] == CellRec(key, x)
  }

  lemma PrependLesser(x: nat, s: seq<nat>)
    requires Increasing(s) && forall y :: y in s ==> x < y
    ensures Increasing([x] + s)
  {
    var r := [x] + s;
    forall a, b | 0 <= a < b < |r|
      ensures r[a] < r[b]
    {
      assert r[b] in s;
    }
  }

  lemma LaterIsGreater(cells: seq<CellRec>, cellOf: nat -> int, i: nat, x: nat)
    requires CellsOk(cells, cellOf) && i < |cells| && ListedFrom(cells, cells[i].key, i + 1, x)
    ensures cells[i].node < x
  {
    var m := i + 1;
    var k :| m <= k < |cells| && cells[k] == CellRec(cells[i].key, x);
    InOrder(cells, cellOf, i, k);
  }

  lemma ListedHereOrLater(cells: seq<CellRec>, key: int, i: nat, x: nat)
    requires i < |cells|
    ensures ListedFrom(cells, key, i, x) <==> cells[i] == CellRec(key, x) || ListedFrom(cells, key, i + 1, x)
  {
    var m := i + 1;
    if ListedFrom(cells, key, i, x) && cells[i] != CellRec(key, x) {
      var k :| i <= k < |cells| && cells[k] == CellRec(key, x);
      assert m <= k;
    }
  }

  lemma PastTheCell(cells: seq<CellRec>, cellOf: nat -> int, key: int, i: nat, x: nat)
    requires CellsOk(cells, cellOf) && i < |cells| && cells[i].key > key
    ensures !ListedFrom(cells, key, i, x)
  {
    KeysAround(cells, cellOf, i);
  }

  lemma RemainingStep(cells: seq<CellRec>, key: int, i: nat)
    requires i < |cells|
    ensures Remaining(cells[i..], key) == if cells[i].key != key then []
      else [cells[i].node] + Remaining(cells[i + 1..], key)
  {
    assert cells[i..][0] == cells[i] && cells[i..][1..] == cells[i + 1..];
  }

  /** From record `i` on, the iterator delivers the nodes of the rest of the cell, in increasing order. */
  lemma {:induction false} RestOfCell(cells: seq<CellRec>, cellOf: nat -> int, key: int, i: nat)
    requires CellsOk(cells, cellOf) && i <= |cells|
    requires forall k :: i <= k < |cells| ==> cells[k].key >= key
    ensures forall x: nat :: x in Remaining(cells[i..], key) <==> ListedFrom(cells, key, i, x)
    ensures Increasing(Remaining(cells[i..], key))
    decreases |cells| - i
  {
    hide ListedFrom;
    hide CellsOk;
    if i == |cells| {
      NoneLeft(cells, key);
    } else {
      var m := i + 1;
      var rest := Remaining(cells[m..], key);
      RemainingStep(cells, key, i);
      RestOfCell(cells, cellOf, key, m);
      hide Remaining;
      forall x: nat
        ensures x in Remaining(cells[i..], key) <==> ListedFrom(cells, key, i, x)
        ensures cells[i].key == key && x in rest ==> cells[i].node < x
      {
        ListedHereOrLater(cells, key, i, x);
        if cells[i].key != key {
          PastTheCell(cells, cellOf, key, i, x);
        } else if x in rest {
          LaterIsGreater(cells, cellOf, i, x);
        }
      }
      if cells[i].key == key {
        PrependLesser(cells[i].node, rest);
      }
    }
  }

  lemma NoneLeft(cells: seq<CellRec>, key: int)
    ensures Remaining(cells[|cells|..], key) == []
    ensures forall x: nat :: !ListedFrom(cells, key, |cells|, x)
  {}

  /** Whoever drains the iterator of a cell sees exactly the nodes of that cell, each once. */
  method NodesInCell(cells: seq<CellRec>, ghost cellOf: nat -> int, key: int) returns (nodes: seq<nat>)
    requires CellsOk(cells, cellOf)
    ensures forall x: nat :: x in nodes <==> x < |cells| && cellOf(x) == key
    ensures Increasing(nodes)
  {
    var it, start := CellNodesIter(cells, cellOf, key);
    RestOfCell(cells, cellOf, key, start);
    ghost var all := Remaining(cells[start..], key);
    nodes := [];
    var more := it.Next();
    while more
      invariant fresh(it) && it.key == key
      invariant if more then nodes + [it.node] + Remaining(it.data, key) == all else nodes == all
      decreases |it.data|, more
    {
      ghost var seen := nodes + [it.node];
      nodes := nodes + [it.node];
      ghost var left := Remaining(it.data, key);
      more := it.Next();
      assert more ==> seen + ([it.node] + Remaining(it.data, key)) == all;
    }
    forall x: nat
      ensures x in nodes <==> x < |cells| && cellOf(x) == key
    {
      CellHas(cells, cellOf, key, start, x);
    }
  }

  lemma CellHas(cells: seq<CellRec>, cellOf: nat -> int, key: int, start: nat, x: nat)
    requires CellsOk(cells, cellOf) && start <= |cells|
    requires forall i :: 0 <= i < |cells| ==> (i < start <==> cells[i].key < key)
    ensures x in Remaining(cells[start..], key) <==> x < |cells| && cellOf(x) == key
  {
    RestOfCell(cells, cellOf, key, start);
    if x < |cells| && cellOf(x) == key {
      var i := EveryNodeListed(cells, cellOf, x);
      assert cells[i] == CellRec(key, x);
    }
    if ListedFrom(cells, key, start, x) {
      var k :| start <= k < |cells| && cells[k] == CellRec(key, x);
      assert RecordOk(cells, cellOf, k);
    }
  }
}
