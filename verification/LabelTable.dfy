/** Triangular probing over a table whose size is a power of two (core/router_index_labels.go). */
module Probing {
  import opened Common
  import opened Pigeonhole

  /** The offset reached after `k` probes with steps 1, 2, ..., k. */
  function Triangle(k: nat): nat {
    if k == 0 then 0 else Triangle(k - 1) + k
  }

  function Probe(start: nat, k: nat, size: nat): (slot: nat)
    requires size > 0
    ensures slot < size
  {
    (start + Triangle(k)) % size
  }

  /** Masking with a table size that is a power of two. */
  function Masked(index: nat, size: nat): (slot: nat)
    requires size > 0
    ensures slot < size
  {
    index % size
  }

  lemma FirstProbe(start: nat, size: nat)
    requires size > 0
    ensures Masked(start, size) == Probe(start, 0, size)
  {
    assert Triangle(0) == 0;
  }

  /** A probe step may be taken from the masked slot instead of from the unmasked sum. */
  lemma NextProbe(start: nat, k: nat, size: nat)
    requires size > 0
    ensures Masked(Probe(start, k, size) + (k + 1), size) == Probe(start, k + 1, size)
  {
    ModOfSum(start + Triangle(k), k + 1, size);
  }

  lemma ModOfSum(a: nat, b: nat, n: nat)
    requires n > 0
    ensures (a % n + b) % n == (a + b) % n
  {
    var q, r := a / n, a % n;
    var q', r' := (r + b) / n, (r + b) % n;
    assert a + b == (q + q') * n + r' by {
      assert (q + q') * n == q * n + q' * n;
    }
    RemainderUnique(a + b, q + q', r', n);
  }

  lemma NonPositiveProduct(r: int, m: int)
    requires r <= 0 && 0 < m
    ensures r * m <= 0
  {}

  lemma PositiveMultiple(d: int, r: int, m: int)
    requires 0 < d && 0 < m && d == r * m
    ensures m <= d
  {
    if r <= 0 {
      NonPositiveProduct(r, m);
    } else {
      NonPositiveProduct(1 - r, m);
      assert (1 - r) * m == m - r * m;
    }
  }

  lemma RemainderUnique(x: int, y: int, r: int, n: int)
    requires 0 <= r < n && x == y * n + r
    ensures x % n == r
  {
    var y', r' := x / n, x % n;
    var e := y' - y;
    assert e * n == y' * n - y * n;
    assert e * n == r - r';
    if e > 0 {
      PositiveMultiple(e * n, e, n);
    } else if e < 0 {
      assert (-e) * n == -(e * n);
      PositiveMultiple((-e) * n, -e, n);
    }
  }

  lemma {:induction false} TriangleGap(i: nat, j: nat)
    requires i <= j
    ensures 2 * (Triangle(j) - Triangle(i)) == (j - i) * (i + j + 1)
    decreases j
  {
    if i < j {
      TriangleGap(i, j - 1);
      assert (j - i) * (i + j + 1) == (j - 1 - i) * (i + j) + 2 * j;
    }
  }

  lemma Halves(x: int, b: int, m: int)
    requires (2 * x + 1) * b == 2 * m
    ensures b == 2 * (m - x * b)
    ensures (2 * x + 1) * (m - x * b) == m
  {
    var xb := x * b;
    assert (2 * x + 1) * b == 2 * xb + b;
    var c := m - xb;
    var xc := x * c;
    assert (2 * x + 1) * c == 2 * xc + c;
    assert 2 * xc == xb by { assert x * (2 * c) == 2 * xc; assert b == 2 * c; }
  }

  /** A power of two that divides a product with an odd factor divides the other factor. */
  lemma {:induction false} OddFactorDropsOut(x: int, b: int, q: int, k: nat) returns (r: int)
    requires (2 * x + 1) * b == q * Pow2(k)
    ensures b == r * Pow2(k)
    decreases k
  {
    if k == 0 {
      r := b;
    } else {
      var m := q * Pow2(k - 1);
      assert q * Pow2(k) == 2 * m;
      Halves(x, b, m);
      r := OddFactorDropsOut(x, m - x * b, q, k - 1);
      var half := r * Pow2(k - 1);
      assert r * Pow2(k) == 2 * half;
    }
  }

  lemma SameResidue(a: int, b: int, n: int) returns (q: int)
    requires n > 0 && a % n == b % n
    ensures b - a == q * n
  {
    var x, y := a / n, b / n;
    q := y - x;
    assert a == x * n + a % n && b == y * n + b % n;
    assert q * n == y * n - x * n;
  }

  lemma DoubledMultiple(half: int, product: int, q: int, bits: nat)
    requires half == q * Pow2(bits) && product == 2 * half
    ensures product == q * Pow2(bits + 1)
  {
    var p := Pow2(bits);
    assert q * (2 * p) == 2 * (q * p);
  }

  /** Two probes of one round that meet would have to be a whole round apart. */
  lemma MeetingProbesAreFarApart(start: nat, i: nat, j: nat, bits: nat)
    requires i < j
    requires (start + Triangle(i)) % Pow2(bits) == (start + Triangle(j)) % Pow2(bits)
    ensures Pow2(bits + 1) <= i + j + 1
  {
    var q := SameResidue(start + Triangle(i), start + Triangle(j), Pow2(bits));
    TriangleGap(i, j);
    var product := (j - i) * (i + j + 1);
    DoubledMultiple(Triangle(j) - Triangle(i), product, q, bits);
    GapTooWide(j - i, i + j + 1, q, bits);
  }

  /** No two of the first 2^bits probes meet. */
  lemma ProbesDistinct(start: nat, i: nat, j: nat, bits: nat)
    requires i < j < Pow2(bits)
    ensures Probe(start, i, Pow2(bits)) != Probe(start, j, Pow2(bits))
  {
    if Probe(start, i, Pow2(bits)) == Probe(start, j, Pow2(bits)) {
      MeetingProbesAreFarApart(start, i, j, bits);
    }
  }

  /** Of two factors with an odd sum one is odd, so the power of two divides the other. */
  lemma GapTooWide(d: nat, s: nat, q: int, bits: nat)
    requires d * s == q * Pow2(bits + 1)
    requires 0 < d && 0 < s && (d + s) % 2 == 1
    ensures Pow2(bits + 1) <= d || Pow2(bits + 1) <= s
  {
    if d % 2 == 1 {
      assert d == 2 * (d / 2) + 1;
      var r := OddFactorDropsOut(d / 2, s, q, bits + 1);
      PositiveMultiple(s, r, Pow2(bits + 1));
    } else {
      assert s == 2 * (s / 2) + 1;
      assert s * d == d * s;
      var r := OddFactorDropsOut(s / 2, d, q, bits + 1);
      PositiveMultiple(d, r, Pow2(bits + 1));
    }
  }

  /** Triangular probing visits every slot of a power-of-two table within one round. */
  lemma ProbeReaches(start: nat, slot: nat, bits: nat) returns (k: nat)
    requires slot < Pow2(bits)
    ensures k < Pow2(bits) && Probe(start, k, Pow2(bits)) == slot
  {
    var n := Pow2(bits);
    var visited := seq(n, (j: nat) => Probe(start, j, n));
    forall i, j | 0 <= i < j < n
      ensures visited[i] != visited[j]
    {
      ProbesDistinct(start, i, j, bits);
    }
    DistinctWithin(visited, Below(n));
    assert slot in Elements(visited);
    k :| 0 <= k < n && visited[k] == slot;
  }
}

/** The open-addressing label table of the compact searches. */
module LabelTable {
  import opened Common
  import opened Pigeonhole
  import opened Probing
  import opened SearchTheory

  /** A table entry; key 0 is an empty slot, otherwise key is the labelled id plus one. */
  datatype Entry = Entry(key: nat, previous: nat, distance: real)

  const EMPTY := Entry(0, 0, 0.0)

  /** The slot an id reaches at its k-th probe. */
  type ProbeOrder = (nat, nat) -> nat

  /** The first `k` probes for `node` meet only foreign keys. */
  ghost predicate Unblocked(probe: ProbeOrder, es: seq<Entry>, node: nat, k: nat) {
    forall j: nat :: j < k ==>
      probe(node, j) < |es| && es[probe(node, j)].key != 0 && es[probe(node, j)].key != node + 1
  }

  ghost predicate StoredAt(probe: ProbeOrder, es: seq<Entry>, node: nat, k: nat, value: Label<nat>) {
    && probe(node, k) < |es|
    && es[probe(node, k)] == Entry(node + 1, value.previous, value.cost)
    && Unblocked(probe, es, node, k)
  }

  ghost predicate AllStored(probe: ProbeOrder, es: seq<Entry>, labels: map<nat, Label<nat>>, at: map<nat, nat>)
    requires labels.Keys == at.Keys
  {
    forall v :: v in labels ==> StoredAt(probe, es, v, at[v], labels[v])
  }

  ghost predicate AllKnown(probe: ProbeOrder, es: seq<Entry>, labels: map<nat, Label<nat>>, at: map<nat, nat>)
    requires labels.Keys == at.Keys
  {
    forall s :: 0 <= s < |es| && es[s].key != 0 ==>
      es[s].key - 1 in labels && probe(es[s].key - 1, at[es[s].key - 1]) == s
  }

  /** The occupied slots hold exactly the map, each where probing (`at` many steps) finds it first. */
  ghost predicate Represents(probe: ProbeOrder, es: seq<Entry>, labels: map<nat, Label<nat>>, at: map<nat, nat>) {
    && labels.Keys == at.Keys
    && AllStored(probe, es, labels, at) && AllKnown(probe, es, labels, at)
    && (forall s :: 0 <= s < |es| && es[s].key == 0 ==> es[s] == EMPTY)
  }

  /** Probing for `node` has stopped: at a free slot or at the node's own key. */
  ghost predicate StopsAt(probe: ProbeOrder, es: seq<Entry>, node: nat, k: nat) {
    && Unblocked(probe, es, node, k)
    && probe(node, k) < |es|
    && (es[probe(node, k)].key == 0 || es[probe(node, k)].key == node + 1)
  }

  lemma EmptyTable(probe: ProbeOrder, es: seq<Entry>)
    requires forall s :: 0 <= s < |es| ==> es[s] == EMPTY
    ensures Represents(probe, es, map[], map[])
  {}

  /** Fewer labels than slots leave a slot empty. */
  lemma EmptySlotExists(probe: ProbeOrder, es: seq<Entry>, labels: map<nat, Label<nat>>, at: map<nat, nat>)
    returns (slot: nat)
    requires Represents(probe, es, labels, at)
    requires |labels| < |es|
    ensures slot < |es| && es[slot].key == 0
  {
    if forall s :: 0 <= s < |es| ==> es[s].key != 0 {
      var nodes := seq(|es|, s requires 0 <= s < |es| => es[s].key - 1);
      assert forall i :: 0 <= i < |es| ==> nodes[i] in labels && probe(nodes[i], at[nodes[i]]) == i;
      assert Distinct(nodes);
      DistinctWithin(nodes, labels.Keys);
    }
    slot :| 0 <= slot < |es| && es[slot].key == 0;
  }

  /** The slot probing stops at answers the lookup: occupied exactly when the id is labelled. */
  lemma StopAnswers(probe: ProbeOrder, es: seq<Entry>, labels: map<nat, Label<nat>>, at: map<nat, nat>, node: nat,
      k: nat)
    requires Represents(probe, es, labels, at)
    requires StopsAt(probe, es, node, k)
    ensures node in labels <==> es[probe(node, k)].key == node + 1
    ensures node in labels ==>
      at[node] == k && es[probe(node, k)] == Entry(node + 1, labels[node].previous, labels[node].cost)
    ensures node !in labels ==> es[probe(node, k)] == EMPTY
  {
    if node in labels {
      assert StoredAt(probe, es, node, at[node], labels[node]);
    }
  }

  lemma WriteKeepsStored(probe: ProbeOrder, es: seq<Entry>, v: nat, l: nat, value: Label<nat>, slot: nat, entry: Entry)
    requires StoredAt(probe, es, v, l, value)
    requires slot < |es| && slot != probe(v, l)
    requires entry.key != 0 && entry.key != v + 1
    ensures StoredAt(probe, es[slot := entry], v, l, value)
  {}

  lemma AllStillStored(probe: ProbeOrder, es: seq<Entry>, labels: map<nat, Label<nat>>, at: map<nat, nat>, node: nat,
      k: nat, value: Label<nat>, labels': map<nat, Label<nat>>, at': map<nat, nat>)
    requires Represents(probe, es, labels, at) && StopsAt(probe, es, node, k)
    requires labels' == labels[node := value] && at' == at[node := k] && labels'.Keys == at'.Keys
    ensures AllStored(probe, es[probe(node, k) := Entry(node + 1, value.previous, value.cost)], labels', at')
  {
    StopAnswers(probe, es, labels, at, node, k);
    var slot := probe(node, k);
    var entry := Entry(node + 1, value.previous, value.cost);
    var es' := es[slot := entry];
    forall v | v in labels'
      ensures StoredAt(probe, es', v, at'[v], labels'[v])
    {
      if v != node {
        assert StoredAt(probe, es, v, at[v], labels[v]);
        WriteKeepsStored(probe, es, v, at[v], labels[v], slot, entry);
      }
    }
  }

  lemma AllStillKnown(probe: ProbeOrder, es: seq<Entry>, labels: map<nat, Label<nat>>, at: map<nat, nat>, node: nat,
      k: nat, value: Label<nat>, labels': map<nat, Label<nat>>, at': map<nat, nat>)
    requires Represents(probe, es, labels, at) && StopsAt(probe, es, node, k)
    requires labels' == labels[node := value] && at' == at[node := k] && labels'.Keys == at'.Keys
    ensures AllKnown(probe, es[probe(node, k) := Entry(node + 1, value.previous, value.cost)], labels', at')
  {
    StopAnswers(probe, es, labels, at, node, k);
    hide StoredAt;
    hide StopsAt;
    hide Unblocked;
    var slot := probe(node, k);
    var es' := es[slot := Entry(node + 1, value.previous, value.cost)];
    forall s | 0 <= s < |es'| && es'[s].key != 0
      ensures es'[s].key - 1 in labels' && probe(es'[s].key - 1, at'[es'[s].key - 1]) == s
    {
      if s != slot {
        assert es[s].key - 1 in labels && probe(es[s].key - 1, at[es[s].key - 1]) == s;
      }
    }
  }

  /** Storing a label where probing stopped updates the map at that id only. */
  lemma StoreUpdates(probe: ProbeOrder, es: seq<Entry>, labels: map<nat, Label<nat>>, at: map<nat, nat>, node: nat,
      k: nat, value: Label<nat>)
    requires Represents(probe, es, labels, at)
    requires StopsAt(probe, es, node, k)
    ensures Represents(probe, es[probe(node, k) := Entry(node + 1, value.previous, value.cost)], labels[node := value],
      at[node := k])
  {
    var labels', at' := labels[node := value], at[node := k];
    assert labels'.Keys == labels.Keys + {node} && at'.Keys == at.Keys + {node};
    AllStillStored(probe, es, labels, at, node, k, value, labels', at');
    AllStillKnown(probe, es, labels, at, node, k, value, labels', at');
    hide AllStored;
    hide AllKnown;
  }

  ghost function ProbesOf(hash: nat -> nat, size: nat): ProbeOrder
    requires size > 0
  {
    (node: nat, k: nat) => Probe(hash(node), k, size)
  }

  /** Everything the probing loop needs to know about a table. */
  ghost predicate Table(hash: nat -> nat, es: seq<Entry>, bits: nat, labels: map<nat, Label<nat>>, at: map<nat, nat>) {
    && |es| == Pow2(bits)
    && |labels| < |es|
    && Represents(ProbesOf(hash, |es|), es, labels, at)
  }

  lemma TableFacts(hash: nat -> nat, es: seq<Entry>, bits: nat, labels: map<nat, Label<nat>>, at: map<nat, nat>)
    requires Table(hash, es, bits, labels, at)
    ensures |es| == Pow2(bits) && |labels| < |es|
    ensures Represents(ProbesOf(hash, |es|), es, labels, at)
  {}

  lemma FreeSlotAhead(hash: nat -> nat, es: seq<Entry>, bits: nat, labels: map<nat, Label<nat>>, at: map<nat, nat>,
      node: nat)
    returns (last: nat)
    requires Table(hash, es, bits, labels, at)
    ensures es[Probe(hash(node), last, |es|)].key == 0
  {
    var free := EmptySlotExists(ProbesOf(hash, |es|), es, labels, at);
    last := ProbeReaches(hash(node), free, bits);
  }

  lemma BlockedAtFree(probe: ProbeOrder, es: seq<Entry>, node: nat, k: nat, last: nat)
    requires Unblocked(probe, es, node, k)
    requires probe(node, last) < |es| && es[probe(node, last)].key == 0
    ensures k <= last
  {}

  lemma OneMoreBlocked(probe: ProbeOrder, es: seq<Entry>, node: nat, k: nat)
    requires Unblocked(probe, es, node, k)
    requires probe(node, k) < |es| && es[probe(node, k)].key != 0 && es[probe(node, k)].key != node + 1
    ensures Unblocked(probe, es, node, k + 1)
  {}

  /** The probing loop: it stops at the latest at a slot known to be free. */
  method ProbeUntil(es: seq<Entry>, start: nat, node: nat, ghost probe: ProbeOrder, ghost last: nat)
    returns (slot: nat, ghost k: nat)
    requires |es| > 0
    requires forall j: nat :: probe(node, j) == Probe(start, j, |es|)
    requires probe(node, last) < |es| && es[probe(node, last)].key == 0
    ensures slot < |es| && slot == probe(node, k)
    ensures StopsAt(probe, es, node, k)
  {
    var size := |es|;
    var step := 1;
    FirstProbe(start, size);
    slot := Masked(start, size);
    k := 0;
    while es[slot].key != 0 && es[slot].key != node + 1
      invariant step == k + 1 && k <= last
      invariant slot == Probe(start, k, size)
      invariant Unblocked(probe, es, node, k)
      decreases last - k
    {
      OneMoreBlocked(probe, es, node, k);
      BlockedAtFree(probe, es, node, k + 1, last);
      NextProbe(start, k, size);
      slot, step := Masked(slot + step, size), step + 1;
      k := k + 1;
    }
  }

  /** Looks an id up. Probing terminates because some slot is empty and every slot is visited. */
  method Slot(es: seq<Entry>, hash: nat -> nat, node: nat,
              ghost bits: nat, ghost labels: map<nat, Label<nat>>, ghost at: map<nat, nat>)
    returns (slot: nat, ghost k: nat)
    requires Table(hash, es, bits, labels, at)
    ensures StopsAt(ProbesOf(hash, |es|), es, node, k)
    ensures slot < |es| && slot == ProbesOf(hash, |es|)(node, k)
    ensures node in labels <==> es[slot].key != 0
    ensures es[slot] == if node in labels then Entry(node + 1, labels[node].previous, labels[node].cost) else EMPTY
  {
    ghost var last := FreeSlotAhead(hash, es, bits, labels, at, node);
    slot, k := ProbeUntil(es, hash(node), node, ProbesOf(hash, |es|), last);
    StopAnswers(ProbesOf(hash, |es|), es, labels, at, node, k);
  }

  /** Storing keeps a table a table as long as one slot stays free. */
  lemma StoreKeepsTable(hash: nat -> nat, es: seq<Entry>, bits: nat, labels: map<nat, Label<nat>>, at: map<nat, nat>,
                        node: nat, k: nat, value: Label<nat>)
    requires Table(hash, es, bits, labels, at)
    requires StopsAt(ProbesOf(hash, |es|), es, node, k)
    requires node in labels || |labels| + 1 < |es|
    ensures Table(hash, es[ProbesOf(hash, |es|)(node, k) := Entry(node + 1, value.previous, value.cost)],
                  bits, labels[node := value], at[node := k])
  {
    StoreUpdates(ProbesOf(hash, |es|), es, labels, at, node, k, value);
    LabelCount(labels, node, value);
  }

  lemma LabelCount(labels: map<nat, Label<nat>>, node: nat, value: Label<nat>)
    ensures |labels[node := value]| == |labels| + if node in labels then 0 else 1
  {
    if node in labels {
      assert labels[node := value].Keys == labels.Keys;
    } else {
      assert labels[node := value].Keys == labels.Keys + {node};
    }
  }

  /** The part of the old table that has been re-inserted after its first `i` slots. */
  ghost predicate Moved(es: seq<Entry>, i: nat, labels: map<nat, Label<nat>>, moved: map<nat, Label<nat>>) {
    && (forall v :: v in moved ==> v in labels && moved[v] == labels[v])
    && (forall s :: 0 <= s < i && s < |es| && es[s].key != 0 ==> es[s].key - 1 in moved)
  }

  lemma EntryOf(probe: ProbeOrder, es: seq<Entry>, i: nat, labels: map<nat, Label<nat>>, at: map<nat, nat>)
    requires Represents(probe, es, labels, at)
    requires i < |es| && es[i].key != 0
    ensures es[i].key - 1 in labels
    ensures es[i] == Entry(es[i].key, labels[es[i].key - 1].previous, labels[es[i].key - 1].cost)
  {
    var v := es[i].key - 1;
    assert StoredAt(probe, es, v, at[v], labels[v]);
  }

  lemma MoveOne(es: seq<Entry>, i: nat, labels: map<nat, Label<nat>>, moved: map<nat, Label<nat>>)
    requires i < |es| && es[i].key != 0 && es[i].key - 1 in labels
    requires Moved(es, i, labels, moved)
    ensures Moved(es, i + 1, labels, moved[es[i].key - 1 := labels[es[i].key - 1]])
    ensures es[i].key - 1 in moved || |moved| + 1 <= |labels|
  {
    LabelCount(moved, es[i].key - 1, labels[es[i].key - 1]);
    var moved' := moved[es[i].key - 1 := labels[es[i].key - 1]];
    assert moved'.Keys <= labels.Keys;
    SubsetSize(moved'.Keys, labels.Keys);
  }

  lemma NothingMoved(es: seq<Entry>, labels: map<nat, Label<nat>>)
    ensures Moved(es, 0, labels, map[])
  {}

  lemma SkipOne(es: seq<Entry>, i: nat, labels: map<nat, Label<nat>>, moved: map<nat, Label<nat>>)
    requires i < |es| && es[i].key == 0 && Moved(es, i, labels, moved)
    ensures Moved(es, i + 1, labels, moved)
  {}

  lemma NoLabels(es: seq<Entry>, labels: map<nat, Label<nat>>, moved: map<nat, Label<nat>>)
    requires Moved(es, 0, labels, moved) && labels == map[]
    ensures moved == labels
  {}

  lemma AllMoved(probe: ProbeOrder, es: seq<Entry>, labels: map<nat, Label<nat>>, at: map<nat, nat>, moved: map<nat,
      Label<nat>>)
    requires Represents(probe, es, labels, at)
    requires Moved(es, |es|, labels, moved)
    ensures moved == labels
  {
    forall v | v in labels
      ensures v in moved
    {
      assert StoredAt(probe, es, v, at[v], labels[v]);
      assert es[probe(v, at[v])].key - 1 in moved;
    }
  }

  lemma NewTable(hash: nat -> nat, bits: nat, small: seq<Entry>, size: nat, es: seq<Entry>) returns (bits': nat)
    requires if small == [] then size == 16 else |small| == Pow2(bits) && size == 2 * |small|
    requires |es| == size && forall s :: 0 <= s < size ==> es[s] == EMPTY
    ensures Table(hash, es, bits', map[], map[])
  {
    bits' := if small == [] then 4 else bits + 1;
    assert Pow2(4) == 16 by { assert Pow2(2) == 4; }
    EmptyTable(ProbesOf(hash, size), es);
  }

  /** Re-inserts one slot of the old table. */
  method Reinsert(small: seq<Entry>, i: nat, es: seq<Entry>, hash: nat -> nat, ghost bits: nat,
                  ghost labels: map<nat, Label<nat>>, ghost moved: map<nat, Label<nat>>, ghost at: map<nat, nat>)
    returns (es': seq<Entry>, ghost moved': map<nat, Label<nat>>, ghost at': map<nat, nat>)
    requires i < |small| && Moved(small, i, labels, moved)
    requires small[i].key != 0 ==> small[i].key - 1 in labels
    requires small[i].key != 0 ==>
      var value := labels[small[i].key - 1];
      small[i] == Entry(small[i].key, value.previous, value.cost)
    requires Table(hash, es, bits, moved, at) && |labels| < |es|
    ensures |es'| == |es|
    ensures Moved(small, i + 1, labels, moved') && Table(hash, es', bits, moved', at')
  {
    hide Table;
    hide Moved;
    hide StopsAt;
    es', moved', at' := es, moved, at;
    if small[i].key == 0 {
      SkipOne(small, i, labels, moved);
    } else {
      ghost var node := small[i].key - 1;
      MoveOne(small, i, labels, moved);
      var slot, k := Slot(es, hash, small[i].key - 1, bits, moved, at);
      StoreKeepsTable(hash, es, bits, moved, at, node, k, labels[node]);
      es' := es[slot := small[i]];
      moved', at' := moved[node := labels[node]], at[node := k];
    }
  }

  /** Doubling re-inserts every entry; the represented map does not change. */
  method Grown(small: seq<Entry>, hash: nat -> nat, ghost bits: nat, ghost labels: map<nat, Label<nat>>,
      ghost at: map<nat, nat>)
    returns (es: seq<Entry>, ghost bits': nat, ghost at': map<nat, nat>)
    requires if small == [] then labels == map[] else |small| >= 16 && Table(hash, small, bits, labels, at)
    ensures |es| == (if small == [] then 16 else 2 * |small|)
    ensures Table(hash, es, bits', labels, at')
  {
    hide Table;
    hide Represents;
    hide Moved;
    if small != [] {
      TableFacts(hash, small, bits, labels, at);
    }
    var size := if 16 <= |small| * 2 then |small| * 2 else 16;
    es := seq(size, _ => EMPTY);
    at' := map[];
    bits' := NewTable(hash, bits, small, size, es);
    ghost var moved: map<nat, Label<nat>> := map[];
    NothingMoved(small, labels);
    for i := 0 to |small|
      invariant |es| == size
      invariant Table(hash, es, bits', moved, at')
      invariant Moved(small, i, labels, moved)
    {
      if small[i].key != 0 {
        EntryOf(ProbesOf(hash, |small|), small, i, labels, at);
      }
      es, moved, at' := Reinsert(small, i, es, hash, bits', labels, moved, at');
    }
    if small == [] {
      NoLabels(small, labels, moved);
    } else {
      AllMoved(ProbesOf(hash, |small|), small, labels, at, moved);
    }
  }

  /** Doubling a table leaves room for one label more below the load limit. */
  lemma LoadLimit(size: nat, used: nat)
    requires used <= size * 7 / 8
    ensures used + 1 <= (if size == 0 then 16 else 2 * size) * 7 / 8
  {}

  /** The label table: open addressing when predecessors are wanted, a plain distance map
      otherwise. `labels` is the finite map both representations stand for. */
  class IndexedRouteLabels {
    const wantPath: bool
    /** Mixes the bits of an id; nothing below depends on how well. */
    const hash: nat -> nat
    var entries: seq<Entry>
    var used: nat
    var costs: map<nat, real>

    ghost var labels: map<nat, Label<nat>>
    ghost var at: map<nat, nat>
    ghost var bits: nat

    ghost predicate Valid()
      reads this
    {
      if wantPath then ValidTable() else
        && costs.Keys == labels.Keys
        && forall v :: v in labels ==> costs[v] == labels[v].cost
    }

    /** At most seven eighths of the slots are occupied. */
    ghost predicate ValidTable()
      reads this
    {
      && used == |labels|
      && used <= |entries| * 7 / 8
      && (if entries == [] then labels == map[] else |entries| >= 16 && Table(hash, entries, bits, labels, at))
    }

    constructor (wantPath: bool, hash: nat -> nat)
      ensures Valid() && this.wantPath == wantPath && labels == map[]
    {
      this.wantPath := wantPath;
      this.hash := hash;
      entries, used, costs, labels, at, bits := [], 0, map[], map[], map[], 0;
    }

    method Distance(node: nat) returns (distance: real)
      requires Valid() && node in labels
      ensures distance == labels[node].cost
    {
      if !wantPath {
        distance := costs[node];
      } else {
        var slot, _ := Slot(entries, hash, node, bits, labels, at);
        distance := entries[slot].distance;
      }
    }

    method Previous(node: nat) returns (previous: nat)
      requires Valid() && wantPath && node in labels
      ensures previous == labels[node].previous
    {
      var slot, _ := Slot(entries, hash, node, bits, labels, at);
      previous := entries[slot].previous;
    }

    /** The labels survive; afterwards one more fits below the load limit. */
    method Grow()
      requires ValidTable()
      modifies this`entries, this`at, this`bits
      ensures ValidTable() && used + 1 <= |entries| * 7 / 8
    {
      hide Table;
      hide Represents;
      LoadLimit(|entries|, used);
      entries, bits, at := Grown(entries, hash, bits, labels, at);
    }

    /** Records the distance unless the id already has one that is at most as large. */
    method Relax(node: nat, distance: real, previous: nat) returns (improved: bool)
      requires Valid()
      modifies this
      ensures Valid()
      ensures improved <==> node !in old(labels) || distance < old(labels)[node].cost
      ensures labels == if improved then old(labels)[node := Label(distance, previous)] else old(labels)
    {
      hide Table;
      hide Represents;
      if !wantPath {
        if node in costs && distance >= costs[node] {
          return false;
        }
        costs := costs[node := distance];
        labels := labels[node := Label(distance, previous)];
        return true;
      }
      if entries == [] {
        Grow();
      }
      var slot, k := Slot(entries, hash, node, bits, labels, at);
      if entries[slot].key != 0 {
        if distance >= entries[slot].distance {
          return false;
        }
      } else {
        if used >= |entries| * 7 / 8 {
          Grow();
          slot, k := Slot(entries, hash, node, bits, labels, at);
        }
        used := used + 1;
      }
      StoreKeepsTable(hash, entries, bits, labels, at, node, k, Label(distance, previous));
      LabelCount(labels, node, Label(distance, previous));
      entries := entries[slot := Entry(node + 1, previous, distance)];
      labels, at := labels[node := Label(distance, previous)], at[node := k];
      return true;
    }
  }
}
