/** Rows of known sizes laid out one after another in one array and filled by appending, the way the
    importer and the landmark index allocate adjacency in two passes. */
module Spans {

  /** Where row `k` begins. */
  function Start(sizes: seq<nat>, k: nat): nat
    requires k <= |sizes|
  {
    if k == 0 then 0 else Start(sizes, k - 1) + sizes[k - 1]
  }

  lemma StartStep(sizes: seq<nat>, k: nat)
    requires k <= |sizes|
    ensures Start(sizes, k) == if k == 0 then 0 else Start(sizes, k - 1) + sizes[k - 1]
  {}

  ghost predicate RowHolds<E>(entries: seq<E>, start: nat, row: seq<E>) {
    start + |row| <= |entries| && entries[start..start + |row|] == row
  }

  ghost predicate RowFilled<E>(entries: seq<E>, sizes: seq<nat>, rows: seq<seq<E>>, k: nat)
    requires k < |sizes| == |rows|
  {
    |rows[k]| <= sizes[k] && RowHolds(entries, Start(sizes, k), rows[k])
  }

  /** Every row holds what was appended to it so far. */
  ghost predicate Filled<E>(entries: seq<E>, sizes: seq<nat>, rows: seq<seq<E>>) {
    && |rows| == |sizes| && |entries| == Start(sizes, |sizes|)
    && forall k :: 0 <= k < |sizes| ==> RowFilled(entries, sizes, rows, k)
  }

  lemma {:induction false} StartsGrow(sizes: seq<nat>, a: nat, b: nat)
    requires a < b <= |sizes|
    ensures Start(sizes, a) + sizes[a] <= Start(sizes, b)
  {
    if a < b - 1 {
      StartsGrow(sizes, a, b - 1);
    }
  }

  lemma NothingFilled<E>(entries: seq<E>, sizes: seq<nat>, rows: seq<seq<E>>)
    requires |rows| == |sizes| && |entries| == Start(sizes, |sizes|) && forall k :: 0 <= k < |rows| ==> rows[k] == []
    ensures Filled(entries, sizes, rows)
  {
    forall k | 0 <= k < |sizes|
      ensures RowFilled(entries, sizes, rows, k)
    {
      StartsGrow(sizes, k, |sizes|);
    }
  }

  lemma RowGrows<E>(entries: seq<E>, start: nat, row: seq<E>, e: E)
    requires RowHolds(entries, start, row) && start + |row| < |entries|
    ensures RowHolds(entries[start + |row| := e], start, row + [e])
  {}

  lemma RowUntouched<E>(entries: seq<E>, start: nat, row: seq<E>, at: nat, e: E)
    requires RowHolds(entries, start, row) && at < |entries| && (at < start || start + |row| <= at)
    ensures RowHolds(entries[at := e], start, row)
  {}

  lemma RowsApart(sizes: seq<nat>, k: nat, j: nat, at: nat)
    requires k < |sizes| && j < |sizes| && k != j && Start(sizes, k) <= at < Start(sizes, k) + sizes[k]
    ensures at < Start(sizes, j) || Start(sizes, j) + sizes[j] <= at
  {
    if k < j {
      StartsGrow(sizes, k, j);
    } else {
      StartsGrow(sizes, j, k);
    }
  }

  /** An entry appended to a row that is not full reaches no other row. */
  lemma Appended<E>(entries: seq<E>, sizes: seq<nat>, rows: seq<seq<E>>, k: nat, e: E)
    requires Filled(entries, sizes, rows) && k < |sizes| && |rows[k]| < sizes[k]
    ensures Start(sizes, k) + |rows[k]| < |entries|
    ensures Filled(entries[Start(sizes, k) + |rows[k]| := e], sizes, rows[k := rows[k] + [e]])
  {
    hide Start;
    StartsGrow(sizes, k, |sizes|);
    assert RowFilled(entries, sizes, rows, k);
    var at := Start(sizes, k) + |rows[k]|;
    var entries', rows' := entries[at := e], rows[k := rows[k] + [e]];
    forall j | 0 <= j < |sizes|
      ensures RowFilled(entries', sizes, rows', j)
    {
      hide RowHolds;
      assert RowFilled(entries, sizes, rows, j);
      if j == k {
        RowGrows(entries, Start(sizes, k), rows[k], e);
      } else {
        RowsApart(sizes, k, j, at);
        RowUntouched(entries, Start(sizes, j), rows[j], at, e);
      }
    }
  }

  lemma RowRead<E>(entries: seq<E>, sizes: seq<nat>, rows: seq<seq<E>>, k: nat)
    requires Filled(entries, sizes, rows) && k < |sizes| && |rows[k]| == sizes[k]
    ensures Start(sizes, k + 1) <= |entries| && entries[Start(sizes, k)..Start(sizes, k + 1)] == rows[k]
  {
    assert RowFilled(entries, sizes, rows, k);
    StartsGrow(sizes, k, |sizes|);
  }
}
