/** Reversing a stretch (cmd/tsp.go). */
module Reversal {

  /** `s` with the stretch from `l` to `r`, both included, in opposite order. */
  ghost predicate IsReversal<T>(s: seq<T>, l: nat, r: int, t: seq<T>)
    requires r < |s|
  {
    && |t| == |s|
    && (forall k :: 0 <= k < |s| && !(l <= k <= r) ==> t[k] == s[k])
    && (forall k :: l <= k <= r ==> t[k] == s[l + r - k])
  }

  ghost function Reversed<T>(s: seq<T>, l: nat, r: nat): (t: seq<T>)
    requires r < |s|
    ensures IsReversal(s, l, r, t)
  {
    seq(|s|, k requires 0 <= k < |s| => if l <= k <= r then s[l + r - k] else s[k])
  }

  lemma OneReversal<T>(s: seq<T>, l: nat, r: nat, t: seq<T>)
    requires l <= r < |s| && IsReversal(s, l, r, t)
    ensures t == Reversed(s, l, r)
  {}

  /** The same with the swaps made so far: both ends up to `i` and from `j` on are exchanged. */
  ghost predicate Swapped<T>(s: seq<T>, l: nat, r: int, i: nat, j: int, t: seq<T>)
    requires r < |s|
  {
    && |t| == |s| && l <= i <= j + 1 && i + j == l + r
    && (forall k :: 0 <= k < |s| && !(l <= k < i || j < k <= r) ==> t[k] == s[k])
    && (forall k :: (l <= k < i || j < k <= r) ==> t[k] == s[l + r - k])
  }

  lemma SwapOne<T>(s: seq<T>, l: nat, r: int, i: nat, j: int, t: seq<T>)
    requires r < |s| && Swapped(s, l, r, i, j, t) && i < j
    ensures j < |t| && Swapped(s, l, r, i + 1, j - 1, t[i := t[j]][j := t[i]])
  {}

  lemma AllSwapped<T>(s: seq<T>, l: nat, r: int, i: nat, j: int, t: seq<T>)
    requires r < |s| && Swapped(s, l, r, i, j, t) && i >= j
    ensures IsReversal(s, l, r, t)
  {}

  lemma NothingSwapped<T>(s: seq<T>, l: nat, r: int)
    requires l <= r + 1 && r < |s|
    ensures Swapped(s, l, r, l, r, s)
  {}

  /** Reverses a stretch of a list by swapping from both ends inwards. */
  method ReverseBetween<T>(s: seq<T>, l: nat, r: int) returns (t: seq<T>)
    requires l <= r + 1 && r < |s|
    ensures IsReversal(s, l, r, t)
  {
    hide IsReversal;
    t := s;
    var i: nat, j: int := l, r;
    NothingSwapped(s, l, r);
    while i < j
      invariant Swapped(s, l, r, i, j, t)
    {
      SwapOne(s, l, r, i, j, t);
      t := t[i := t[j]][j := t[i]];
      i, j := i + 1, j - 1;
    }
    AllSwapped(s, l, r, i, j, t);
  }
}
