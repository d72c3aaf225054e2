/** Sets of stops as binary numbers, as the trip solver writes them (cmd/tsp.go). */
module Bitmask {
  import opened Common

  predicate Has(m: nat, i: nat) {
    if i == 0 then m % 2 == 1 else Has(m / 2, i - 1)
  }

  /** `m` with bit `i` set. */
  function With(m: nat, i: nat): nat {
    if i == 0 then m + 1 - m % 2 else 2 * With(m / 2, i - 1) + m % 2
  }

  /** `m` with bit `i` cleared. */
  function Without(m: nat, i: nat): nat {
    if i == 0 then m - m % 2 else 2 * Without(m / 2, i - 1) + m % 2
  }

  function OnesCount(m: nat): nat {
    if m == 0 then 0 else m % 2 + OnesCount(m / 2)
  }

  /** The members below `i`: the ones of `m` masked to its lowest `i` bits. */
  function Rank(m: nat, i: nat): nat {
    if i == 0 then 0 else m % 2 + Rank(m / 2, i - 1)
  }

  ghost predicate Covers(m: nat, pre: nat) {
    forall i: nat :: Has(pre, i) ==> Has(m, i)
  }

  /** `m & pre == pre`. */
  predicate Contains(m: nat, pre: nat) {
    if pre == 0 then true else (pre % 2 == 1 ==> m % 2 == 1) && Contains(m / 2, pre / 2)
  }

  lemma {:induction false} ContainsCovers(m: nat, pre: nat)
    ensures Contains(m, pre) <==> Covers(m, pre)
    decreases pre
  {
    if pre == 0 {
      forall i: nat
        ensures !Has(0, i)
      {
        ZeroEmpty(i);
      }
    } else {
      ContainsCovers(m / 2, pre / 2);
      if Covers(m, pre) {
        assert Has(pre, 0) ==> Has(m, 0);
        forall i: nat | Has(pre / 2, i)
          ensures Has(m / 2, i)
        {
          assert Has(pre, i + 1) ==> Has(m, i + 1);
        }
      }
      if Contains(m, pre) {
        forall i: nat | Has(pre, i)
          ensures Has(m, i)
        {
          if i > 0 {
            assert Has(pre / 2, i - 1);
          }
        }
      }
    }
  }

  /** `a & b != 0`. */
  predicate Meets(a: nat, b: nat) {
    if a == 0 then false else (a % 2 == 1 && b % 2 == 1) || Meets(a / 2, b / 2)
  }

  lemma {:induction false} CommonMember(a: nat, b: nat, i: nat)
    requires Has(a, i) && Has(b, i)
    ensures Meets(a, b)
    decreases i
  {
    if a == 0 {
      ZeroEmpty(i);
    } else if i > 0 {
      CommonMember(a / 2, b / 2, i - 1);
    }
  }

  lemma {:induction false} MeetsAt(a: nat, b: nat) returns (i: nat)
    requires Meets(a, b)
    ensures Has(a, i) && Has(b, i)
    decreases a
  {
    if a % 2 == 1 && b % 2 == 1 {
      i := 0;
    } else {
      i := MeetsAt(a / 2, b / 2);
      i := i + 1;
    }
  }

  ghost predicate Share(a: nat, b: nat) {
    exists i: nat :: Has(a, i) && Has(b, i)
  }

  lemma MeetsCommon(a: nat, b: nat)
    ensures Meets(a, b) <==> Share(a, b)
  {
    forall i: nat | Has(a, i) && Has(b, i)
      ensures Meets(a, b)
    {
      CommonMember(a, b, i);
    }
    if Meets(a, b) {
      var i := MeetsAt(a, b);
    }
  }

  lemma {:induction false} ZeroEmpty(i: nat)
    ensures !Has(0, i)
  {
    if i > 0 {
      ZeroEmpty(i - 1);
    }
  }

  lemma {:induction false} NonZeroHas(m: nat)
    requires m > 0
    ensures exists i: nat :: Has(m, i)
  {
    if m % 2 == 1 {
      assert Has(m, 0);
    } else {
      NonZeroHas(m / 2);
      var i: nat :| Has(m / 2, i);
      assert Has(m, i + 1);
    }
  }

  /** A mask is determined by its members. */
  lemma {:induction false} SameMembers(a: nat, b: nat)
    requires forall i: nat :: Has(a, i) <==> Has(b, i)
    ensures a == b
    decreases a
  {
    assert Has(a, 0) <==> Has(b, 0);
    forall i: nat
      ensures Has(a / 2, i) <==> Has(b / 2, i)
    {
      assert Has(a, i + 1) <==> Has(b, i + 1);
    }
    if a == 0 && b > 0 {
      NonZeroHas(b);
      var i: nat :| Has(b, i);
      ZeroEmpty(i);
    } else if a > 0 {
      SameMembers(a / 2, b / 2);
    }
  }

  lemma {:induction false} HasWith(m: nat, i: nat, j: nat)
    ensures Has(With(m, i), j) <==> j == i || Has(m, j)
    decreases i
  {
    if i > 0 && j > 0 {
      HasWith(m / 2, i - 1, j - 1);
    }
  }

  lemma {:induction false} HasWithout(m: nat, i: nat, j: nat)
    ensures Has(Without(m, i), j) <==> j != i && Has(m, j)
    decreases i
  {
    if i > 0 && j > 0 {
      HasWithout(m / 2, i - 1, j - 1);
    }
  }

  /** Setting a member and clearing it again, and back; either way the number moves. */
  lemma {:induction false} SetThenClear(m: nat, i: nat)
    requires !Has(m, i)
    ensures Without(With(m, i), i) == m && m < With(m, i)
    decreases i
  {
    if i > 0 {
      SetThenClear(m / 2, i - 1);
    }
  }

  lemma {:induction false} ClearThenSet(m: nat, i: nat)
    requires Has(m, i)
    ensures With(Without(m, i), i) == m && Without(m, i) < m
    decreases i
  {
    if i > 0 {
      ClearThenSet(m / 2, i - 1);
    }
  }

  lemma {:induction false} WithinWidth(m: nat, i: nat, n: nat)
    requires m < Pow2(n)
    ensures Has(m, i) ==> i < n
    ensures i < n ==> With(m, i) < Pow2(n)
    ensures Without(m, i) < Pow2(n)
    decreases n
  {
    if n > 0 && i > 0 {
      WithinWidth(m / 2, i - 1, n - 1);
    } else if n == 0 {
      ZeroEmpty(i);
      WithoutZero(i);
    }
  }

  lemma {:induction false} WithoutZero(i: nat)
    ensures Without(0, i) == 0
  {
    if i > 0 {
      WithoutZero(i - 1);
    }
  }

  /** All of the first `n` bits. */
  lemma {:induction false} FullMask(n: nat, i: nat)
    ensures Has(Pow2(n) - 1, i) <==> i < n
    decreases n
  {
    if n == 0 {
      ZeroEmpty(i);
    } else if i > 0 {
      assert (Pow2(n) - 1) / 2 == Pow2(n - 1) - 1;
      FullMask(n - 1, i - 1);
    }
  }

  // ---- Ranks ----

  lemma {:induction false} RankBelowCount(m: nat, i: nat)
    ensures Rank(m, i) <= OnesCount(m)
    ensures Has(m, i) ==> Rank(m, i) < OnesCount(m)
    ensures Rank(m, i + 1) == Rank(m, i) + if Has(m, i) then 1 else 0
    decreases i
  {
    if i > 0 {
      RankBelowCount(m / 2, i - 1);
    }
  }

  lemma {:induction false} RankGrows(m: nat, i: nat, j: nat)
    requires i <= j
    ensures Rank(m, i) <= Rank(m, j)
    ensures i < j && Has(m, i) ==> Rank(m, i) < Rank(m, j)
    decreases j
  {
    if i < j {
      RankGrows(m, i, j - 1);
      RankBelowCount(m, j - 1);
    }
  }

  /** Every rank below the population count belongs to a member. */
  lemma {:induction false} RankOnto(m: nat, k: nat) returns (i: nat)
    requires k < OnesCount(m)
    ensures Has(m, i) && Rank(m, i) == k
    decreases m
  {
    if m % 2 == 1 && k == 0 {
      i := 0;
    } else {
      i := RankOnto(m / 2, k - m % 2);
      i := i + 1;
    }
  }
}
