/** The exact trip solver: dynamic programming over visited stops on a compact table
    (`tspExact` in cmd/tsp.go). Costs are exact reals. */
module HeldKarp {
  import opened Common
  import opened Bitmask
  import opened TripOrders
  import opened Reversal

  // ---- The compact table ----

  /** Where the entries of mask `m` begin: one entry per member of every smaller mask. */
  function Offset(m: nat): nat {
    if m == 0 then 0 else Offset(m - 1) + OnesCount(m - 1)
  }

  function StateIndex(m: nat, last: nat): nat {
    Offset(m) + Rank(m, last)
  }

  lemma {:induction false} OffsetGrows(a: nat, b: nat)
    requires a < b
    ensures Offset(a) + OnesCount(a) <= Offset(b)
  {
    if a < b - 1 {
      OffsetGrows(a, b - 1);
    }
  }

  lemma StateIndexInRange(m: nat, last: nat, size: nat)
    requires m < size && Has(m, last)
    ensures StateIndex(m, last) < Offset(size)
  {
    RankBelowCount(m, last);
    OffsetGrows(m, size);
  }

  /** No two states share an entry. */
  lemma StateIndexInjective(m: nat, last: nat, m': nat, last': nat)
    requires Has(m, last) && Has(m', last') && StateIndex(m, last) == StateIndex(m', last')
    ensures m == m' && last == last'
  {
    RankBelowCount(m, last);
    RankBelowCount(m', last');
    if m < m' {
      OffsetGrows(m, m');
    } else if m' < m {
      OffsetGrows(m', m);
    } else if last < last' {
      RankGrows(m, last, last');
    } else if last' < last {
      RankGrows(m, last', last);
    }
  }

  /** No entry is wasted. */
  lemma {:induction false} StateIndexOnto(k: nat, size: nat) returns (m: nat, last: nat)
    requires k < Offset(size)
    ensures m < size && Has(m, last) && StateIndex(m, last) == k
    decreases size
  {
    if k < Offset(size - 1) {
      m, last := StateIndexOnto(k, size - 1);
    } else {
      m := size - 1;
      last := RankOnto(m, k - Offset(m));
    }
  }

  // ---- What the table holds ----

  datatype Problem = Problem(pre: seq<nat>, legs: Legs, inf: real)

  ghost predicate Posed(p: Problem) {
    LegsFor(p.legs, |p.pre|)
  }

  /** A feasible order all of whose legs stay below the sentinel. */
  ghost predicate Live(p: Problem, o: seq<nat>)
    requires Posed(p)
  {
    && |o| > 0 && Feasible(p.pre, o) && (forall k :: 0 <= k < |o| ==> o[k] < |p.pre|)
    && Cost(p.legs, |p.pre|, o) < p.inf
    && (|o| > 1 ==> Live(p, o[..|o| - 1]))
  }

  /** A live order of exactly the stops in `m`, ending in `last`. */
  ghost predicate Reaches(p: Problem, o: seq<nat>, m: nat, last: nat)
    requires Posed(p)
  {
    Live(p, o) && MaskOf(o) == m && o[|o| - 1] == last
  }

  ghost function CostOf(p: Problem, o: seq<nat>): real
    requires Posed(p) && Live(p, o)
  {
    Cost(p.legs, |p.pre|, o)
  }

  ghost predicate Attained(p: Problem, m: nat, last: nat, c: real)
    requires Posed(p)
  {
    exists o :: Reaches(p, o, m, last) && CostOf(p, o) == c
  }

  /** No live order to this state is cheaper. */
  ghost predicate NoneBelow(p: Problem, m: nat, last: nat, c: real)
    requires Posed(p)
  {
    forall o :: Reaches(p, o, m, last) ==> c <= CostOf(p, o)
  }

  ghost predicate IsState(p: Problem, m: nat, last: nat) {
    m < Pow2(|p.pre|) && Has(m, last)
  }

  ghost predicate TableFor(p: Problem, dp: seq<real>) {
    |dp| == Offset(Pow2(|p.pre|)) && forall i :: 0 <= i < |dp| ==> dp[i] <= p.inf
  }

  function Cell(dp: seq<real>, m: nat, last: nat): real
    requires StateIndex(m, last) < |dp|
  {
    dp[StateIndex(m, last)]
  }

  lemma StateFits(p: Problem, dp: seq<real>, m: nat, last: nat)
    requires TableFor(p, dp) && IsState(p, m, last)
    ensures StateIndex(m, last) < |dp| && last < |p.pre|
  {
    StateIndexInRange(m, last, Pow2(|p.pre|));
    WithinWidth(m, last, |p.pre|);
  }

  /** Entries below the sentinel are costs of live orders. */
  ghost predicate Sound(p: Problem, dp: seq<real>)
    requires Posed(p)
  {
    forall m, last :: IsState(p, m, last) && StateIndex(m, last) < |dp| && Cell(dp, m, last) < p.inf ==>
      Attained(p, m, last, Cell(dp, m, last))
  }

  /** Orders whose last step came from a mask below `k` are accounted for. */
  ghost predicate Done(p: Problem, dp: seq<real>, k: nat)
    requires Posed(p)
  {
    forall o :: Live(p, o) && (|o| == 1 || MaskOf(o[..|o| - 1]) < k) ==>
      StateIndex(MaskOf(o), o[|o| - 1]) < |dp| && Cell(dp, MaskOf(o), o[|o| - 1]) <= CostOf(p, o)
  }

  /** The last step of the order leaves mask `m` from a stop before `last`, or from `last` to one before `next`. */
  ghost predicate StepsBefore(o: seq<nat>, m: nat, last: nat, next: nat) {
    && |o| > 1 && MaskOf(o[..|o| - 1]) == m
    && (o[|o| - 2] < last || (o[|o| - 2] == last && o[|o| - 1] < next))
  }

  /** Within mask `m`: the steps from stops before `last`, and from `last` to stops before `next`. */
  ghost predicate Expanded(p: Problem, dp: seq<real>, m: nat, last: nat, next: nat)
    requires Posed(p)
  {
    forall o :: Live(p, o) && StepsBefore(o, m, last, next) ==>
      StateIndex(MaskOf(o), o[|o| - 1]) < |dp| && Cell(dp, MaskOf(o), o[|o| - 1]) <= CostOf(p, o)
  }

  /** When mask `m` is reached its entries are final. */
  lemma EntriesFinal(p: Problem, dp: seq<real>, m: nat, last: nat)
    requires Posed(p) && TableFor(p, dp) && Done(p, dp, m) && IsState(p, m, last)
    ensures StateIndex(m, last) < |dp| && NoneBelow(p, m, last, Cell(dp, m, last))
  {
    StateFits(p, dp, m, last);
    forall o | Reaches(p, o, m, last)
      ensures Cell(dp, m, last) <= CostOf(p, o)
    {
      hide Done;
      StepGrows(p, o);
      DoneFor(p, dp, m, o);
    }
  }

  lemma StepGrows(p: Problem, o: seq<nat>)
    requires Posed(p) && Live(p, o)
    ensures MaskOf(o[..|o| - 1]) < MaskOf(o) && Has(MaskOf(o), o[|o| - 1]) && MaskOf(o) < Pow2(|p.pre|)
    ensures IsState(p, MaskOf(o), o[|o| - 1])
  {
    var init, last := o[..|o| - 1], o[|o| - 1];
    SetThenClear(MaskOf(init), last);
    HasWith(MaskOf(init), last, last);
    FeasibleWithin(p.pre, o);
  }

  lemma DoneFor(p: Problem, dp: seq<real>, k: nat, o: seq<nat>)
    requires Posed(p) && Done(p, dp, k) && Live(p, o) && (|o| == 1 || MaskOf(o[..|o| - 1]) < k)
    ensures StateIndex(MaskOf(o), o[|o| - 1]) < |dp| && Cell(dp, MaskOf(o), o[|o| - 1]) <= CostOf(p, o)
  {}

  // ---- One relaxation ----

  lemma LowerKeepsDone(p: Problem, dp: seq<real>, k: nat, i: nat, c: real)
    requires Posed(p) && Done(p, dp, k) && i < |dp| && c <= dp[i]
    ensures Done(p, dp[i := c], k)
  {
    forall o | Live(p, o) && (|o| == 1 || MaskOf(o[..|o| - 1]) < k)
      ensures StateIndex(MaskOf(o), o[|o| - 1]) < |dp[i := c]|
      ensures Cell(dp[i := c], MaskOf(o), o[|o| - 1]) <= CostOf(p, o)
    {
      hide *;
      DoneFor(p, dp, k, o);
      LowerCell(dp, i, c, MaskOf(o), o[|o| - 1]);
    }
  }

  lemma LowerCell(dp: seq<real>, i: nat, c: real, m: nat, last: nat)
    requires i < |dp| && c <= dp[i] && StateIndex(m, last) < |dp|
    ensures StateIndex(m, last) < |dp[i := c]| && Cell(dp[i := c], m, last) <= Cell(dp, m, last)
  {}

  lemma LowerKeepsExpanded(p: Problem, dp: seq<real>, m: nat, last: nat, next: nat, i: nat, c: real)
    requires Posed(p) && Expanded(p, dp, m, last, next) && i < |dp| && c <= dp[i]
    ensures Expanded(p, dp[i := c], m, last, next)
  {
    forall o | Live(p, o) && StepsBefore(o, m, last, next)
      ensures StateIndex(MaskOf(o), o[|o| - 1]) < |dp[i := c]|
      ensures Cell(dp[i := c], MaskOf(o), o[|o| - 1]) <= CostOf(p, o)
    {
      assert StateIndex(MaskOf(o), o[|o| - 1]) < |dp|;
      hide *;
      LowerCell(dp, i, c, MaskOf(o), o[|o| - 1]);
    }
  }

  /** A new entry that some live order attains keeps the table sound. */
  lemma AttainedKeepsSound(p: Problem, dp: seq<real>, m: nat, last: nat, c: real)
    requires Posed(p) && Sound(p, dp) && IsState(p, m, last) && StateIndex(m, last) < |dp| && Attained(p, m, last, c)
    ensures Sound(p, dp[StateIndex(m, last) := c])
  {
    var i := StateIndex(m, last);
    var dp' := dp[i := c];
    forall m', last' | IsState(p, m', last') && StateIndex(m', last') < |dp'| && Cell(dp', m', last') < p.inf
      ensures Attained(p, m', last', Cell(dp', m', last'))
    {
      hide Attained;
      if StateIndex(m', last') == i {
        StateIndexInjective(m, last, m', last');
      }
    }
  }

  /** Going on from a live order to an eligible stop, below the sentinel. */
  lemma StepIsLive(p: Problem, m: nat, last: nat, current: real, next: nat)
    requires Posed(p) && IsState(p, m, last) && last < |p.pre| && Attained(p, m, last, current)
    requires next < |p.pre| && !Has(m, next) && Covers(m, p.pre[next])
    requires current + p.legs.between[last][next] < p.inf
    ensures IsState(p, With(m, next), next)
    ensures Attained(p, With(m, next), next, current + p.legs.between[last][next])
  {
    var o :| Reaches(p, o, m, last) && CostOf(p, o) == current;
    FeasibleExtends(p.pre, o, next);
    CostExtends(p.legs, |p.pre|, o, next);
    assert (o + [next])[..|o|] == o;
    assert Reaches(p, o + [next], With(m, next), next);
    HasWith(m, next, next);
    WithinWidth(m, next, |p.pre|);
  }

  /** Orders stepping from `last` to `next` cost at least the relaxed value. */
  lemma StepCovered(p: Problem, dp: seq<real>, m: nat, last: nat, next: nat, current: real)
    requires Posed(p) && Expanded(p, dp, m, last, next) && last < |p.pre| && next < |p.pre|
    requires NoneBelow(p, m, last, current) && !Has(m, next)
    requires StateIndex(With(m, next), next) < |dp|
    requires Cell(dp, With(m, next), next) <= current + p.legs.between[last][next]
    ensures Expanded(p, dp, m, last, next + 1)
  {
    forall o | Live(p, o) && StepsBefore(o, m, last, next + 1)
      ensures StateIndex(MaskOf(o), o[|o| - 1]) < |dp| && Cell(dp, MaskOf(o), o[|o| - 1]) <= CostOf(p, o)
    {
      if o[|o| - 2] == last && o[|o| - 1] == next {
        hide Expanded;
        var init := o[..|o| - 1];
        assert Reaches(p, init, m, last);
      }
    }
  }

  /** Nothing steps from `last` to a stop that is not eligible, or from a dead entry. */
  lemma NoStep(p: Problem, dp: seq<real>, m: nat, last: nat, next: nat, current: real)
    requires Posed(p) && Expanded(p, dp, m, last, next) && next < |p.pre|
    requires !Ready(p.pre, m, next)
    ensures Expanded(p, dp, m, last, next + 1)
  {
    forall o | Live(p, o) && |o| > 1 && MaskOf(o[..|o| - 1]) == m
      ensures Ready(p.pre, m, o[|o| - 1])
    {
      assert Feasible(p.pre, o);
      ContainsCovers(m, p.pre[o[|o| - 1]]);
    }
  }

  lemma AllStepsFrom(p: Problem, dp: seq<real>, m: nat, last: nat)
    requires Posed(p) && Expanded(p, dp, m, last, |p.pre|)
    ensures Expanded(p, dp, m, last + 1, 0)
  {
    forall o | Live(p, o) && |o| > 1
      ensures o[|o| - 1] < |p.pre|
    {}
  }

  lemma NoLiveEntry(p: Problem, dp: seq<real>, m: nat, last: nat, current: real)
    requires Posed(p) && Expanded(p, dp, m, last, 0)
    requires Has(m, last) ==> NoneBelow(p, m, last, current) && current >= p.inf
    ensures Expanded(p, dp, m, last + 1, 0)
  {
    forall o | Live(p, o) && |o| > 1
      ensures Reaches(p, o[..|o| - 1], MaskOf(o[..|o| - 1]), o[|o| - 2])
      ensures Has(MaskOf(o[..|o| - 1]), o[|o| - 2]) && CostOf(p, o[..|o| - 1]) < p.inf
    {
      StepGrows(p, o[..|o| - 1]);
    }
  }

  lemma MaskExpanded(p: Problem, dp: seq<real>, m: nat)
    requires Posed(p) && Done(p, dp, m) && Expanded(p, dp, m, |p.pre|, 0)
    ensures Done(p, dp, m + 1)
  {
    forall o | Live(p, o) && |o| > 1
      ensures o[|o| - 2] < |p.pre|
    {}
  }

  // ---- Filling the table ----

  /** Before the masks from `m` on are expanded. */
  ghost predicate Filled(p: Problem, dp: seq<real>, m: nat)
    requires Posed(p)
  {
    TableFor(p, dp) && Sound(p, dp) && Done(p, dp, m)
  }

  method Offsets(size: nat) returns (offsets: seq<nat>, states: nat)
    ensures |offsets| == size && states == Offset(size)
    ensures forall m :: 0 <= m < size ==> offsets[m] == Offset(m)
  {
    hide OnesCount;
    offsets, states := [], 0;
    for m := 0 to size
      invariant |offsets| == m && states == Offset(m)
      invariant forall k :: 0 <= k < m ==> offsets[k] == Offset(k)
    {
      offsets, states := offsets + [states], states + OnesCount(m);
    }
  }

  lemma RelaxKeepsFilled(p: Problem, dp: seq<real>, m: nat, last: nat, current: real, next: nat)
    requires Posed(p) && Filled(p, dp, m) && Expanded(p, dp, m, last, next)
    requires IsState(p, m, last) && m < Pow2(|p.pre|) && last < |p.pre| && next < |p.pre| && Ready(p.pre, m, next)
    requires Attained(p, m, last, current) && NoneBelow(p, m, last, current)
    ensures StateIndex(With(m, next), next) < |dp|
    ensures var i, c := StateIndex(With(m, next), next), current + p.legs.between[last][next];
      var dp' := if c < dp[i] then dp[i := c] else dp;
      Filled(p, dp', m) && Expanded(p, dp', m, last, next + 1)
  {
    hide *;
    PosedLegs(p, last);
    RelaxTarget(p, dp, m, next);
    var i, c := StateIndex(With(m, next), next), current + p.legs.between[last][next];
    if c < dp[i] {
      StepIsLive(p, m, last, current, next);
      Lowered(p, dp, m, With(m, next), next, c);
      LowerKeepsExpanded(p, dp, m, last, next, i, c);
      NewCell(dp, With(m, next), next, c);
      StepCovered(p, dp[i := c], m, last, next, current);
    } else {
      OldCell(dp, With(m, next), next);
      StepCovered(p, dp, m, last, next, current);
    }
  }

  lemma RelaxTarget(p: Problem, dp: seq<real>, m: nat, next: nat)
    requires Posed(p) && Filled(p, dp, m) && m < Pow2(|p.pre|) && next < |p.pre| && Ready(p.pre, m, next)
    ensures !Has(m, next) && Covers(m, p.pre[next]) && IsState(p, With(m, next), next)
    ensures StateIndex(With(m, next), next) < |dp| && dp[StateIndex(With(m, next), next)] <= p.inf
    ensures Done(p, dp, m)
  {
    hide Done;
    hide Sound;
    ContainsCovers(m, p.pre[next]);
    HasWith(m, next, next);
    WithinWidth(m, next, |p.pre|);
    StateFits(p, dp, With(m, next), next);
  }

  lemma NewCell(dp: seq<real>, m: nat, last: nat, c: real)
    requires StateIndex(m, last) < |dp|
    ensures var dp' := dp[StateIndex(m, last) := c]; StateIndex(m, last) < |dp'| && Cell(dp', m, last) == c
  {}

  lemma OldCell(dp: seq<real>, m: nat, last: nat)
    requires StateIndex(m, last) < |dp|
    ensures Cell(dp, m, last) == dp[StateIndex(m, last)]
  {}

  lemma Lowered(p: Problem, dp: seq<real>, k: nat, m: nat, last: nat, c: real)
    requires Posed(p) && Filled(p, dp, k) && IsState(p, m, last) && Attained(p, m, last, c)
    requires StateIndex(m, last) < |dp| && c <= dp[StateIndex(m, last)]
    ensures Filled(p, dp[StateIndex(m, last) := c], k)
  {
    hide Sound;
    hide Done;
    hide StateIndex;
    hide Attained;
    hide IsState;
    LowerKeepsDone(p, dp, k, StateIndex(m, last), c);
    AttainedKeepsSound(p, dp, m, last, c);
  }

  lemma EntryRead(p: Problem, dp: seq<real>, m: nat, last: nat)
    requires Posed(p) && Filled(p, dp, m) && IsState(p, m, last)
    ensures last < |p.pre| && StateIndex(m, last) < |dp|
    ensures NoneBelow(p, m, last, dp[StateIndex(m, last)])
    ensures dp[StateIndex(m, last)] < p.inf ==> Attained(p, m, last, dp[StateIndex(m, last)])
  {
    hide NoneBelow;
    hide Attained;
    hide Done;
    hide IsState;
    StateFits(p, dp, m, last);
    EntriesFinal(p, dp, m, last);
    OldCell(dp, m, last);
  }

  /** Relaxes every eligible step out of one live entry. */
  method RelaxFrom(p: Problem, dp: array<real>, m: nat, last: nat, current: real, eligible: seq<bool>,
      nextState: seq<nat>)
    requires Posed(p) && Filled(p, dp[..], m) && Expanded(p, dp[..], m, last, 0)
    requires IsState(p, m, last) && m < Pow2(|p.pre|) && last < |p.pre| == |eligible| == |nextState|
    requires Attained(p, m, last, current) && NoneBelow(p, m, last, current)
    requires forall k :: 0 <= k < |p.pre| ==> eligible[k] == Ready(p.pre, m, k)
    requires forall k :: 0 <= k < |p.pre| && eligible[k] ==> nextState[k] == StateIndex(With(m, k), k)
    modifies dp
    ensures Filled(p, dp[..], m) && Expanded(p, dp[..], m, last + 1, 0)
  {
    hide *;
    PosedLegs(p, last);
    for next := 0 to |p.pre|
      invariant Filled(p, dp[..], m) && Expanded(p, dp[..], m, last, next)
    {
      ghost var was := dp[..];
      if eligible[next] {
        RelaxKeepsFilled(p, was, m, last, current, next);
        var index := nextState[next];
        var c := current + p.legs.between[last][next];
        if c < dp[index] {
          dp[index] := c;
          assert dp[..] == was[index := c];
        }
      } else {
        NoStep(p, was, m, last, next, current);
      }
    }
    AllStepsFrom(p, dp[..], m, last);
  }

  lemma PosedLegs(p: Problem, last: nat)
    requires Posed(p) && last < |p.pre|
    ensures |p.legs.between| == |p.pre| && |p.legs.between[last]| == |p.pre|
  {}

  /** Eligibility depends on the visited stops only, not on the last one. */
  method Eligible(p: Problem, offsets: seq<nat>, m: nat) returns (any: bool, eligible: seq<bool>, nextState: seq<nat>)
    requires m < Pow2(|p.pre|) == |offsets| && forall k :: 0 <= k < |offsets| ==> offsets[k] == Offset(k)
    ensures |eligible| == |nextState| == |p.pre|
    ensures forall k :: 0 <= k < |p.pre| ==> eligible[k] == Ready(p.pre, m, k)
    ensures forall k :: 0 <= k < |p.pre| && eligible[k] ==> nextState[k] == StateIndex(With(m, k), k)
    ensures any <==> exists k :: 0 <= k < |p.pre| && eligible[k]
  {
    hide Pow2;
    hide With;
    hide Rank;
    hide Offset;
    any, eligible, nextState := false, [], [];
    for k := 0 to |p.pre|
      invariant |eligible| == |nextState| == k
      invariant forall i :: 0 <= i < k ==> eligible[i] == Ready(p.pre, m, i)
      invariant forall i :: 0 <= i < k && eligible[i] ==> nextState[i] == StateIndex(With(m, i), i)
      invariant any <==> exists i :: 0 <= i < k && eligible[i]
    {
      if Ready(p.pre, m, k) {
        WithinWidth(m, k, |p.pre|);
        any, eligible := true, eligible + [true];
        nextState := nextState + [offsets[With(m, k)] + Rank(With(m, k), k)];
      } else {
        eligible, nextState := eligible + [false], nextState + [0];
      }
    }
  }

  lemma NothingEligible(p: Problem, dp: seq<real>, m: nat)
    requires Posed(p) && Done(p, dp, m) && forall k :: 0 <= k < |p.pre| ==> !Ready(p.pre, m, k)
    ensures Done(p, dp, m + 1)
  {
    forall o | Live(p, o) && |o| > 1 && MaskOf(o[..|o| - 1]) == m
      ensures o[|o| - 1] < |p.pre| && Ready(p.pre, m, o[|o| - 1])
    {
      assert Feasible(p.pre, o);
      ContainsCovers(m, p.pre[o[|o| - 1]]);
    }
  }

  lemma NothingExpanded(p: Problem, dp: seq<real>, m: nat)
    requires Posed(p)
    ensures Expanded(p, dp, m, 0, 0)
  {}

  /** Passes an entry that is dead, or a stop that is not in the mask. */
  lemma SkipEntry(p: Problem, dp: seq<real>, m: nat, last: nat)
    requires Posed(p) && Filled(p, dp, m) && Expanded(p, dp, m, last, 0) && m < Pow2(|p.pre|)
    requires Has(m, last) ==> StateIndex(m, last) < |dp| && dp[StateIndex(m, last)] >= p.inf
    ensures Expanded(p, dp, m, last + 1, 0)
    ensures StateIndex(m, last + 1) == StateIndex(m, last) + if Has(m, last) then 1 else 0
  {
    RankBelowCount(m, last);
    if Has(m, last) {
      EntryRead(p, dp, m, last);
      NoLiveEntry(p, dp, m, last, dp[StateIndex(m, last)]);
    } else {
      NoLiveEntry(p, dp, m, last, 0.0);
    }
  }

  lemma MaskStart(m: nat)
    ensures StateIndex(m, 0) == Offset(m)
  {}

  lemma NextEntry(m: nat, last: nat)
    requires Has(m, last)
    ensures StateIndex(m, last + 1) == StateIndex(m, last) + 1
  {
    RankBelowCount(m, last);
  }

  lemma MaskDone(p: Problem, dp: seq<real>, m: nat)
    requires Posed(p) && Filled(p, dp, m) && Expanded(p, dp, m, |p.pre|, 0)
    ensures Filled(p, dp, m + 1)
  {
    hide Done;
    hide Expanded;
    hide Sound;
    MaskExpanded(p, dp, m);
  }

  lemma NothingToDo(p: Problem, dp: seq<real>, m: nat)
    requires Posed(p) && Filled(p, dp, m) && forall k :: 0 <= k < |p.pre| ==> !Ready(p.pre, m, k)
    ensures Filled(p, dp, m + 1)
  {
    hide Done;
    hide Sound;
    NothingEligible(p, dp, m);
  }

  lemma IsStateHere(p: Problem, m: nat, last: nat)
    requires m < Pow2(|p.pre|) && Has(m, last)
    ensures IsState(p, m, last)
  {}

  /** Carries every live entry of mask `m` over to the masks with one more stop. */
  method ExpandMask(p: Problem, offsets: seq<nat>, dp: array<real>, m: nat)
    requires Posed(p) && m < Pow2(|p.pre|) == |offsets| && (forall k :: 0 <= k < |offsets| ==> offsets[k] == Offset(k))
    requires Filled(p, dp[..], m)
    modifies dp
    ensures Filled(p, dp[..], m + 1)
  {
    hide *;
    var n := |p.pre|;
    var last, index := 0, offsets[m];
    NothingExpanded(p, dp[..], m);
    MaskStart(m);
    var live := false;
    while last < n && !live
      invariant last <= n && index == StateIndex(m, last)
      invariant Filled(p, dp[..], m) && Expanded(p, dp[..], m, last, 0)
      decreases n - last, !live
    {
      if Has(m, last) {
        IsStateHere(p, m, last);
        EntryRead(p, dp[..], m, last);
        if dp[index] < p.inf {
          live := true;
        } else {
          SkipEntry(p, dp[..], m, last);
          last, index := last + 1, index + 1;
        }
      } else {
        SkipEntry(p, dp[..], m, last);
        last := last + 1;
      }
    }
    if last == n {
      MaskDone(p, dp[..], m);
      return;
    }
    var any, eligible, nextState := Eligible(p, offsets, m);
    if !any {
      NothingToDo(p, dp[..], m);
      return;
    }
    while last < n
      invariant last <= n && index == StateIndex(m, last)
      invariant Filled(p, dp[..], m) && Expanded(p, dp[..], m, last, 0)
    {
      if Has(m, last) {
        IsStateHere(p, m, last);
        EntryRead(p, dp[..], m, last);
        NextEntry(m, last);
        var current := dp[index];
        if current >= p.inf {
          SkipEntry(p, dp[..], m, last);
        } else {
          RelaxFrom(p, dp, m, last, current, eligible, nextState);
        }
        index := index + 1;
      } else {
        SkipEntry(p, dp[..], m, last);
      }
      last := last + 1;
    }
    MaskDone(p, dp[..], m);
  }

  // ---- The first entries ----

  /** Orders of one stop below `i` are accounted for. */
  ghost predicate Started(p: Problem, dp: seq<real>, i: nat)
    requires Posed(p)
  {
    forall o :: Live(p, o) && |o| == 1 && o[0] < i ==>
      StateIndex(MaskOf(o), o[0]) < |dp| && Cell(dp, MaskOf(o), o[0]) <= CostOf(p, o)
  }

  lemma NothingStored(p: Problem, dp: seq<real>)
    requires Posed(p) && |dp| == Offset(Pow2(|p.pre|)) && forall i :: 0 <= i < |dp| ==> dp[i] == p.inf
    ensures TableFor(p, dp) && Sound(p, dp) && Started(p, dp, 0)
  {}

  lemma SingleStop(p: Problem, i: nat)
    requires Posed(p) && i < |p.pre|
    ensures MaskOf([i]) == With(0, i) && IsState(p, With(0, i), i)
    ensures Feasible(p.pre, [i]) <==> p.pre[i] == 0
    ensures Live(p, [i]) <==> p.pre[i] == 0 && p.legs.start[i] < p.inf
    ensures Live(p, [i]) ==> CostOf(p, [i]) == p.legs.start[i]
  {
    assert ([] + [i])[..0] == [] && [i] == [] + [i];
    FeasibleExtends(p.pre, [], i);
    HasWith(0, i, i);
    FullMask(0, i);
    WithinWidth(0, i, |p.pre|);
    ContainsCovers(0, p.pre[i]);
    ZeroEmpty(i);
    ZeroCovers(p.pre[i]);
  }

  lemma ZeroCovers(pre: nat)
    ensures Covers(0, pre) <==> pre == 0
  {
    if pre == 0 {
      forall i: nat
        ensures !Has(0, i)
      {
        ZeroEmpty(i);
      }
    } else {
      NonZeroHas(pre);
      var i: nat :| Has(pre, i);
      ZeroEmpty(i);
    }
  }

  lemma StartOne(p: Problem, dp: seq<real>, i: nat)
    requires Posed(p) && TableFor(p, dp) && Sound(p, dp) && Started(p, dp, i) && i < |p.pre|
    ensures StateIndex(With(0, i), i) < |dp|
    ensures var dp' := if p.pre[i] == 0 && p.legs.start[i] < p.inf then dp[StateIndex(With(0, i), i) := p.legs.start[i]]
      else dp;
      TableFor(p, dp') && Sound(p, dp') && Started(p, dp', i + 1)
  {
    SingleStop(p, i);
    StateFits(p, dp, With(0, i), i);
    var dp' := if p.pre[i] == 0 && p.legs.start[i] < p.inf then dp[StateIndex(With(0, i), i) := p.legs.start[i]]
      else dp;
    if Live(p, [i]) {
      assert Reaches(p, [i], With(0, i), i);
      AttainedKeepsSound(p, dp, With(0, i), i, p.legs.start[i]);
    }
    hide Sound;
    hide StateIndex;
    forall o | Live(p, o) && |o| == 1 && o[0] < i + 1
      ensures StateIndex(MaskOf(o), o[0]) < |dp'| && Cell(dp', MaskOf(o), o[0]) <= CostOf(p, o)
    {
      StartCell(p, dp, i, dp', o);
    }
  }

  lemma StartCell(p: Problem, dp: seq<real>, i: nat, dp': seq<real>, o: seq<nat>)
    requires Posed(p) && Started(p, dp, i) && i < |p.pre| && StateIndex(With(0, i), i) < |dp|
    requires dp' == if p.pre[i] == 0 && p.legs.start[i] < p.inf then dp[StateIndex(With(0, i), i) := p.legs.start[i]]
      else dp
    requires Live(p, o) && |o| == 1 && o[0] < i + 1
    ensures StateIndex(MaskOf(o), o[0]) < |dp'| && Cell(dp', MaskOf(o), o[0]) <= CostOf(p, o)
  {
    hide Live;
    hide Sound;
    assert o == [o[0]];
    assert o[0] < |p.pre| by {
      LiveBounds(p, o);
    }
    SingleStop(p, o[0]);
    SingleStop(p, i);
    if o[0] < i && dp' != dp && StateIndex(MaskOf(o), o[0]) == StateIndex(With(0, i), i) {
      StateIndexInjective(With(0, o[0]), o[0], With(0, i), i);
    }
  }

  lemma LiveBounds(p: Problem, o: seq<nat>)
    requires Posed(p) && Live(p, o)
    ensures forall k :: 0 <= k < |o| ==> o[k] < |p.pre|
  {}

  lemma AllStarted(p: Problem, dp: seq<real>)
    requires Posed(p) && TableFor(p, dp) && Sound(p, dp) && Started(p, dp, |p.pre|)
    ensures Filled(p, dp, 0)
  {}

  /** Builds the whole table. */
  method FillTable(p: Problem, offsets: seq<nat>, states: nat) returns (dp: array<real>)
    requires Posed(p) && |offsets| == Pow2(|p.pre|) && states == Offset(Pow2(|p.pre|))
    requires forall k :: 0 <= k < |offsets| ==> offsets[k] == Offset(k)
    ensures fresh(dp) && Filled(p, dp[..], Pow2(|p.pre|))
  {
    hide *;
    var n := |p.pre|;
    dp := new real[states](_ => p.inf);
    NothingStored(p, dp[..]);
    for i := 0 to n
      invariant TableFor(p, dp[..]) && Sound(p, dp[..]) && Started(p, dp[..], i)
    {
      ghost var was := dp[..];
      StartOne(p, was, i);
      SingleStop(p, i);
      StartLegs(p, i);
      if p.pre[i] == 0 && p.legs.start[i] < p.inf {
        StartIndex(p, i);
        dp[offsets[With(0, i)] + Rank(With(0, i), i)] := p.legs.start[i];
        assert dp[..] == was[StateIndex(With(0, i), i) := p.legs.start[i]];
      }
    }
    AllStarted(p, dp[..]);
    for m := 0 to Pow2(n)
      invariant Filled(p, dp[..], m)
    {
      ExpandMask(p, offsets, dp, m);
    }
  }

  lemma StartLegs(p: Problem, i: nat)
    requires Posed(p) && i < |p.pre|
    ensures |p.legs.start| == |p.legs.end| == |p.pre|
  {}

  lemma StartIndex(p: Problem, i: nat)
    requires Posed(p) && i < |p.pre|
    ensures With(0, i) < Pow2(|p.pre|) && Offset(With(0, i)) + Rank(With(0, i), i) == StateIndex(With(0, i), i)
  {
    WithinWidth(0, i, |p.pre|);
  }

  // ---- The best last stop ----

  ghost function All(p: Problem): nat {
    Pow2(|p.pre|) - 1
  }

  lemma AllState(p: Problem, last: nat)
    requires last < |p.pre|
    ensures IsState(p, All(p), last)
  {
    FullMask(|p.pre|, last);
  }

  /** In a full table an entry is the least cost of its live orders, and the sentinel if there is none. */
  lemma EntryExact(p: Problem, dp: seq<real>, m: nat, last: nat)
    requires Posed(p) && Filled(p, dp, Pow2(|p.pre|)) && IsState(p, m, last)
    ensures last < |p.pre| && StateIndex(m, last) < |dp| && dp[StateIndex(m, last)] <= p.inf
    ensures NoneBelow(p, m, last, dp[StateIndex(m, last)])
    ensures dp[StateIndex(m, last)] < p.inf ==> Attained(p, m, last, dp[StateIndex(m, last)])
  {
    FilledEarlier(p, dp, m, Pow2(|p.pre|));
    EntryRead(p, dp, m, last);
  }

  lemma FilledEarlier(p: Problem, dp: seq<real>, k: nat, m: nat)
    requires Posed(p) && Filled(p, dp, m) && k <= m
    ensures Filled(p, dp, k)
  {}

  /** With non-negative legs an order is live as soon as its cost is below the sentinel. */
  lemma {:induction false} CheapIsLive(p: Problem, o: seq<nat>)
    requires Posed(p) && NonNegativeLegs(p.legs) && |o| > 0 && Feasible(p.pre, o)
    requires (forall k :: 0 <= k < |o| ==> o[k] < |p.pre|) && Cost(p.legs, |p.pre|, o) < p.inf
    ensures Live(p, o)
  {
    if |o| > 1 {
      assert p.legs.between[o[|o| - 2]][o[|o| - 1]] >= 0.0;
      CheapIsLive(p, o[..|o| - 1]);
    }
  }

  ghost predicate InBounds(p: Problem, o: seq<nat>) {
    forall k :: 0 <= k < |o| ==> o[k] < |p.pre|
  }

  /** The answer the source promises: a cheapest order that keeps to the prerequisites. */
  ghost predicate IsOptimum(p: Problem, o: seq<nat>)
    requires Posed(p)
  {
    && |o| > 0 && IsFullOrder(p.pre, o) && InBounds(p, o)
    && Total(p.legs, |p.pre|, o) < p.inf
    && forall o' :: IsFullOrder(p.pre, o') && InBounds(p, o') ==>
         Total(p.legs, |p.pre|, o) <= Total(p.legs, |p.pre|, o')
  }

  ghost predicate NoneReachable(p: Problem)
    requires Posed(p) && |p.pre| > 0
  {
    forall o :: IsFullOrder(p.pre, o) && InBounds(p, o) ==>
      Total(p.legs, |p.pre|, o) >= p.inf
  }

  ghost predicate EndsOpen(p: Problem, dp: seq<real>, last: nat)
    requires Posed(p) && last < |p.pre| && StateIndex(All(p), last) < |dp|
  {
    dp[StateIndex(All(p), last)] < p.inf && p.legs.end[last] < p.inf
  }

  /** `best` is the least total over the last stops before `k`. */
  ghost predicate BestSoFar(p: Problem, dp: seq<real>, best: real, bestLast: nat, k: nat)
    requires Posed(p)
  {
    && k <= |p.pre|
    && (forall last :: 0 <= last < k ==> StateIndex(All(p), last) < |dp|)
    && (if bestLast < |p.pre| then
          bestLast < k && EndsOpen(p, dp, bestLast)
            && best == dp[StateIndex(All(p), bestLast)] + p.legs.end[bestLast] < p.inf
        else best == p.inf)
    && forall last :: 0 <= last < k && EndsOpen(p, dp, last) ==> best <= dp[StateIndex(All(p), last)] + p.legs.end[last]
  }

  method BestLast(p: Problem, offsets: seq<nat>, dp: array<real>) returns (best: real, bestLast: nat)
    requires Posed(p) && Filled(p, dp[..], Pow2(|p.pre|)) && |offsets| == Pow2(|p.pre|)
    requires forall k :: 0 <= k < |offsets| ==> offsets[k] == Offset(k)
    ensures BestSoFar(p, dp[..], best, bestLast, |p.pre|) && bestLast <= |p.pre|
  {
    hide StateIndex;
    hide Filled;
    hide Offset;
    hide Pow2;
    var n := |p.pre|;
    best, bestLast := p.inf, n;
    for last := 0 to n
      invariant BestSoFar(p, dp[..], best, bestLast, last) && bestLast <= n
    {
      AllState(p, last);
      EntryExact(p, dp[..], All(p), last);
      StateParts(All(p), last);
      var entry := dp[offsets[Pow2(n) - 1] + Rank(Pow2(n) - 1, last)];
      if entry < p.inf && p.legs.end[last] < p.inf && entry + p.legs.end[last] < best {
        best, bestLast := entry + p.legs.end[last], last;
      }
    }
  }

  lemma StateParts(m: nat, last: nat)
    ensures StateIndex(m, last) == Offset(m) + Rank(m, last)
  {}

  /** The chosen total is a lower bound for every full order. */
  lemma BestIsLeast(p: Problem, dp: seq<real>, best: real, bestLast: nat, o: seq<nat>)
    requires Posed(p) && NonNegativeLegs(p.legs) && Filled(p, dp, Pow2(|p.pre|))
    requires BestSoFar(p, dp, best, bestLast, |p.pre|)
    requires IsFullOrder(p.pre, o) && |o| > 0 && InBounds(p, o)
    ensures Total(p.legs, |p.pre|, o) >= best
  {
    var last := o[|o| - 1];
    AllState(p, last);
    EntryExact(p, dp, All(p), last);
    hide Filled;
    assert best <= p.inf;
    if Total(p.legs, |p.pre|, o) < p.inf {
      assert p.legs.end[last] >= 0.0;
      CostNotNegative(p, o);
      CheapIsLive(p, o);
      FullMeansAll(p.pre, o);
      assert Reaches(p, o, All(p), last);
      assert EndsOpen(p, dp, last);
    }
  }

  lemma {:induction false} CostNotNegative(p: Problem, o: seq<nat>)
    requires Posed(p) && NonNegativeLegs(p.legs) && |o| > 0 && InBounds(p, o)
    ensures Cost(p.legs, |p.pre|, o) >= 0.0
  {
    if |o| == 1 {
      assert p.legs.start[o[0]] >= 0.0;
    } else {
      assert p.legs.between[o[|o| - 2]][o[|o| - 1]] >= 0.0;
      CostNotNegative(p, o[..|o| - 1]);
    }
  }

  // ---- Recovering the order ----

  /** Appending `rest` to any cheapest order for the state gives a full order of total `best`. */
  ghost predicate Completes(p: Problem, m: nat, cur: nat, entry: real, rest: seq<nat>, best: real)
    requires Posed(p)
  {
    forall o :: Reaches(p, o, m, cur) && CostOf(p, o) == entry ==>
      && IsFullOrder(p.pre, o + rest) && InBounds(p, o + rest)
      && |o + rest| > 0 && Total(p.legs, |p.pre|, o + rest) == best
  }

  lemma NothingToAppend(p: Problem, dp: seq<real>, best: real, last: nat)
    requires Posed(p) && BestSoFar(p, dp, best, last, |p.pre|) && last < |p.pre|
    ensures StateIndex(All(p), last) < |dp| && dp[StateIndex(All(p), last)] < p.inf
    ensures Completes(p, All(p), last, dp[StateIndex(All(p), last)], [], best)
  {
    forall o | Reaches(p, o, All(p), last)
      ensures IsFullOrder(p.pre, o) && o + [] == o
    {
      FullMeansAll(p.pre, o);
    }
  }

  /** Going back one stop. */
  lemma CompletesBack(p: Problem, m: nat, cur: nat, entry: real, rest: seq<nat>, best: real, prev: nat, entry': real)
    requires Posed(p) && IsState(p, m, cur) && Attained(p, m, cur, entry) && entry < p.inf
    requires cur < |p.pre| && prev < |p.pre|
    requires Completes(p, m, cur, entry, rest, best)
    requires entry' + p.legs.between[prev][cur] == entry
    ensures Completes(p, Without(m, cur), prev, entry', [cur] + rest, best)
  {
    hide *;
    forall o | Reaches(p, o, Without(m, cur), prev) && CostOfIs(p, o, entry')
      ensures CostOfIs(p, o + [cur], entry) && Reaches(p, o + [cur], m, cur)
      ensures (o + [cur]) + rest == o + ([cur] + rest)
    {
      AppendReaches(p, o, m, cur, prev, entry', entry);
    }
    CompletesMoves(p, m, cur, entry, rest, best, prev, entry');
  }

  ghost predicate CostOfIs(p: Problem, o: seq<nat>, c: real)
    requires Posed(p)
  {
    Live(p, o) && CostOf(p, o) == c
  }

  lemma Witness(p: Problem, m: nat, last: nat, c: real) returns (o: seq<nat>)
    requires Posed(p) && Attained(p, m, last, c)
    ensures Reaches(p, o, m, last) && Live(p, o) && CostOf(p, o) == c
  {
    o :| Reaches(p, o, m, last) && CostOf(p, o) == c;
  }

  lemma AppendReaches(p: Problem, o: seq<nat>, m: nat, cur: nat, prev: nat, entry': real, entry: real)
    requires Posed(p) && IsState(p, m, cur) && Attained(p, m, cur, entry) && entry < p.inf
    requires cur < |p.pre| && prev < |p.pre|
    requires Reaches(p, o, Without(m, cur), prev) && CostOfIs(p, o, entry')
    requires entry' + p.legs.between[prev][cur] == entry
    ensures Reaches(p, o + [cur], m, cur) && CostOfIs(p, o + [cur], entry)
  {
    var w := Witness(p, m, cur, entry);
    LastStep(p, w, m, cur);
    ClearThenSet(m, cur);
    FeasibleExtends(p.pre, o, cur);
    CostExtends(p.legs, |p.pre|, o, cur);
    assert (o + [cur])[..|o|] == o;
  }

  lemma CompletesMoves(p: Problem, m: nat, cur: nat, entry: real, rest: seq<nat>, best: real, prev: nat, entry': real)
    requires Posed(p) && Completes(p, m, cur, entry, rest, best)
    requires forall o :: Reaches(p, o, Without(m, cur), prev) && CostOfIs(p, o, entry') ==>
      Reaches(p, o + [cur], m, cur) && CostOfIs(p, o + [cur], entry) && (o + [cur]) + rest == o + ([cur] + rest)
    ensures Completes(p, Without(m, cur), prev, entry', [cur] + rest, best)
  {
    hide CostOf;
    hide Live;
    hide Total;
    hide IsFullOrder;
  }

  /** A live entry of several stops has a predecessor whose entry accounts for it exactly. */
  lemma PredecessorExists(p: Problem, dp: seq<real>, m: nat, cur: nat)
    requires Posed(p) && Filled(p, dp, Pow2(|p.pre|)) && IsState(p, m, cur) && Without(m, cur) > 0
    requires StateIndex(m, cur) < |dp| && dp[StateIndex(m, cur)] < p.inf
    ensures cur < |p.pre|
    ensures exists prev :: IsPredecessor(p, dp, m, cur, prev)
  {
    hide Filled;
    hide Reaches;
    hide NoneBelow;
    hide Has;
    hide Without;
    EntryExact(p, dp, m, cur);
    var w := Witness(p, m, cur, dp[StateIndex(m, cur)]);
    LastStep(p, w, m, cur);
    var init := LastButOne(p, w, m, cur);
    var prev := init[|init| - 1];
    EntryExact(p, dp, Without(m, cur), prev);
    var entry := dp[StateIndex(Without(m, cur), prev)];
    EntryNotAbove(p, init, Without(m, cur), prev, entry);
    ClearThenSet(m, cur);
    StepIsLive(p, Without(m, cur), prev, entry, cur);
    AttainedNotBelow(p, m, cur, entry + p.legs.between[prev][cur], dp[StateIndex(m, cur)]);
    assert IsPredecessor(p, dp, m, cur, prev);
  }

  /** The last step of an order leaves the remaining stops, which include its prerequisites. */
  lemma LastStep(p: Problem, w: seq<nat>, m: nat, cur: nat)
    requires Posed(p) && Reaches(p, w, m, cur)
    ensures cur < |p.pre| && MaskOf(w[..|w| - 1]) == Without(m, cur)
    ensures !Has(Without(m, cur), cur) && Covers(Without(m, cur), p.pre[cur])
  {
    assert Feasible(p.pre, w);
    SetThenClear(MaskOf(w[..|w| - 1]), cur);
  }

  lemma LastButOne(p: Problem, w: seq<nat>, m: nat, cur: nat) returns (init: seq<nat>)
    requires Posed(p) && Reaches(p, w, m, cur) && Without(m, cur) > 0
    ensures |init| > 0 && init[|init| - 1] < |p.pre| && cur < |p.pre|
    ensures Reaches(p, init, Without(m, cur), init[|init| - 1]) && IsState(p, Without(m, cur), init[|init| - 1])
    ensures CostOf(p, w) == CostOf(p, init) + p.legs.between[init[|init| - 1]][cur]
  {
    LastStep(p, w, m, cur);
    init := w[..|w| - 1];
    assert |w| > 1;
    StepGrows(p, init);
    LiveBounds(p, w);
  }

  lemma EntryNotAbove(p: Problem, o: seq<nat>, m: nat, last: nat, entry: real)
    requires Posed(p) && Reaches(p, o, m, last) && NoneBelow(p, m, last, entry)
    ensures entry <= CostOf(p, o) < p.inf
  {}

  lemma AttainedNotBelow(p: Problem, m: nat, cur: nat, c: real, entry: real)
    requires Posed(p) && Attained(p, m, cur, c) && NoneBelow(p, m, cur, entry)
    ensures entry <= c
  {}

  ghost predicate IsPredecessor(p: Problem, dp: seq<real>, m: nat, cur: nat, prev: nat)
    requires Posed(p) && cur < |p.pre|
  {
    && prev < |p.pre| && Has(Without(m, cur), prev)
    && StateIndex(Without(m, cur), prev) < |dp| && StateIndex(m, cur) < |dp|
    && dp[StateIndex(Without(m, cur), prev)] + p.legs.between[prev][cur] == dp[StateIndex(m, cur)]
  }

  /** The lowest stop whose entry and leg add up to the entry of the state. */
  method FindPredecessor(p: Problem, offsets: seq<nat>, dp: array<real>, m: nat, cur: nat) returns (prev: nat)
    requires Posed(p) && Filled(p, dp[..], Pow2(|p.pre|)) && IsState(p, m, cur) && Without(m, cur) > 0
    requires |offsets| == Pow2(|p.pre|) && forall k :: 0 <= k < |offsets| ==> offsets[k] == Offset(k)
    requires cur < |p.pre| && StateIndex(m, cur) < dp.Length && dp[StateIndex(m, cur)] < p.inf
    ensures prev < |p.pre| && IsPredecessor(p, dp[..], m, cur, prev)
  {
    hide StateIndex;
    hide Filled;
    hide Offset;
    hide Pow2;
    hide Has;
    hide Without;
    PredecessorExists(p, dp[..], m, cur);
    WithinWidth(m, cur, |p.pre|);
    StateParts(m, cur);
    ghost var some: nat :| IsPredecessor(p, dp[..], m, cur, some);
    var before := Without(m, cur);
    prev := 0;
    while prev < |p.pre|
      invariant prev <= some
    {
      if Has(before, prev) {
        EntryExact(p, dp[..], before, prev);
        StateParts(before, prev);
        if dp[offsets[before] + Rank(before, prev)] + p.legs.between[prev][cur] == dp[offsets[m] + Rank(m, cur)] {
          return;
        }
      }
      prev := prev + 1;
    }
  }

  /** The walk back has come to a first stop. */
  lemma RecoveredFromFirst(p: Problem, m: nat, cur: nat, entry: real, rest: seq<nat>, best: real)
    requires Posed(p) && Attained(p, m, cur, entry) && Without(m, cur) == 0 && Completes(p, m, cur, entry, rest, best)
    ensures IsFullOrder(p.pre, [cur] + rest) && InBounds(p, [cur] + rest)
    ensures Total(p.legs, |p.pre|, [cur] + rest) == best
  {
    var w := Witness(p, m, cur, entry);
    LastStep(p, w, m, cur);
    var init := w[..|w| - 1];
    if init != [] {
      LiveInit(p, w);
      StepGrows(p, init);
      assert false;
    }
    assert w == [cur];
  }

  lemma LiveInit(p: Problem, w: seq<nat>)
    requires Posed(p) && Live(p, w) && |w| > 1
    ensures Live(p, w[..|w| - 1])
  {}

  /** `order` lists the stops of `o` from the last to the first. */
  ghost predicate Backwards(order: seq<nat>, o: seq<nat>) {
    |order| == |o| && forall k :: 0 <= k < |o| ==> order[k] == o[|o| - 1 - k]
  }

  lemma StepBack(p: Problem, offsets: seq<nat>, dp: seq<real>, m: nat, cur: nat, rest: seq<nat>, best: real, prev: nat)
    requires Posed(p) && Filled(p, dp, Pow2(|p.pre|)) && IsState(p, m, cur) && cur < |p.pre|
    requires StateIndex(m, cur) < |dp| && dp[StateIndex(m, cur)] < p.inf
    requires Completes(p, m, cur, dp[StateIndex(m, cur)], rest, best) && NonNegativeLegs(p.legs)
    requires IsPredecessor(p, dp, m, cur, prev)
    ensures IsState(p, Without(m, cur), prev) && Without(m, cur) < m
    ensures StateIndex(Without(m, cur), prev) < |dp| && dp[StateIndex(Without(m, cur), prev)] < p.inf
    ensures Completes(p, Without(m, cur), prev, dp[StateIndex(Without(m, cur), prev)], [cur] + rest, best)
  {
    hide Completes;
    hide Filled;
    hide Has;
    hide Without;
    hide StateIndex;
    EntryExact(p, dp, m, cur);
    WithinWidth(m, cur, |p.pre|);
    ClearThenSet(m, cur);
    assert p.legs.between[prev][cur] >= 0.0;
    CompletesBack(p, m, cur, dp[StateIndex(m, cur)], rest, best, prev, dp[StateIndex(Without(m, cur), prev)]);
  }

  /** Rebuilds an order of total `best` from the entries alone. */
  method Recover(p: Problem, offsets: seq<nat>, dp: array<real>, best: real, bestLast: nat) returns (order: seq<nat>)
    requires Posed(p) && NonNegativeLegs(p.legs) && Filled(p, dp[..], Pow2(|p.pre|))
    requires |offsets| == Pow2(|p.pre|) && forall k :: 0 <= k < |offsets| ==> offsets[k] == Offset(k)
    requires BestSoFar(p, dp[..], best, bestLast, |p.pre|) && bestLast < |p.pre|
    ensures IsFullOrder(p.pre, order) && InBounds(p, order) && |order| > 0 && Total(p.legs, |p.pre|, order) == best
  {
    hide *;
    order := [];
    ghost var rest: seq<nat> := [];
    var m: nat, cur: nat := Pow2(|p.pre|) - 1, bestLast;
    AllState(p, bestLast);
    AllIs(p);
    NothingToAppend(p, dp[..], best, bestLast);
    StartBackwards();
    while Without(m, cur) != 0
      invariant cur < |p.pre| && IsState(p, m, cur)
      invariant StateIndex(m, cur) < dp.Length && dp[StateIndex(m, cur)] < p.inf
      invariant Completes(p, m, cur, dp[StateIndex(m, cur)], rest, best)
      invariant Backwards(order, rest)
      decreases m
    {
      var prev := FindPredecessor(p, offsets, dp, m, cur);
      StepBack(p, offsets, dp[..], m, cur, rest, best, prev);
      MoreBackwards(order, rest, cur);
      order, rest := order + [cur], [cur] + rest;
      m, cur := Without(m, cur), prev;
    }
    EntryExact(p, dp[..], m, cur);
    RecoveredFromFirst(p, m, cur, dp[StateIndex(m, cur)], rest, best);
    MoreBackwards(order, rest, cur);
    order := order + [cur];
    ghost var back := order;
    order := ReverseBetween(order, 0, |order| - 1);
    BackAgain(back, [cur] + rest, order);
  }

  lemma AllIs(p: Problem)
    ensures All(p) == Pow2(|p.pre|) - 1
  {}

  lemma StartBackwards()
    ensures Backwards([], [])
  {}

  lemma MoreBackwards(order: seq<nat>, o: seq<nat>, x: nat)
    requires Backwards(order, o)
    ensures Backwards(order + [x], [x] + o)
  {}

  lemma BackAgain(order: seq<nat>, o: seq<nat>, t: seq<nat>)
    requires Backwards(order, o) && IsReversal(order, 0, |order| - 1, t)
    ensures t == o
  {}

  // ---- The solver ----

  /** The largest number of stops solved exactly. */
  const MAX_EXACT_STOPS: nat := 16

  /** Returns a cheapest order that keeps to the prerequisites; fails exactly when the request is
      refused or every order contains a missing leg. */
  method TspExact(n: nat, pre: seq<nat>, legs: Legs, inf: real) returns (r: Option<seq<nat>>)
    requires LegsFor(legs, |pre|) && NonNegativeLegs(legs)
    ensures r.None? <==>
      n > MAX_EXACT_STOPS || |pre| != n || !HasOrder(pre) || (n > 0 && NoneReachable(Problem(pre, legs, inf)))
    ensures r.Some? ==> if n == 0 then r.value == [] else IsOptimum(Problem(pre, legs, inf), r.value)
  {
    hide *;
    PosedIs(Problem(pre, legs, inf));
    var ok := ValidateTsp(n, pre, MAX_EXACT_STOPS);
    if !ok {
      return None;
    }
    if n == 0 {
      return Some([]);
    }
    var p := Problem(pre, legs, inf);
    var offsets, states := Offsets(Pow2(n));
    var dp := FillTable(p, offsets, states);
    var best, bestLast := BestLast(p, offsets, dp);
    if bestLast == n {
      NoOrderFound(p, dp[..], best, bestLast);
      return None;
    }
    var order := Recover(p, offsets, dp, best, bestLast);
    OrderIsOptimum(p, dp[..], best, bestLast, order);
    return Some(order);
  }

  lemma PosedIs(p: Problem)
    ensures Posed(p) <==> LegsFor(p.legs, |p.pre|)
  {}

  lemma NoOrderFound(p: Problem, dp: seq<real>, best: real, bestLast: nat)
    requires Posed(p) && NonNegativeLegs(p.legs) && Filled(p, dp, Pow2(|p.pre|)) && |p.pre| > 0
    requires BestSoFar(p, dp, best, bestLast, |p.pre|) && bestLast >= |p.pre|
    ensures NoneReachable(p)
  {
    hide Filled;
    hide Total;
    forall o | IsFullOrder(p.pre, o) && InBounds(p, o)
      ensures Total(p.legs, |p.pre|, o) >= p.inf
    {
      BestIsLeast(p, dp, best, bestLast, o);
    }
  }

  lemma OrderIsOptimum(p: Problem, dp: seq<real>, best: real, bestLast: nat, order: seq<nat>)
    requires Posed(p) && NonNegativeLegs(p.legs) && Filled(p, dp, Pow2(|p.pre|)) && |p.pre| > 0
    requires BestSoFar(p, dp, best, bestLast, |p.pre|) && bestLast < |p.pre|
    requires IsFullOrder(p.pre, order) && InBounds(p, order) && |order| > 0 && Total(p.legs, |p.pre|, order) == best
    ensures IsOptimum(p, order) && !NoneReachable(p)
  {
    hide Filled;
    hide Total;
    forall o | IsFullOrder(p.pre, o) && InBounds(p, o)
      ensures Total(p.legs, |p.pre|, o) >= best
    {
      BestIsLeast(p, dp, best, bestLast, o);
    }
  }
}
