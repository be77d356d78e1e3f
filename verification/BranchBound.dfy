/** The branch-and-bound optimizer (pt-core/src/decision/goal_optimizer.rs). */
module BranchBound {
  import opened Wrappers
  import opened Plans
  import DescendingSort
  import Knapsack

  /** The best selection so far: its loss and its indices in search order. */
  datatype Found = Found(loss: real, selection: seq<nat>)

  function SuffixSum(w: seq<real>, i: nat): real
    requires i <= |w|
    decreases |w| - i
  {
    if i == |w| then 0.0 else SuffixSum(w, i + 1) + w[i]
  }

  function Improved(best: Option<Found>, loss: real, current: seq<nat>): Option<Found> {
    if best.None? || loss < best.value.loss then Some(Found(loss, current)) else best
  }

  /** The search from a candidate on: a branch ends when it reaches the target, when it costs
      as much as the best selection, and when all remaining gains together are too little;
      otherwise the candidate is first included, then left out. */
  function Explore(cs: seq<Candidate>, target: real, idx: nat, current: seq<nat>, loss: real, gain: real,
                   best: Option<Found>): Option<Found>
    requires idx <= |cs|
    decreases |cs| - idx
  {
    if gain >= target then Improved(best, loss, current)
    else if idx == |cs| || (best.Some? && loss >= best.value.loss) then best
    else if gain + SuffixSum(Gains(cs), idx) < target then best
    else
      var included := Explore(cs, target, idx + 1, current + [idx],
                              loss + cs[idx].expectedLoss, gain + Gain(cs[idx]), best);
      Explore(cs, target, idx + 1, current, loss, gain, included)
  }

  /** The search state the recursive calls share. */
  class Search {
    const ordered: seq<Candidate>
    const target: real
    const suffixMax: seq<real>
    var current: seq<nat>
    var best: Option<Found>

    ghost predicate Valid() {
      |suffixMax| == |ordered| + 1 && forall i | 0 <= i <= |ordered| :: suffixMax[i] == SuffixSum(Gains(ordered), i)
    }

    constructor (ordered: seq<Candidate>, target: real, suffixMax: seq<real>)
      ensures this.ordered == ordered && this.target == target && this.suffixMax == suffixMax
      ensures current == [] && best == None
    {
      this.ordered, this.target, this.suffixMax := ordered, target, suffixMax;
      current, best := [], None;
    }

    /** `dfs`: the selection in progress is restored, the best one is the specified one. */
    method Dfs(idx: nat, loss: real, gain: real)
      requires Valid() && idx <= |ordered|
      modifies this
      ensures current == old(current)
      ensures best == Explore(ordered, target, idx, old(current), loss, gain, old(best))
      decreases |ordered| - idx
    {
      if gain >= target {
        if best.None? || loss < best.value.loss { best := Some(Found(loss, current)); }
        return;
      }
      if idx == |ordered| { return; }
      if best.Some? && loss >= best.value.loss { return; }
      if gain + suffixMax[idx] < target { return; }
      current := current + [idx];
      Dfs(idx + 1, loss + ordered[idx].expectedLoss, gain + Gain(ordered[idx]));
      current := current[..|current| - 1];
      Dfs(idx + 1, loss, gain);
    }
  }

  method SuffixMax(w: seq<real>) returns (suffix: seq<real>)
    ensures |suffix| == |w| + 1 && forall i | 0 <= i <= |w| :: suffix[i] == SuffixSum(w, i)
  {
    suffix := seq(|w| + 1, i => 0.0);
    var i := |w|;
    while i > 0
      invariant 0 <= i <= |w| && |suffix| == |w| + 1
      invariant forall k | i <= k <= |w| :: suffix[k] == SuffixSum(w, k)
    {
      i := i - 1;
      suffix := suffix[i := suffix[i + 1] + w[i]];
    }
  }

  // ------------------------------------------------ what is found is a plan

  function At(cs: seq<Candidate>, sel: seq<nat>): seq<Candidate>
    requires forall i | 0 <= i < |sel| :: sel[i] < |cs|
  {
    seq(|sel|, i requires 0 <= i < |sel| => cs[sel[i]])
  }

  /** Strictly increasing indices below n. */
  ghost predicate Ascending(sel: seq<nat>, n: nat) {
    (forall i | 0 <= i < |sel| :: sel[i] < n) && forall i, j | 0 <= i < j < |sel| :: sel[i] < sel[j]
  }

  ghost predicate Reaches(cs: seq<Candidate>, target: real, best: Option<Found>) {
    best.Some? ==>
      && Ascending(best.value.selection, |cs|)
      && TotalLoss(At(cs, best.value.selection)) == best.value.loss
      && TotalGain(At(cs, best.value.selection)) >= target
  }

  lemma Included(cs: seq<Candidate>, current: seq<nat>, idx: nat)
    requires idx < |cs| && Ascending(current, idx)
    ensures Ascending(current + [idx], idx + 1)
    ensures At(cs, current + [idx]) == At(cs, current) + [cs[idx]]
    ensures TotalLoss(At(cs, current + [idx])) == TotalLoss(At(cs, current)) + cs[idx].expectedLoss
    ensures TotalGain(At(cs, current + [idx])) == TotalGain(At(cs, current)) + Gain(cs[idx])
  {
    assert At(cs, current + [idx]) == At(cs, current) + [cs[idx]];
    LossOfFront(At(cs, current), cs[idx]);
  }

  /** Every selection found has the loss recorded for it and reaches the target. */
  lemma {:induction false} FoundReaches(cs: seq<Candidate>, target: real, idx: nat, current: seq<nat>,
                                        loss: real, gain: real, best: Option<Found>)
    requires idx <= |cs| && Ascending(current, idx) && Reaches(cs, target, best)
    requires TotalLoss(At(cs, current)) == loss && TotalGain(At(cs, current)) == gain
    ensures Reaches(cs, target, Explore(cs, target, idx, current, loss, gain, best))
    decreases |cs| - idx
  {
    if gain >= target {
      assert Reaches(cs, target, Some(Found(loss, current)));
    } else if idx < |cs| {
      var more, loss', gain' := current + [idx], loss + cs[idx].expectedLoss, gain + Gain(cs[idx]);
      Included(cs, current, idx);
      assert Ascending(current, idx + 1);
      FoundReaches(cs, target, idx + 1, more, loss', gain', best);
      FoundReaches(cs, target, idx + 1, current, loss, gain,
                   Explore(cs, target, idx + 1, more, loss', gain', best));
    }
  }

  lemma {:induction false} AscendingPicks(cs: seq<Candidate>, sel: seq<nat>, n: nat)
    requires n <= |cs| && Ascending(sel, n)
    ensures At(cs, sel) == Pick(cs, (set k | k in sel), n)
  {
    assert |sel| > 0 ==> sel[0] < n;
    if n > 0 {
      var all := set k | k in sel;
      if n - 1 in sel {
        var m := |sel| - 1;
        assert sel[m] == n - 1;
        var front := sel[..m];
        AscendingPicks(cs, front, n - 1);
        assert forall k | 0 <= k < n - 1 :: k in front <==> k in sel;
        PickFront(cs, cs, (set k | k in front), all, n - 1);
        assert At(cs, sel) == At(cs, front) + [cs[n - 1]];
      } else {
        AscendingPicks(cs, sel, n - 1);
      }
    }
  }

  lemma AscendingAllowed(cs: seq<Candidate>, sel: seq<nat>)
    requires Ascending(sel, |cs|)
    ensures Allowed(cs, At(cs, sel))
  {
    AscendingPicks(cs, sel, |cs|);
    PickTotals(cs, (set k | k in sel));
  }

  // -------------------------------------------------- nothing cheaper is missed

  /** The sum of w over the members of s from i on. */
  function SumFrom(w: seq<real>, s: set<nat>, i: nat): real
    requires i <= |w|
    decreases |w| - i
  {
    if i == |w| then 0.0 else SumFrom(w, s, i + 1) + if i in s then w[i] else 0.0
  }

  lemma {:induction false} SumSplits(w: seq<real>, s: set<nat>, i: nat)
    requires i <= |w|
    ensures Sum(w, s, i) + SumFrom(w, s, i) == Sum(w, s, |w|)
    decreases |w| - i
  {
    if i < |w| { SumSplits(w, s, i + 1); }
  }

  ghost predicate NonNegative(w: seq<real>) { forall i | 0 <= i < |w| :: w[i] >= 0.0 }

  ghost predicate NonPositive(w: seq<real>) { forall i | 0 <= i < |w| :: w[i] <= 0.0 }

  lemma {:induction false} SumFromBounds(w: seq<real>, s: set<nat>, i: nat)
    requires i <= |w|
    ensures NonNegative(w) ==> 0.0 <= SumFrom(w, s, i) <= SuffixSum(w, i)
    ensures NonPositive(w) ==> SumFrom(w, s, i) <= 0.0
    decreases |w| - i
  {
    if i < |w| { SumFromBounds(w, s, i + 1); }
  }

  ghost predicate Beats(best: Option<Found>, loss: real) { best.Some? && best.value.loss <= loss }

  /** The best loss never rises. */
  lemma {:induction false} NeverWorse(cs: seq<Candidate>, target: real, idx: nat, current: seq<nat>,
                                      loss: real, gain: real, best: Option<Found>, bound: real)
    requires idx <= |cs| && Beats(best, bound)
    ensures Beats(Explore(cs, target, idx, current, loss, gain, best), bound)
    decreases |cs| - idx
  {
    if gain < target && idx < |cs| {
      var more, loss', gain' := current + [idx], loss + cs[idx].expectedLoss, gain + Gain(cs[idx]);
      NeverWorse(cs, target, idx + 1, more, loss', gain', best, bound);
      NeverWorse(cs, target, idx + 1, current, loss, gain,
                 Explore(cs, target, idx + 1, more, loss', gain', best), bound);
    }
  }

  /** With no negative gain the remaining gains bound every completion, so the search beats
      each completion that reaches the target. */
  lemma {:induction false} NothingMissed(cs: seq<Candidate>, target: real, idx: nat, current: seq<nat>,
                                         loss: real, gain: real, best: Option<Found>, s: set<nat>)
    requires idx <= |cs| && NonNegative(Losses(cs)) && NonNegative(Gains(cs))
    requires gain + SumFrom(Gains(cs), s, idx) >= target
    ensures Beats(Explore(cs, target, idx, current, loss, gain, best), loss + SumFrom(Losses(cs), s, idx))
    decreases |cs| - idx
  {
    SumFromBounds(Losses(cs), s, idx);
    SumFromBounds(Gains(cs), s, idx);
    if gain < target && idx < |cs| && !Beats(best, loss) {
      var more, loss', gain' := current + [idx], loss + cs[idx].expectedLoss, gain + Gain(cs[idx]);
      var included := Explore(cs, target, idx + 1, more, loss', gain', best);
      if idx in s {
        NothingMissed(cs, target, idx + 1, more, loss', gain', best, s);
        NeverWorse(cs, target, idx + 1, current, loss, gain, included, loss + SumFrom(Losses(cs), s, idx));
      } else {
        NothingMissed(cs, target, idx + 1, current, loss, gain, included, s);
      }
    }
  }

  // ------------------------------------------------------------- optimal plans

  ghost predicate IsBest(cs: seq<Candidate>, target: real, plan: seq<Candidate>) {
    && Allowed(cs, plan) && TotalGain(plan) >= target
    && forall other | Allowed(cs, other) && TotalGain(other) >= target :: TotalLoss(plan) <= TotalLoss(other)
  }

  ghost predicate Unreachable(cs: seq<Candidate>, target: real) {
    forall plan | Allowed(cs, plan) :: TotalGain(plan) < target
  }

  function Searched(ordered: seq<Candidate>, target: real): (best: Option<Found>)
  {
    Explore(ordered, target, 0, [], 0.0, 0.0, None)
  }

  lemma SearchedReaches(ordered: seq<Candidate>, target: real)
    ensures Reaches(ordered, target, Searched(ordered, target))
  {
    assert At(ordered, []) == [];
    FoundReaches(ordered, target, 0, [], 0.0, 0.0, None);
  }

  /** The search is right: it finds a best plan, or nothing when no plan reaches the target. */
  ghost predicate Right(ordered: seq<Candidate>, target: real) {
    SearchedReaches(ordered, target);
    match Searched(ordered, target)
    case None => Unreachable(ordered, target)
    case Some(found) => IsBest(ordered, target, At(ordered, found.selection))
  }

  ghost predicate SomePositive(cs: seq<Candidate>) { exists i | 0 <= i < |cs| :: Gain(cs[i]) > 0.0 }

  ghost predicate SomeNegative(cs: seq<Candidate>) { exists i | 0 <= i < |cs| :: Gain(cs[i]) < 0.0 }

  /** No gain is negative, or none is positive. */
  ghost predicate OneSided(cs: seq<Candidate>) {
    !SomeNegative(cs) || !SomePositive(cs)
  }

  lemma SearchedBeats(ordered: seq<Candidate>, target: real, plan: seq<Candidate>)
    requires NoLosses(ordered) && OneSided(ordered) && Allowed(ordered, plan) && TotalGain(plan) >= target
    ensures Beats(Searched(ordered, target), TotalLoss(plan))
  {
    var s := PlanTotals(ordered, plan);
    SumSplits(Losses(ordered), s, 0);
    SumSplits(Gains(ordered), s, 0);
    SumFromBounds(Losses(ordered), s, 0);
    SumFromBounds(Gains(ordered), s, 0);
    if NonNegative(Gains(ordered)) {
      NothingMissed(ordered, target, 0, [], 0.0, 0.0, None, s);
    }
  }

  lemma OneSidedIsRight(ordered: seq<Candidate>, target: real)
    requires NoLosses(ordered) && OneSided(ordered)
    ensures Right(ordered, target)
  {
    SearchedReaches(ordered, target);
    var best := Searched(ordered, target);
    if best.Some? { AscendingAllowed(ordered, best.value.selection); }
    forall plan | Allowed(ordered, plan) && TotalGain(plan) >= target ensures Beats(best, TotalLoss(plan)) {
      SearchedBeats(ordered, target, plan);
    }
  }

  // ------------------------------------------------------- gains of both signs

  /** The candidates with a positive gain. */
  function Positives(cs: seq<Candidate>): seq<Candidate> {
    if |cs| == 0 then [] else Positives(cs[..|cs| - 1]) + if Gain(cs[|cs| - 1]) > 0.0 then [cs[|cs| - 1]] else []
  }

  lemma {:induction false} PositivesAllowed(cs: seq<Candidate>)
    ensures Allowed(cs, Positives(cs))
  {
    if |cs| > 0 {
      var front, last := cs[..|cs| - 1], cs[|cs| - 1];
      PositivesAllowed(front);
      assert cs == front + [last];
      assert multiset(cs) == multiset(front) + multiset{last};
    }
  }

  lemma {:induction false} PositivesReach(cs: seq<Candidate>)
    ensures TotalGain(Positives(cs)) >= 0.0 && TotalGain(Positives(cs)) >= TotalGain(cs)
    ensures SomePositive(cs) ==> TotalGain(Positives(cs)) > 0.0
    ensures SomeNegative(cs) ==> TotalGain(Positives(cs)) > TotalGain(cs)
  {
    if |cs| > 0 {
      var n := |cs| - 1;
      PositivesReach(cs[..n]);
      SignsOfFront(cs);
      LossOfFront(Positives(cs[..n]), cs[n]);
      assert Positives(cs) == if Gain(cs[n]) > 0.0 then Positives(cs[..n]) + [cs[n]] else Positives(cs[..n]);
    }
  }

  lemma SignsOfFront(cs: seq<Candidate>)
    requires |cs| > 0
    ensures SomePositive(cs) <==> SomePositive(cs[..|cs| - 1]) || Gain(cs[|cs| - 1]) > 0.0
    ensures SomeNegative(cs) <==> SomeNegative(cs[..|cs| - 1]) || Gain(cs[|cs| - 1]) < 0.0
  {
    assert forall i | 0 <= i < |cs| - 1 :: cs[i] == cs[..|cs| - 1][i];
  }

  lemma {:induction false} SuffixOfAll(cs: seq<Candidate>, i: nat)
    requires i <= |cs|
    ensures TotalGain(cs[..i]) + SuffixSum(Gains(cs), i) == TotalGain(cs)
    decreases |cs| - i
  {
    if i == |cs| {
      assert cs[..i] == cs;
    } else {
      SuffixOfAll(cs, i + 1);
      assert cs[..i + 1] == cs[..i] + [cs[i]];
      LossOfFront(cs[..i], cs[i]);
    }
  }

  /** The target made of all positive gains is reached by the plan of these candidates, but
      the sum of all gains is below it and the search stops before its first branch. */
  lemma BothSignsPruned(ordered: seq<Candidate>)
    requires !OneSided(ordered)
    ensures !Right(ordered, TotalGain(Positives(ordered)))
  {
    PositivesAllowed(ordered);
    PositivesReach(ordered);
    assert SomePositive(ordered) && SomeNegative(ordered);
    SuffixOfAll(ordered, 0);
    assert Searched(ordered, TotalGain(Positives(ordered))) == None;
  }

  /** A gain of three and a loss of two: nothing is found for the target three. */
  lemma ThreeAndMinusTwo()
    ensures var cs := [Candidate("a", 1.0, [3.0], false), Candidate("b", 1.0, [-2.0], false)];
            Searched(cs, 3.0) == None && Allowed(cs, [cs[0]]) && TotalGain([cs[0]]) == 3.0
  {
    var cs := [Candidate("a", 1.0, [3.0], false), Candidate("b", 1.0, [-2.0], false)];
    assert cs == [cs[0]] + [cs[1]];
    assert SuffixSum(Gains(cs), 1) == -2.0;
    LossOfFront([], cs[0]);
    assert [] + [cs[0]] == [cs[0]];
  }

  /** The search is right for every target exactly when the gains have one sign. */
  lemma RightExactly(ordered: seq<Candidate>)
    requires NoLosses(ordered)
    ensures (forall target: real :: Right(ordered, target)) <==> OneSided(ordered)
  {
    if OneSided(ordered) {
      forall target: real ensures Right(ordered, target) { OneSidedIsRight(ordered, target); }
    } else {
      BothSignsPruned(ordered);
    }
  }

  // --------------------------------------------------------------- the optimizer

  /** `pareto_efficiency` for a single goal. */
  function Efficiency(c: Candidate, goal: Goal): real {
    var weighted := Gain(c) * goal.weight;
    if c.expectedLoss > 0.000000000001 then weighted / c.expectedLoss else weighted * 100000000.0
  }

  /** The candidates are searched by gain, weighted, per loss; losses up to 1e-12 count as
      free and their gains are scaled by 1e8. */
  lemma EfficiencyExactly(c: Candidate, goal: Goal)
    ensures c.expectedLoss > 0.000000000001 ==> Efficiency(c, goal) * c.expectedLoss == Gain(c) * goal.weight
    ensures c.expectedLoss <= 0.000000000001 ==> Efficiency(c, goal) == Gain(c) * goal.weight * 100000000.0
  {}

  lemma NoneEligible(cs: seq<Candidate>)
    ensures |Eligible(cs)| == 0 <==> forall c | c in cs :: c.blocked || c.expectedLoss < 0.0
  {
    forall c | c in cs ensures |Eligible(cs)| == 0 ==> c.blocked || c.expectedLoss < 0.0 {
      EligibleMultiplicity(cs, c);
      assert c in multiset(cs);
    }
    if |Eligible(cs)| > 0 { assert Eligible(cs)[0] in cs; }
  }

  /** Of selections of the same loss the first found is kept: here the first candidate. */
  lemma FirstOfEquals()
    ensures var cs := [Candidate("a", 1.0, [1.0], false), Candidate("b", 1.0, [1.0], false)];
            Searched(cs, 1.0) == Some(Found(1.0, [0]))
  {
    var cs := [Candidate("a", 1.0, [1.0], false), Candidate("b", 1.0, [1.0], false)];
    assert SuffixSum(Gains(cs), 2) == 0.0 && SuffixSum(Gains(cs), 1) == 1.0 && SuffixSum(Gains(cs), 0) == 2.0;
    var one := Some(Found(1.0, [0]));
    assert [] + [0] == [0] && [] + [1] == [1];
    assert Explore(cs, 1.0, 1, [0], 1.0, 1.0, None) == one;
    assert Explore(cs, 1.0, 2, [1], 1.0, 1.0, one) == one;
    assert Explore(cs, 1.0, 2, [], 0.0, 0.0, one) == one;
    assert Explore(cs, 1.0, 1, [], 0.0, 0.0, one) == one;
  }

  lemma OneSidedReordered(cs: seq<Candidate>, ordered: seq<Candidate>)
    requires multiset(cs) == multiset(ordered)
    ensures NoLosses(cs) ==> NoLosses(ordered)
    ensures OneSided(cs) ==> OneSided(ordered)
  {
    forall i | 0 <= i < |ordered| ensures exists k | 0 <= k < |cs| :: cs[k] == ordered[i] {
      assert ordered[i] in multiset(cs);
    }
  }

  /** A plan is allowed, reaches the target and has its true totals. When the gains have one
      sign it is a best one, and the fallback means that no plan reaches the target. */
  ghost predicate Answers(eligible: seq<Candidate>, target: real, r: Outcome) {
    match r
    case Plan(selected, totalLoss, achieved, met) =>
      && Allowed(eligible, selected)
      && totalLoss == TotalLoss(selected) && achieved == TotalGain(selected) >= target && met
      && (OneSided(eligible) ==> IsBest(eligible, target, selected))
    case GreedyFallback(why) =>
      why.Infeasible? && (OneSided(eligible) ==> Unreachable(eligible, target))
  }

  /** The same of the candidates as given. */
  ghost predicate BestOffered(cs: seq<Candidate>, target: real, r: Outcome) {
    match r
    case Plan(selected, totalLoss, achieved, met) =>
      && Offered(cs, selected)
      && totalLoss == TotalLoss(selected) && achieved == TotalGain(selected) >= target && met
      && (OneSided(Eligible(cs)) ==>
            forall other | Offered(cs, other) && TotalGain(other) >= target :: totalLoss <= TotalLoss(other))
    case GreedyFallback(_) =>
      OneSided(Eligible(cs)) ==> forall plan | Offered(cs, plan) :: TotalGain(plan) < target
  }

  lemma AnswersBest(cs: seq<Candidate>, target: real, r: Outcome)
    requires Answers(Eligible(cs), target, r)
    ensures BestOffered(cs, target, r)
  {
    forall plan ensures Allowed(Eligible(cs), plan) <==> Offered(cs, plan) {
      OfferedExactly(cs, plan);
    }
  }

  lemma InEligible(cs: seq<Candidate>, c: Candidate)
    ensures c in Eligible(cs) <==> c in cs && !c.blocked && c.expectedLoss >= 0.0
  {
    EligibleMultiplicity(cs, c);
    assert c in Eligible(cs) <==> multiset(Eligible(cs))[c] > 0;
    assert c in cs <==> multiset(cs)[c] > 0;
  }

  lemma SignsOfEligible(cs: seq<Candidate>)
    ensures SomePositive(Eligible(cs)) <==> exists c | c in cs :: !c.blocked && c.expectedLoss >= 0.0 && Gain(c) > 0.0
    ensures SomeNegative(Eligible(cs)) <==> exists c | c in cs :: !c.blocked && c.expectedLoss >= 0.0 && Gain(c) < 0.0
  {
    forall c ensures c in Eligible(cs) <==> c in cs && !c.blocked && c.expectedLoss >= 0.0 { InEligible(cs, c); }
    assert SomePositive(Eligible(cs)) <==> exists c | c in Eligible(cs) :: Gain(c) > 0.0;
    assert SomeNegative(Eligible(cs)) <==> exists c | c in Eligible(cs) :: Gain(c) < 0.0;
  }

  /** The signs of the gains that matter are those of the candidates that may be selected. */
  lemma OneSidedExactly(cs: seq<Candidate>)
    ensures OneSided(Eligible(cs))
       <==> || (forall c | c in cs :: c.blocked || c.expectedLoss < 0.0 || Gain(c) >= 0.0)
            || (forall c | c in cs :: c.blocked || c.expectedLoss < 0.0 || Gain(c) <= 0.0)
  {
    SignsOfEligible(cs);
  }

  /** `optimize_ilp`. A plan always is allowed and reaches the target; when the gains have
      one sign it is a best one, and none is returned only if none exists. */
  method OptimizeIlp(cs: seq<Candidate>, goals: seq<Goal>) returns (r: Outcome)
    requires |goals| == 1 ==> Contributing(Eligible(cs))
    ensures r == GreedyFallback(Unsupported) <==> |goals| != 1 || |cs| == 0
    ensures r == GreedyFallback(NothingEligible)
       <==> |goals| == 1 && |cs| > 0 && forall c | c in cs :: c.blocked || c.expectedLoss < 0.0
    ensures r != GreedyFallback(TooManyCandidates)
    ensures r.Plan? || r == GreedyFallback(Infeasible) ==>
              && |goals| == 1 && BestOffered(cs, goals[0].target, r)
              && Answers(Eligible(cs), goals[0].target, r)
  {
    if |goals| != 1 || |cs| == 0 {
      return GreedyFallback(Unsupported);
    }
    var eligible := Eligible(cs);
    NoneEligible(cs);
    if |eligible| == 0 {
      return GreedyFallback(NothingEligible);
    }
    var goal := goals[0];
    var ordered := DescendingSort.Sort(eligible, c => Efficiency(c, goal));
    DescendingSort.SortMultiset(eligible, c => Efficiency(c, goal));
    OneSidedReordered(eligible, ordered);
    var suffixMax := SuffixMax(Gains(ordered));
    var search := new Search(ordered, goal.target, suffixMax);
    search.Dfs(0, 0.0, 0.0);
    SearchedReaches(ordered, goal.target);
    if OneSided(ordered) { OneSidedIsRight(ordered, goal.target); }
    if search.best.None? {
      AnswersBest(cs, goal.target, GreedyFallback(Infeasible));
      return GreedyFallback(Infeasible);
    }
    var best := search.best.value;
    AscendingAllowed(ordered, best.selection);
    var selected := At(ordered, best.selection);
    var achieved := TotalGain(selected);
    r := Plan(selected, best.loss, achieved, achieved >= goal.target);
    AnswersBest(cs, goal.target, r);
  }

  /** The two exact optimizers agree: when the gains have one sign and every positive gain is
      a whole number of steps, both return a plan or neither does, and at the same loss. */
  lemma OptimizersAgree(eligible: seq<Candidate>, target: real, resolution: real, dp: Outcome, ilp: Outcome)
    requires resolution > 0.0 && NoLosses(eligible)
    requires OneSided(eligible) && Knapsack.WholeSteps(eligible, resolution)
    requires Knapsack.Answers(eligible, target, resolution, dp) && Answers(eligible, target, ilp)
    ensures dp.Plan? <==> ilp.Plan?
    ensures dp.Plan? ==> dp.totalLoss == ilp.totalLoss && dp.met && IsBest(eligible, target, dp.selected)
  {
    if dp.Plan? {
      ChoiceIsBest(eligible, target, resolution, dp.selected);
    } else if ilp.Plan? {
      Knapsack.ReachesRoundedExact(ilp.selected, target, resolution);
    }
  }

  lemma ChoiceIsBest(cs: seq<Candidate>, target: real, resolution: real, plan: seq<Candidate>)
    requires resolution > 0.0 && NoLosses(cs) && Knapsack.WholeSteps(cs, resolution)
    requires Knapsack.IsChoice(cs, target, resolution, plan)
    ensures IsBest(cs, target, plan)
  {
    Knapsack.WholeStepsMeet(cs, cs, target, resolution, plan);
    forall other | Allowed(cs, other) && TotalGain(other) >= target ensures TotalLoss(plan) <= TotalLoss(other) {
      Knapsack.NoCheaperPlan(cs, target, resolution, plan, other);
    }
  }
}
