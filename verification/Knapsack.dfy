/** The dynamic-programming optimizer (pt-core/src/decision/goal_optimizer.rs). */
module Knapsack {
  import opened Wrappers
  import opened Plans
  import opened Totals

  function Ceil(x: real): int { -(-x).Floor }

  /** `ceil() as usize`: a negative value becomes zero. */
  function CeilSteps(x: real): nat { if Ceil(x) < 0 then 0 else Ceil(x) }

  lemma CeilExact(x: real, n: int)
    ensures x <= Ceil(x) as real < x + 1.0
    ensures x <= n as real ==> Ceil(x) <= n
  {}

  /** A contribution in whole steps, rounded up. */
  function StepsOf(c: Candidate, resolution: real): nat
    requires resolution != 0.0
  {
    CeilSteps(Gain(c) / resolution)
  }

  function StepList(cs: seq<Candidate>, resolution: real): seq<nat>
    requires resolution != 0.0
  {
    seq(|cs|, i requires 0 <= i < |cs| => StepsOf(cs[i], resolution))
  }

  function TotalSteps(cs: seq<Candidate>, resolution: real): nat
    requires resolution != 0.0
  {
    if |cs| == 0 then 0 else TotalSteps(cs[..|cs| - 1], resolution) + StepsOf(cs[|cs| - 1], resolution)
  }

  function Count(w: seq<nat>, s: set<nat>, n: nat): nat
    requires n <= |w|
  {
    if n == 0 then 0 else Count(w, s, n - 1) + if n - 1 in s then w[n - 1] else 0
  }

  function Cap(x: nat, max: nat): nat { if x <= max then x else max }

  // ------------------------------------------------------------------- the table

  /** Each entry is the loss of its own selection, which makes exactly that many steps
      (the last entry: that many or more) and uses no candidate that makes none. */
  ghost predicate Sound(steps: seq<nat>, losses: seq<real>, n: nat, dp: seq<Option<real>>, sel: seq<set<nat>>)
    requires n <= |steps| == |losses| && |dp| == |sel| >= 1
  {
    forall j | 0 <= j < |dp| && dp[j].Some? :: Backed(steps, losses, n, |dp| - 1, j, dp[j].value, sel[j])
  }

  ghost predicate Backed(steps: seq<nat>, losses: seq<real>, n: nat, max: nat, j: nat, loss: real, s: set<nat>)
    requires n <= |steps| == |losses|
  {
    && Within(s, n) && Cap(Count(steps, s, n), max) == j && Sum(losses, s, n) == loss
    && forall k | k in s :: k < |steps| && steps[k] >= 1
  }

  /** And it is the least loss of any selection with that many steps. */
  ghost predicate Least(steps: seq<nat>, losses: seq<real>, n: nat, dp: seq<Option<real>>)
    requires n <= |steps| == |losses| && |dp| >= 1
  {
    forall s: set<nat> | Within(s, n) :: AtMost(dp, Cap(Count(steps, s, n), |dp| - 1), Sum(losses, s, n))
  }

  ghost predicate AtMost(dp: seq<Option<real>>, j: nat, loss: real) {
    j < |dp| && dp[j].Some? && dp[j].value <= loss
  }

  lemma {:induction false} CountAgrees(w: seq<nat>, s: set<nat>, t: set<nat>, n: nat)
    requires n <= |w| && forall k | 0 <= k < n :: k in s <==> k in t
    ensures Count(w, s, n) == Count(w, t, n)
  {
    if n > 0 { CountAgrees(w, s, t, n - 1); }
  }

  lemma BackedLater(steps: seq<nat>, losses: seq<real>, n: nat, max: nat, j: nat, loss: real, s: set<nat>)
    requires n < |steps| == |losses| && Backed(steps, losses, n, max, j, loss, s)
    ensures Backed(steps, losses, n + 1, max, j, loss, s)
  {
    assert n !in s;
  }

  lemma BackedWith(steps: seq<nat>, losses: seq<real>, n: nat, max: nat, j: nat, loss: real, s: set<nat>)
    requires n < |steps| == |losses| && Backed(steps, losses, n, max, j, loss, s) && steps[n] >= 1
    ensures Backed(steps, losses, n + 1, max, Cap(j + steps[n], max), loss + losses[n], s + {n})
  {
    CountAgrees(steps, s, s + {n}, n);
    SumAgrees(losses, s, s + {n}, n);
  }

  lemma SoundUpdated(steps: seq<nat>, losses: seq<real>, n: nat, dp: seq<Option<real>>, sel: seq<set<nat>>,
                     j: nat, loss: real, s: set<nat>)
    requires n <= |steps| == |losses| && |dp| == |sel| && j < |dp| && Sound(steps, losses, n, dp, sel)
    requires Backed(steps, losses, n, |dp| - 1, j, loss, s)
    ensures Sound(steps, losses, n, dp[j := Some(loss)], sel[j := s])
  {}

  ghost predicate NoWorse(dp: seq<Option<real>>, dp': seq<Option<real>>) {
    forall j | 0 <= j < |dp| && dp[j].Some? :: AtMost(dp', j, dp[j].value)
  }

  /** The entries from the given one on have been tried with a candidate added. */
  ghost predicate Tried(dp: seq<Option<real>>, dp': seq<Option<real>>, step: nat, loss: real, first: nat) {
    forall j | first <= j < |dp| && dp[j].Some? :: AtMost(dp', Cap(j + step, |dp| - 1), dp[j].value + loss)
  }

  function Lowered(dp: seq<Option<real>>, j: nat, loss: real): seq<Option<real>>
    requires j < |dp|
  {
    if dp[j].None? || loss < dp[j].value then dp[j := Some(loss)] else dp
  }

  lemma LoweredNoWorse(dp: seq<Option<real>>, dp': seq<Option<real>>, j: nat, loss: real)
    requires |dp'| == |dp| && j < |dp| && NoWorse(dp, dp')
    ensures NoWorse(dp, Lowered(dp', j, loss))
  {}

  lemma LoweredTried(dp: seq<Option<real>>, dp': seq<Option<real>>, step: nat, loss: real, left: nat)
    requires |dp'| == |dp| && left < |dp| && dp'[left] == dp[left] && dp[left].Some?
    requires Tried(dp, dp', step, loss, left + 1)
    ensures Tried(dp, Lowered(dp', Cap(left + step, |dp| - 1), dp[left].value + loss), step, loss, left)
  {}

  lemma SoundLater(steps: seq<nat>, losses: seq<real>, n: nat, dp: seq<Option<real>>, sel: seq<set<nat>>)
    requires n < |steps| == |losses| && |dp| == |sel| >= 1 && Sound(steps, losses, n, dp, sel)
    ensures Sound(steps, losses, n + 1, dp, sel)
  {
    forall j | 0 <= j < |dp| && dp[j].Some?
      ensures Backed(steps, losses, n + 1, |dp| - 1, j, dp[j].value, sel[j])
    {
      BackedLater(steps, losses, n, |dp| - 1, j, dp[j].value, sel[j]);
    }
  }

  /** An entry is lowered only by a candidate that makes a step, so never by itself. */
  lemma LoweredSound(steps: seq<nat>, losses: seq<real>, n: nat, dp: seq<Option<real>>, sel: seq<set<nat>>,
                     dp': seq<Option<real>>, sel': seq<set<nat>>, left: nat)
    requires n < |steps| == |losses| && losses[n] >= 0.0 && |dp| == |sel| == |dp'| == |sel'| && left < |dp|
    requires dp'[left] == dp[left] && dp[left].Some? && sel'[left] == sel[left]
    requires Sound(steps, losses, n, dp, sel) && Sound(steps, losses, n + 1, dp', sel')
    ensures var j, loss := Cap(left + steps[n], |dp| - 1), dp[left].value + losses[n];
            dp'[j].None? || loss < dp'[j].value ==>
              left < j && Sound(steps, losses, n + 1, dp'[j := Some(loss)], sel'[j := sel'[left] + {n}])
  {
    var j, loss := Cap(left + steps[n], |dp| - 1), dp[left].value + losses[n];
    if dp'[j].None? || loss < dp'[j].value {
      BackedWith(steps, losses, n, |dp| - 1, left, dp[left].value, sel[left]);
      SoundUpdated(steps, losses, n + 1, dp', sel', j, loss, sel[left] + {n});
    }
  }

  /** The table when the entries before `left` have not been tried yet. */
  ghost predicate Swept(steps: seq<nat>, losses: seq<real>, n: nat, dp: seq<Option<real>>, sel: seq<set<nat>>,
                        dp': seq<Option<real>>, sel': seq<set<nat>>, left: nat)
    requires n < |steps| == |losses|
  {
    && |dp| == |sel| == |dp'| == |sel'| >= 1 && left <= |dp|
    && (forall k | 0 <= k < left :: dp'[k] == dp[k] && sel'[k] == sel[k])
    && Sound(steps, losses, n + 1, dp', sel')
    && NoWorse(dp, dp') && Tried(dp, dp', steps[n], losses[n], left)
  }

  lemma SweepOne(steps: seq<nat>, losses: seq<real>, n: nat, dp: seq<Option<real>>, sel: seq<set<nat>>,
                 dp': seq<Option<real>>, sel': seq<set<nat>>, left: nat)
    requires n < |steps| == |losses| && losses[n] >= 0.0 && |dp| == |sel| >= 1
    requires Sound(steps, losses, n, dp, sel)
    requires Swept(steps, losses, n, dp, sel, dp', sel', left + 1) && dp'[left].Some?
    ensures var j, loss := Cap(left + steps[n], |dp| - 1), dp'[left].value + losses[n];
            if dp'[j].None? || loss < dp'[j].value
            then Swept(steps, losses, n, dp, sel, dp'[j := Some(loss)], sel'[j := sel'[left] + {n}], left)
            else Swept(steps, losses, n, dp, sel, dp', sel', left)
  {
    var j, loss := Cap(left + steps[n], |dp| - 1), dp[left].value + losses[n];
    LoweredNoWorse(dp, dp', j, loss);
    LoweredTried(dp, dp', steps[n], losses[n], left);
    LoweredSound(steps, losses, n, dp, sel, dp', sel', left);
  }

  lemma SweepStart(steps: seq<nat>, losses: seq<real>, n: nat, dp: seq<Option<real>>, sel: seq<set<nat>>)
    requires n < |steps| == |losses| && losses[n] >= 0.0 && |dp| == |sel| >= 1
    requires Sound(steps, losses, n, dp, sel)
    ensures Swept(steps, losses, n, dp, sel, dp, sel, |dp|)
  {
    SoundLater(steps, losses, n, dp, sel);
  }

  lemma SweepNone(steps: seq<nat>, losses: seq<real>, n: nat, dp: seq<Option<real>>, sel: seq<set<nat>>,
                  dp': seq<Option<real>>, sel': seq<set<nat>>, left: nat)
    requires n < |steps| == |losses|
    requires Swept(steps, losses, n, dp, sel, dp', sel', left + 1) && dp'[left].None?
    ensures Swept(steps, losses, n, dp, sel, dp', sel', left)
  {}

  /** One candidate: the entries are updated in place from the last to the first, so each
      source entry is still the one from before. */
  method Consider(steps: seq<nat>, losses: seq<real>, n: nat, dp: seq<Option<real>>, sel: seq<set<nat>>)
    returns (dp': seq<Option<real>>, sel': seq<set<nat>>)
    requires n < |steps| == |losses| && losses[n] >= 0.0 && |dp| == |sel| >= 1
    requires Sound(steps, losses, n, dp, sel)
    ensures |dp'| == |sel'| == |dp| && Sound(steps, losses, n + 1, dp', sel')
    ensures NoWorse(dp, dp') && Tried(dp, dp', steps[n], losses[n], 0)
  {
    var max := |dp| - 1;
    dp', sel' := dp, sel;
    SweepStart(steps, losses, n, dp, sel);
    var left := max + 1;
    while left > 0
      invariant 0 <= left <= max + 1 && |dp'| == |sel'| == |dp|
      invariant Swept(steps, losses, n, dp, sel, dp', sel', left)
    {
      left := left - 1;
      if dp'[left].Some? {
        SweepOne(steps, losses, n, dp, sel, dp', sel', left);
        var newJ := Cap(left + steps[n], max);
        var newLoss := dp'[left].value + losses[n];
        if dp'[newJ].None? || newLoss < dp'[newJ].value {
          dp', sel' := dp'[newJ := Some(newLoss)], sel'[newJ := sel'[left] + {n}];
        }
      } else {
        SweepNone(steps, losses, n, dp, sel, dp', sel', left);
      }
    }
  }

  lemma LeastLater(steps: seq<nat>, losses: seq<real>, n: nat, dp: seq<Option<real>>, dp': seq<Option<real>>)
    requires n < |steps| == |losses| && |dp| == |dp'| >= 1 && Least(steps, losses, n, dp)
    requires NoWorse(dp, dp') && Tried(dp, dp', steps[n], losses[n], 0)
    ensures Least(steps, losses, n + 1, dp')
  {
    var m := n + 1;
    forall s: set<nat> | Within(s, m) ensures AtMost(dp', Cap(Count(steps, s, m), |dp| - 1), Sum(losses, s, m)) {
      var t := s - {n};
      CountAgrees(steps, s, t, n);
      SumAgrees(losses, s, t, n);
      assert Within(t, n);
      var j := Cap(Count(steps, t, n), |dp| - 1);
      assert AtMost(dp, j, Sum(losses, t, n));
    }
  }

  method Fill(steps: seq<nat>, losses: seq<real>, max: nat) returns (dp: seq<Option<real>>, sel: seq<set<nat>>)
    requires |steps| == |losses| && forall i | 0 <= i < |losses| :: losses[i] >= 0.0
    ensures |dp| == |sel| == max + 1
    ensures Sound(steps, losses, |steps|, dp, sel) && Least(steps, losses, |steps|, dp)
  {
    dp := seq(max + 1, j => if j == 0 then Some(0.0) else None);
    sel := seq(max + 1, j => {});
    var idx := 0;
    while idx < |steps|
      invariant 0 <= idx <= |steps| && |dp| == |sel| == max + 1
      invariant Sound(steps, losses, idx, dp, sel) && Least(steps, losses, idx, dp)
    {
      ghost var before := dp;
      dp, sel := Consider(steps, losses, idx, dp, sel);
      LeastLater(steps, losses, idx, before, dp);
      idx := idx + 1;
    }
  }

  // --------------------------------------------------------------- the optimizer

  /** What the optimizer promises of a plan: it is allowed, reaches the rounded target with
      candidates that each make a step, and costs no more than any plan that reaches it. */
  ghost predicate IsChoice(cs: seq<Candidate>, target: real, resolution: real, plan: seq<Candidate>)
    requires resolution != 0.0
  {
    && Allowed(cs, plan) && ReachesRounded(plan, target, resolution)
    && (forall i | 0 <= i < |plan| :: StepsOf(plan[i], resolution) >= 1)
    && forall other | Allowed(cs, other) && ReachesRounded(other, target, resolution) ::
         TotalLoss(plan) <= TotalLoss(other)
  }

  ghost predicate ReachesRounded(plan: seq<Candidate>, target: real, resolution: real)
    requires resolution != 0.0
  {
    TotalSteps(plan, resolution) >= CeilSteps(target / resolution)
  }

  lemma {:induction false} PickSteps(cs: seq<Candidate>, s: set<nat>, n: nat, resolution: real)
    requires n <= |cs| && resolution != 0.0
    ensures TotalSteps(Pick(cs, s, n), resolution) == Count(StepList(cs, resolution), s, n)
  {
    if n > 0 {
      PickSteps(cs, s, n - 1, resolution);
      StepsOfFront(Pick(cs, s, n - 1), cs[n - 1], resolution);
      assert StepList(cs, resolution)[n - 1] == StepsOf(cs[n - 1], resolution);
    }
  }

  /** What is picked comes from the picked indices. */
  lemma {:induction false} PickedFrom(cs: seq<Candidate>, s: set<nat>, n: nat)
    requires n <= |cs|
    ensures forall c | c in Pick(cs, s, n) :: exists k | 0 <= k < n :: k in s && cs[k] == c
  {
    if n > 0 {
      PickedFrom(cs, s, n - 1);
      forall c | c in Pick(cs, s, n) ensures exists k | 0 <= k < n :: k in s && cs[k] == c {
        if c !in Pick(cs, s, n - 1) { assert n - 1 in s && cs[n - 1] == c; }
      }
    }
  }

  lemma PickMakeSteps(cs: seq<Candidate>, s: set<nat>, resolution: real)
    requires resolution != 0.0
    requires forall k | k in s :: k < |cs| && StepList(cs, resolution)[k] >= 1
    ensures forall i | 0 <= i < |Pick(cs, s, |cs|)| :: StepsOf(Pick(cs, s, |cs|)[i], resolution) >= 1
  {
    var p := Pick(cs, s, |cs|);
    PickedFrom(cs, s, |cs|);
    forall i | 0 <= i < |p| ensures StepsOf(p[i], resolution) >= 1 {
      assert p[i] in p;
      var k :| 0 <= k < |cs| && k in s && cs[k] == p[i];
      assert StepList(cs, resolution)[k] >= 1;
    }
  }

  function Stepped(resolution: real): Candidate -> real
    requires resolution != 0.0
  {
    (c: Candidate) => StepsOf(c, resolution) as real
  }

  lemma {:induction false} StepsAreTotal(cs: seq<Candidate>, resolution: real)
    requires resolution != 0.0
    ensures TotalSteps(cs, resolution) as real == Total(cs, Stepped(resolution))
  {
    if |cs| > 0 { StepsAreTotal(cs[..|cs| - 1], resolution); }
  }

  lemma StepsIgnoreOrder(cs: seq<Candidate>, cs': seq<Candidate>, resolution: real)
    requires multiset(cs) == multiset(cs') && resolution != 0.0
    ensures TotalSteps(cs, resolution) == TotalSteps(cs', resolution)
  {
    StepsAreTotal(cs, resolution);
    StepsAreTotal(cs', resolution);
    TotalIgnoresOrder(cs, cs', Stepped(resolution));
  }

  lemma PlanSteps(cs: seq<Candidate>, plan: seq<Candidate>, resolution: real) returns (s: set<nat>)
    requires resolution != 0.0 && Allowed(cs, plan)
    ensures Within(s, |cs|) && TotalLoss(plan) == Sum(Losses(cs), s, |cs|)
    ensures TotalSteps(plan, resolution) == Count(StepList(cs, resolution), s, |cs|)
  {
    s := PlanTotals(cs, plan);
    PickSteps(cs, s, |cs|, resolution);
    StepsIgnoreOrder(Pick(cs, s, |cs|), plan, resolution);
  }

  /** A least table bounds every allowed plan that reaches the rounded target. */
  lemma {:induction false} TableBounds(cs: seq<Candidate>, resolution: real, target: real,
                                       dp: seq<Option<real>>, plan: seq<Candidate>)
    requires resolution != 0.0 && |dp| == CeilSteps(target / resolution) + 2
    requires Least(StepList(cs, resolution), Losses(cs), |cs|, dp)
    requires Allowed(cs, plan) && ReachesRounded(plan, target, resolution)
    ensures AtMost(dp, |dp| - 2, TotalLoss(plan)) || AtMost(dp, |dp| - 1, TotalLoss(plan))
  {
    var s := PlanSteps(cs, plan, resolution);
    assert AtMost(dp, Cap(Count(StepList(cs, resolution), s, |cs|), |dp| - 1), Sum(Losses(cs), s, |cs|));
  }

  lemma {:induction false} EntryIsChoice(cs: seq<Candidate>, resolution: real, target: real,
                      dp: seq<Option<real>>, sel: seq<set<nat>>, j: nat)
    requires resolution != 0.0 && |dp| == |sel| == CeilSteps(target / resolution) + 2
    requires Sound(StepList(cs, resolution), Losses(cs), |cs|, dp, sel)
    requires Least(StepList(cs, resolution), Losses(cs), |cs|, dp)
    requires |dp| - 2 <= j < |dp| && dp[j].Some?
    requires forall k | |dp| - 2 <= k < |dp| && dp[k].Some? :: dp[j].value <= dp[k].value
    ensures IsChoice(cs, target, resolution, Pick(cs, sel[j], |cs|))
    ensures TotalLoss(Pick(cs, sel[j], |cs|)) == dp[j].value
  {
    var plan := Pick(cs, sel[j], |cs|);
    PickTotals(cs, sel[j]);
    PickSteps(cs, sel[j], |cs|, resolution);
    assert Backed(StepList(cs, resolution), Losses(cs), |cs|, |dp| - 1, j, dp[j].value, sel[j]);
    PickMakeSteps(cs, sel[j], resolution);
    forall other | Allowed(cs, other) && ReachesRounded(other, target, resolution)
      ensures TotalLoss(plan) <= TotalLoss(other)
    {
      TableBounds(cs, resolution, target, dp, other);
    }
  }

  /** A plan is a choice, with its true totals; the fallback means that there is none. */
  ghost predicate Answers(eligible: seq<Candidate>, target: real, resolution: real, r: Outcome)
    requires resolution != 0.0
  {
    match r
    case Plan(selected, totalLoss, achieved, met) =>
      && IsChoice(eligible, target, resolution, selected)
      && totalLoss == TotalLoss(selected) && achieved == TotalGain(selected) && (met <==> achieved >= target)
    case GreedyFallback(why) =>
      why.Infeasible? && forall plan | Allowed(eligible, plan) :: !ReachesRounded(plan, target, resolution)
  }

  /** The same of the candidates as given: the plan may be carried out, and costs no more than
      any plan that may be and reaches the rounded target; or there is none. */
  ghost predicate LeastOffered(cs: seq<Candidate>, target: real, resolution: real, r: Outcome)
    requires resolution != 0.0
  {
    match r
    case Plan(selected, totalLoss, achieved, met) =>
      && Offered(cs, selected) && ReachesRounded(selected, target, resolution)
      && totalLoss == TotalLoss(selected) && achieved == TotalGain(selected) && (met <==> achieved >= target)
      && forall other | Offered(cs, other) && ReachesRounded(other, target, resolution) ::
           totalLoss <= TotalLoss(other)
    case GreedyFallback(_) => forall plan | Offered(cs, plan) :: !ReachesRounded(plan, target, resolution)
  }

  lemma AnswersLeast(cs: seq<Candidate>, target: real, resolution: real, r: Outcome)
    requires resolution != 0.0 && Answers(Eligible(cs), target, resolution, r)
    ensures LeastOffered(cs, target, resolution, r)
  {
    forall plan ensures Allowed(Eligible(cs), plan) <==> Offered(cs, plan) {
      OfferedExactly(cs, plan);
    }
  }

  /** `optimize_dp`. With one goal and at most 30 eligible candidates it returns a choice as
      described above, or falls back because no plan reaches the rounded target. */
  method OptimizeDp(cs: seq<Candidate>, goals: seq<Goal>, resolution: real) returns (r: Outcome)
    requires resolution != 0.0 && (|goals| == 1 && |Eligible(cs)| <= 30 ==> Contributing(Eligible(cs)))
    ensures r == GreedyFallback(Unsupported) <==> |goals| != 1 || |cs| == 0
    ensures r == GreedyFallback(TooManyCandidates) <==> |goals| == 1 && |cs| > 0 && |EligibleIndices(cs)| > 30
    ensures r != GreedyFallback(NothingEligible)
    ensures r.Plan? || r == GreedyFallback(Infeasible) ==>
              && |goals| == 1 && LeastOffered(cs, goals[0].target, resolution, r)
              && Answers(Eligible(cs), goals[0].target, resolution, r)
  {
    if |goals| != 1 || |cs| == 0 {
      return GreedyFallback(Unsupported);
    }
    var eligible := Eligible(cs);
    EligibleCount(cs);
    if |eligible| > 30 {
      return GreedyFallback(TooManyCandidates);
    }
    var target := goals[0].target;
    var targetStep := CeilSteps(target / resolution);
    var maxSteps := targetStep + 1;
    var dp, sel := Fill(StepList(eligible, resolution), Losses(eligible), maxSteps);
    var j := targetStep;
    if dp[maxSteps].Some? && (dp[j].None? || dp[maxSteps].value < dp[j].value) {
      j := maxSteps;
    }
    if dp[j].None? {
      forall plan | Allowed(eligible, plan) ensures !ReachesRounded(plan, target, resolution) {
        if ReachesRounded(plan, target, resolution) { TableBounds(eligible, resolution, target, dp, plan); }
      }
      AnswersLeast(cs, target, resolution, GreedyFallback(Infeasible));
      return GreedyFallback(Infeasible);
    }
    EntryIsChoice(eligible, resolution, target, dp, sel, j);
    var selected := Pick(eligible, sel[j], |eligible|);
    var achieved := TotalGain(selected);
    r := Plan(selected, dp[j].value, achieved, achieved >= target);
    AnswersLeast(cs, target, resolution, r);
  }

  // ------------------------------------- the rounded target and the real target

  lemma CeilStepsExact(x: real, n: nat)
    ensures n >= CeilSteps(x) <==> n as real >= x
  {
    CeilExact(x, n);
  }

  /** The steps of a candidate are its gain divided by the resolution, rounded up. */
  lemma StepsOfExact(c: Candidate, resolution: real, n: nat)
    requires resolution > 0.0
    ensures n >= StepsOf(c, resolution) <==> n as real * resolution >= Gain(c)
  {
    CeilStepsExact(Gain(c) / resolution, n);
    QuotientBelow(Gain(c), resolution, n);
  }

  /** Rounding up never loses anything. */
  lemma {:induction false} StepsCover(plan: seq<Candidate>, resolution: real)
    requires resolution > 0.0
    ensures TotalSteps(plan, resolution) as real * resolution >= TotalGain(plan)
  {
    if |plan| > 0 {
      var n := |plan| - 1;
      StepsCover(plan[..n], resolution);
      StepsCoverOne(plan[n], resolution);
      Distribute(TotalSteps(plan[..n], resolution), StepsOf(plan[n], resolution), resolution);
    }
  }

  lemma StepsCoverOne(c: Candidate, resolution: real)
    requires resolution > 0.0
    ensures StepsOf(c, resolution) as real * resolution >= Gain(c)
    ensures StepsOf(c, resolution) >= 1 <==> Gain(c) > 0.0
  {
    var q := Gain(c) / resolution;
    CeilStepsExact(q, StepsOf(c, resolution));
    CeilStepsExact(q, 0);
    QuotientBelow(Gain(c), resolution, StepsOf(c, resolution));
    QuotientBelow(Gain(c), resolution, 0);
  }

  lemma QuotientBelow(x: real, d: real, n: nat)
    requires d > 0.0
    ensures n as real >= x / d <==> n as real * d >= x
  {
    var q := x / d;
    assert q * d == x;
    assert (n as real - q) * d == n as real * d - x;
  }

  lemma Distribute(a: nat, b: nat, d: real)
    ensures (a + b) as real * d == a as real * d + b as real * d
  {}

  /** A plan reaches the rounded target exactly when its gains, each rounded up, reach the
      real one. */
  lemma ReachesRoundedExact(plan: seq<Candidate>, target: real, resolution: real)
    requires resolution > 0.0
    ensures ReachesRounded(plan, target, resolution) <==> TotalSteps(plan, resolution) as real * resolution >= target
    ensures TotalGain(plan) >= target ==> ReachesRounded(plan, target, resolution)
  {
    StepsCover(plan, resolution);
    CeilStepsExact(target / resolution, TotalSteps(plan, resolution));
    QuotientBelow(target, resolution, TotalSteps(plan, resolution));
  }

  /** No allowed plan that reaches the target costs less than the one returned, which is
      therefore optimal whenever it reaches the target itself. */
  lemma NoCheaperPlan(cs: seq<Candidate>, target: real, resolution: real, plan: seq<Candidate>, other: seq<Candidate>)
    requires resolution > 0.0 && IsChoice(cs, target, resolution, plan)
    requires Allowed(cs, other) && TotalGain(other) >= target
    ensures TotalLoss(plan) <= TotalLoss(other)
  {
    ReachesRoundedExact(other, target, resolution);
  }

  /** Three candidates that gain a half, a half and two: with steps of one, the two halves
      count for two and cost less, so the plan misses a target that can be reached. */
  lemma HalvesCountAsOnes(plan: seq<Candidate>)
    requires IsChoice(Halves(), 2.0, 1.0, plan)
    ensures TotalGain(plan) < 2.0 <= TotalGain([Halves()[2]])
    ensures Allowed(Halves(), [Halves()[2]])
  {
    var cs := Halves();
    var pair := [cs[0], cs[1]];
    assert cs == pair + [cs[2]];
    TwoHalves();
    LossOfFront([], cs[2]);
    assert [] + [cs[2]] == [cs[2]];
    assert Allowed(cs, pair);
    var s := PlanTotals(cs, plan);
    SumOfThree(Losses(cs), s);
    SumOfThree(Gains(cs), s);
    assert 2 !in s;
  }

  lemma TwoHalves()
    ensures var pair := [Halves()[0], Halves()[1]]; TotalLoss(pair) == 2.0 && ReachesRounded(pair, 2.0, 1.0)
  {
    var cs := Halves();
    LossOfFront([], cs[0]);
    LossOfFront([cs[0]], cs[1]);
    StepsOfFront([], cs[0], 1.0);
    StepsOfFront([cs[0]], cs[1], 1.0);
    assert [] + [cs[0]] == [cs[0]] && [cs[0]] + [cs[1]] == [cs[0], cs[1]];
    assert Ceil(0.5) == 1 && Ceil(2.0) == 2;
  }

  lemma StepsOfFront(p: seq<Candidate>, c: Candidate, resolution: real)
    requires resolution != 0.0
    ensures TotalSteps(p + [c], resolution) == TotalSteps(p, resolution) + StepsOf(c, resolution)
  {
    assert (p + [c])[..|p|] == p;
  }

  lemma SumOfThree(w: seq<real>, s: set<nat>)
    requires |w| == 3
    ensures Sum(w, s, 3) == (if 0 in s then w[0] else 0.0) + (if 1 in s then w[1] else 0.0)
                            + if 2 in s then w[2] else 0.0
  {
    assert Sum(w, s, 1) == if 0 in s then w[0] else 0.0;
  }

  function Halves(): seq<Candidate> {
    [Candidate("a", 1.0, [0.5], false), Candidate("b", 1.0, [0.5], false), Candidate("c", 5.0, [2.0], false)]
  }

  // ------------------------------------------------ when the target is always met

  /** Every positive gain is a whole number of steps. */
  ghost predicate WholeSteps(cs: seq<Candidate>, resolution: real)
    requires resolution != 0.0
  {
    forall i | 0 <= i < |cs| :: Gain(cs[i]) > 0.0 ==> Whole(cs[i], resolution)
  }

  ghost predicate Whole(c: Candidate, resolution: real)
    requires resolution != 0.0
  {
    Gain(c) == StepsOf(c, resolution) as real * resolution
  }

  /** The same candidates with any acceptable losses. */
  ghost predicate Repriced(cs: seq<Candidate>, cs': seq<Candidate>) {
    |cs| == |cs'| && NoLosses(cs') && forall i | 0 <= i < |cs| :: Gain(cs[i]) == Gain(cs'[i])
  }

  ghost predicate AlwaysMet(cs: seq<Candidate>, resolution: real)
    requires resolution != 0.0
  {
    forall cs', target: real, plan |
      Repriced(cs, cs') && IsChoice(cs', target, resolution, plan) :: TotalGain(plan) >= target
  }

  lemma {:induction false} WholeStepsAdd(plan: seq<Candidate>, resolution: real)
    requires resolution > 0.0
    requires forall i | 0 <= i < |plan| :: Whole(plan[i], resolution)
    ensures TotalGain(plan) == TotalSteps(plan, resolution) as real * resolution
  {
    if |plan| > 0 {
      var n := |plan| - 1;
      WholeStepsAdd(plan[..n], resolution);
      assert Whole(plan[n], resolution);
      Distribute(TotalSteps(plan[..n], resolution), StepsOf(plan[n], resolution), resolution);
    }
  }

  /** Whatever the losses and the target, the plan returned reaches the target, exactly when
      the resolution is positive and every positive gain is a whole number of steps. */
  lemma AlwaysMetExactly(cs: seq<Candidate>, resolution: real)
    requires resolution != 0.0
    ensures AlwaysMet(cs, resolution) <==> resolution > 0.0 && WholeSteps(cs, resolution)
  {
    if resolution < 0.0 {
      NegativeResolution(cs, resolution);
    } else if WholeSteps(cs, resolution) {
      forall cs', target: real, plan | Repriced(cs, cs') && IsChoice(cs', target, resolution, plan)
        ensures TotalGain(plan) >= target
      {
        WholeStepsMeet(cs, cs', target, resolution, plan);
      }
    } else {
      var i :| 0 <= i < |cs| && Gain(cs[i]) > 0.0 && !Whole(cs[i], resolution);
      PartStepMisses(cs, i, resolution);
      var cs' := Cheapest(cs, i);
      assert Repriced(cs, cs');
      assert IsChoice(cs', StepsOf(cs[i], resolution) as real * resolution, resolution, [cs'[i]]);
    }
  }

  /** With a negative resolution every positive target is rounded to no step at all, so the
      empty plan will do. */
  lemma NegativeResolution(cs: seq<Candidate>, resolution: real)
    requires resolution < 0.0
    ensures !AlwaysMet(cs, resolution)
  {
    var cs' := Cheapest(cs, |cs|);
    assert Repriced(cs, cs');
    QuotientSign(1.0, resolution);
    CeilStepsExact(1.0 / resolution, 0);
    forall other | Allowed(cs', other) ensures TotalLoss([]) <= TotalLoss(other) {
      AllowedNoLosses(cs', other);
      LossNonNegative(other);
    }
    assert IsChoice(cs', 1.0, resolution, []) && TotalGain([]) == 0.0;
  }

  lemma QuotientSign(x: real, d: real)
    requires x > 0.0 && d < 0.0
    ensures x / d < 0.0
  {
    var q := x / d;
    assert q * d == x;
    assert q * (-d) == -x;
  }

  lemma WholeStepsMeet(cs: seq<Candidate>, cs': seq<Candidate>, target: real, resolution: real, plan: seq<Candidate>)
    requires resolution > 0.0 && WholeSteps(cs, resolution) && Repriced(cs, cs')
    requires IsChoice(cs', target, resolution, plan)
    ensures TotalGain(plan) >= target
  {
    forall k | 0 <= k < |plan| ensures Whole(plan[k], resolution) {
      MemberWhole(cs, cs', resolution, plan, k);
    }
    WholeStepsAdd(plan, resolution);
    ReachesRoundedExact(plan, target, resolution);
  }

  lemma MemberWhole(cs: seq<Candidate>, cs': seq<Candidate>, resolution: real, plan: seq<Candidate>, k: nat)
    requires resolution > 0.0 && WholeSteps(cs, resolution) && Repriced(cs, cs')
    requires Allowed(cs', plan) && k < |plan| && StepsOf(plan[k], resolution) >= 1
    ensures Whole(plan[k], resolution)
  {
    assert plan[k] in multiset(plan);
    assert plan[k] in multiset(cs');
    var i :| 0 <= i < |cs'| && cs'[i] == plan[k];
    StepsCoverOne(plan[k], resolution);
    SameGainSameSteps(cs[i], plan[k], resolution);
  }

  lemma SameGainSameSteps(c: Candidate, c': Candidate, resolution: real)
    requires resolution != 0.0 && Gain(c) == Gain(c')
    ensures Whole(c, resolution) <==> Whole(c', resolution)
  {}

  /** Candidate i costs nothing and every other costs one. */
  function Cheapest(cs: seq<Candidate>, i: nat): seq<Candidate> {
    seq(|cs|, k requires 0 <= k < |cs| => cs[k].(expectedLoss := if k == i then 0.0 else 1.0))
  }

  lemma PartStepMisses(cs: seq<Candidate>, i: nat, resolution: real)
    requires i < |cs| && resolution > 0.0
    requires Gain(cs[i]) > 0.0 && !Whole(cs[i], resolution)
    ensures var target, c := StepsOf(cs[i], resolution) as real * resolution, Cheapest(cs, i)[i];
            IsChoice(Cheapest(cs, i), target, resolution, [c]) && TotalGain([c]) < target
  {
    var cs' := Cheapest(cs, i);
    var c, target := cs'[i], StepsOf(cs[i], resolution) as real * resolution;
    assert Gain(c) == Gain(cs[i]);
    assert c in multiset(cs');
    StepsCoverOne(c, resolution);
    ReachesRoundedExact([c], target, resolution);
    StepsOfFront([], c, resolution);
    LossOfFront([], c);
    assert [] + [c] == [c];
    forall other | Allowed(cs', other) && ReachesRounded(other, target, resolution)
      ensures TotalLoss([c]) <= TotalLoss(other)
    {
      AllowedNoLosses(cs', other);
      LossNonNegative(other);
    }
  }

  lemma AllowedNoLosses(cs: seq<Candidate>, plan: seq<Candidate>)
    requires NoLosses(cs) && Allowed(cs, plan)
    ensures NoLosses(plan)
  {
    forall k | 0 <= k < |plan| ensures plan[k].expectedLoss >= 0.0 {
      assert plan[k] in multiset(plan);
      assert plan[k] in multiset(cs);
    }
  }
}
