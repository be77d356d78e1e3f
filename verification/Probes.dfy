/** Overlap-aware probe selection (pt-core/src/decision/submodular.rs), over the reals. */
module Probes {
  import opened Wrappers
  import opened Totals

  /** `ProbeProfile`. */
  datatype Probe = Probe(kind: string, cost: real, features: seq<string>)

  type Weights = map<string, real>

  /** An unknown feature weighs one, a negative weight counts as zero. */
  function Weight(w: Weights, f: string): (r: real)
    ensures r >= 0.0
  {
    var x := if f in w then w[f] else 1.0;
    if x < 0.0 then 0.0 else x
  }

  function FeatureSet(fs: seq<string>): set<string> { set f | f in fs }

  function Covered(ps: seq<Probe>): set<string> {
    if |ps| == 0 then {} else Covered(ps[..|ps| - 1]) + FeatureSet(ps[|ps| - 1].features)
  }

  /** The weight of a set of features. */
  ghost function Worth(w: Weights, s: set<string>): real {
    if s == {} then 0.0
    else
      var f :| f in s;
      Worth(w, s - {f}) + Weight(w, f)
  }

  /** `coverage_marginal_gain`: a repeated feature counts each time. */
  function MarginalGain(w: Weights, covered: set<string>, fs: seq<string>): (r: real)
    ensures r >= 0.0
  {
    if |fs| == 0 then 0.0
    else
      var last := fs[|fs| - 1];
      MarginalGain(w, covered, fs[..|fs| - 1]) + if last in covered then 0.0 else Weight(w, last)
  }

  // ------------------------------------------------------------ worth and gain

  lemma {:induction false} WorthWithout(w: Weights, s: set<string>, f: string)
    requires f in s
    ensures Worth(w, s) == Worth(w, s - {f}) + Weight(w, f)
  {
    var g :| g in s && Worth(w, s) == Worth(w, s - {g}) + Weight(w, g);
    if g != f {
      WorthWithout(w, s - {g}, f);
      WorthWithout(w, s - {f}, g);
      assert s - {g} - {f} == s - {f} - {g};
    }
  }

  lemma WorthWith(w: Weights, s: set<string>, f: string)
    ensures Worth(w, s + {f}) == Worth(w, s) + if f in s then 0.0 else Weight(w, f)
  {
    if f in s {
      assert s + {f} == s;
    } else {
      WorthWithout(w, s + {f}, f);
      assert s + {f} - {f} == s;
    }
  }

  lemma {:induction false} WorthMonotone(w: Weights, s: set<string>, t: set<string>)
    requires s <= t
    ensures Worth(w, s) <= Worth(w, t)
    decreases |t|
  {
    if s != t {
      var f :| f in t && f !in s;
      WorthWithout(w, t, f);
      WorthMonotone(w, s, t - {f});
    }
  }

  lemma WorthPositive(w: Weights, s: set<string>)
    ensures Worth(w, s) >= 0.0
  {
    WorthMonotone(w, {}, s);
  }

  /** One feature more is worth its weight when it is listed and not negative, nothing when it
      is listed and negative, and one when it is not listed. */
  lemma OneFeatureMore(w: Weights, s: set<string>, f: string)
    requires f !in s
    ensures Worth(w, s + {f}) - Worth(w, s) == if f !in w then 1.0 else if w[f] >= 0.0 then w[f] else 0.0
  {
    WorthWith(w, s, f);
  }

  /** Without weights every feature counts one. */
  lemma {:induction false} WorthWithoutWeights(s: set<string>)
    ensures Worth(map[], s) == |s| as real
    decreases |s|
  {
    if s != {} {
      var f :| f in s;
      WorthWithout(map[], s, f);
      WorthWithoutWeights(s - {f});
    }
  }

  /** Covered is what some probe lists. */
  lemma {:induction false} CoveredExactly(ps: seq<Probe>, f: string)
    ensures f in Covered(ps) <==> exists i | 0 <= i < |ps| :: f in ps[i].features
  {
    if |ps| > 0 {
      var front, last := ps[..|ps| - 1], ps[|ps| - 1];
      CoveredExactly(front, f);
      assert f in Covered(ps) <==> f in Covered(front) || f in last.features;
      if i :| 0 <= i < |ps| && f in ps[i].features { assert i < |front| ==> f in front[i].features; }
      if i :| 0 <= i < |front| && f in front[i].features { assert f in ps[i].features; }
    }
  }

  /** The gain of one listed feature, after those listed before it. */
  lemma GainOfOneMore(w: Weights, covered: set<string>, fs: seq<string>, f: string)
    ensures MarginalGain(w, covered, fs + [f]) - MarginalGain(w, covered, fs)
         == if f in covered then 0.0 else if f !in w then 1.0 else if w[f] >= 0.0 then w[f] else 0.0
    ensures MarginalGain(w, covered, []) == 0.0
  {
    assert (fs + [f])[..|fs|] == fs;
  }

  ghost predicate NoRepeats(fs: seq<string>) {
    forall i, j | 0 <= i < j < |fs| :: fs[i] != fs[j]
  }

  lemma FeaturesAfter(fs: seq<string>)
    requires |fs| > 0
    ensures FeatureSet(fs) == FeatureSet(fs[..|fs| - 1]) + {fs[|fs| - 1]}
    ensures NoRepeats(fs) ==> fs[|fs| - 1] !in FeatureSet(fs[..|fs| - 1])
  {
    assert fs == fs[..|fs| - 1] + [fs[|fs| - 1]];
  }

  /** The gain computed is never below the true increase, and is the true increase when no
      feature is listed twice. */
  lemma {:induction false} GainBounds(w: Weights, covered: set<string>, fs: seq<string>)
    ensures Worth(w, covered + FeatureSet(fs)) <= Worth(w, covered) + MarginalGain(w, covered, fs)
    ensures NoRepeats(fs) ==>
              Worth(w, covered + FeatureSet(fs)) == Worth(w, covered) + MarginalGain(w, covered, fs)
  {
    if |fs| == 0 {
      assert covered + FeatureSet(fs) == covered;
    } else {
      var front, last := fs[..|fs| - 1], fs[|fs| - 1];
      GainBounds(w, covered, front);
      FeaturesAfter(fs);
      WorthWith(w, covered + FeatureSet(front), last);
      assert covered + FeatureSet(fs) == covered + FeatureSet(front) + {last};
    }
  }

  /** Diminishing returns: what more is covered already, the less a probe adds. */
  lemma {:induction false} DiminishingReturns(w: Weights, covered: set<string>, more: set<string>, fs: seq<string>)
    requires covered <= more
    ensures MarginalGain(w, more, fs) <= MarginalGain(w, covered, fs)
  {
    if |fs| > 0 { DiminishingReturns(w, covered, more, fs[..|fs| - 1]); }
  }

  lemma {:induction false} NothingNew(w: Weights, covered: set<string>, fs: seq<string>)
    requires FeatureSet(fs) <= covered
    ensures MarginalGain(w, covered, fs) == 0.0
  {
    if |fs| > 0 {
      FeaturesAfter(fs);
      NothingNew(w, covered, fs[..|fs| - 1]);
    }
  }

  lemma GainOver(w: Weights, covered: set<string>, more: set<string>, fs: seq<string>)
    requires covered <= more
    ensures Worth(w, more + FeatureSet(fs)) <= Worth(w, more) + MarginalGain(w, covered, fs)
  {
    GainBounds(w, more, fs);
    DiminishingReturns(w, covered, more, fs);
  }

  function Times(n: nat, g: real): real { if n == 0 then 0.0 else Times(n - 1, g) + g }

  /** Probes that each gain at most g add at most g apiece to what is covered. */
  lemma {:induction false} GainsAdd(w: Weights, covered: set<string>, ps: seq<Probe>, g: real)
    requires forall i | 0 <= i < |ps| :: MarginalGain(w, covered, ps[i].features) <= g
    ensures Worth(w, covered + Covered(ps)) <= Worth(w, covered) + Times(|ps|, g)
  {
    if |ps| == 0 {
      assert covered + Covered(ps) == covered;
    } else {
      var front, fs := ps[..|ps| - 1], ps[|ps| - 1].features;
      GainsAdd(w, covered, front, g);
      GainOver(w, covered, covered + Covered(front), fs);
      assert covered + Covered(ps) == covered + Covered(front) + FeatureSet(fs);
    }
  }

  lemma FeaturesUpTo(fs: seq<string>, j: nat)
    requires j < |fs|
    ensures FeatureSet(fs[..j + 1]) == FeatureSet(fs[..j]) + {fs[j]}
  {
    FeaturesAfter(fs[..j + 1]);
    assert fs[..j + 1][..j] == fs[..j];
  }

  lemma CoveredUpTo(ps: seq<Probe>, i: nat)
    requires i < |ps|
    ensures Covered(ps[..i + 1]) == Covered(ps[..i]) + FeatureSet(ps[i].features)
  {
    assert ps[..i + 1][..i] == ps[..i];
  }

  /** `coverage_utility`: each feature counts once, however often it occurs. */
  method CoverageUtility(probes: seq<Probe>, w: Weights) returns (total: real)
    ensures total == Worth(w, Covered(probes))
  {
    var seen: set<string> := {};
    total := 0.0;
    var i := 0;
    while i < |probes|
      invariant 0 <= i <= |probes|
      invariant seen == Covered(probes[..i]) && total == Worth(w, seen)
    {
      var fs := probes[i].features;
      ghost var before := seen;
      assert before + FeatureSet(fs[..0]) == before;
      var j := 0;
      while j < |fs|
        invariant 0 <= j <= |fs|
        invariant seen == before + FeatureSet(fs[..j]) && total == Worth(w, seen)
      {
        FeaturesUpTo(fs, j);
        WorthWith(w, seen, fs[j]);
        if fs[j] !in seen {
          seen := seen + {fs[j]};
          total := total + Weight(w, fs[j]);
        }
        j := j + 1;
      }
      assert fs[..|fs|] == fs;
      CoveredUpTo(probes, i);
      i := i + 1;
    }
    assert probes[..|probes|] == probes;
  }

  /** `coverage_marginal_gain`. */
  method CoverageMarginalGain(covered: set<string>, probe: Probe, w: Weights) returns (gain: real)
    ensures gain == MarginalGain(w, covered, probe.features)
  {
    var fs := probe.features;
    gain := 0.0;
    var i := 0;
    while i < |fs|
      invariant 0 <= i <= |fs| && gain == MarginalGain(w, covered, fs[..i])
    {
      assert fs[..i + 1][..i] == fs[..i];
      if fs[i] !in covered {
        gain := gain + Weight(w, fs[i]);
      }
      i := i + 1;
    }
    assert fs[..|fs|] == fs;
  }

  // ------------------------------------------------------------ greedy rounds

  /** By the gain alone, or by the gain per unit of cost within a budget. */
  datatype Rule = ByGain | ByRatio(budget: real)

  datatype Score = Finite(value: real) | Infinite

  predicate Above(x: Score, y: Score) {
    y.Finite? && (x.Infinite? || x.value > y.value)
  }

  predicate Indices(sel: seq<nat>, n: nat) { forall i | 0 <= i < |sel| :: sel[i] < n }

  function At(probes: seq<Probe>, sel: seq<nat>): seq<Probe>
    requires Indices(sel, |probes|)
  {
    seq(|sel|, i requires 0 <= i < |sel| => probes[sel[i]])
  }

  function Cost(p: Probe): real { p.cost }

  function TotalCost(ps: seq<Probe>): real { Total(ps, Cost) }

  /** The gains counted when the probes are taken in this order. */
  function Gathered(w: Weights, ps: seq<Probe>): real {
    if |ps| == 0 then 0.0
    else
      var front := ps[..|ps| - 1];
      Gathered(w, front) + MarginalGain(w, Covered(front), ps[|ps| - 1].features)
  }

  function GainAt(w: Weights, probes: seq<Probe>, sel: seq<nat>, i: nat): (g: real)
    requires Indices(sel, |probes|) && i < |probes|
    ensures g >= 0.0
  {
    MarginalGain(w, Covered(At(probes, sel)), probes[i].features)
  }

  function ScoreOf(rule: Rule, gain: real, cost: real): Score {
    if rule.ByGain? then Finite(gain) else if cost > 0.0 then Finite(gain / cost) else Infinite
  }

  function ScoreAt(rule: Rule, w: Weights, probes: seq<Probe>, sel: seq<nat>, i: nat): Score
    requires Indices(sel, |probes|) && i < |probes|
  {
    ScoreOf(rule, GainAt(w, probes, sel, i), probes[i].cost)
  }

  /** The probe can be taken next: it fits and gains something. */
  predicate Open(rule: Rule, w: Weights, probes: seq<Probe>, sel: seq<nat>, i: nat)
    requires Indices(sel, |probes|) && i < |probes|
  {
    && (rule.ByRatio? ==> TotalCost(At(probes, sel)) + probes[i].cost <= rule.budget)
    && GainAt(w, probes, sel, i) > 0.0
  }

  /** The next choice: the first of the open probes with the highest score. */
  ghost predicate Chosen(rule: Rule, w: Weights, probes: seq<Probe>, sel: seq<nat>, i: nat) {
    && Indices(sel, |probes|) && i < |probes| && i !in sel && Open(rule, w, probes, sel, i)
    && forall j | 0 <= j < |probes| && j !in sel && Open(rule, w, probes, sel, j) ::
         && !Above(ScoreAt(rule, w, probes, sel, j), ScoreAt(rule, w, probes, sel, i))
         && (j < i ==> Above(ScoreAt(rule, w, probes, sel, i), ScoreAt(rule, w, probes, sel, j)))
  }

  ghost predicate Ended(rule: Rule, w: Weights, probes: seq<Probe>, sel: seq<nat>)
    requires Indices(sel, |probes|)
  {
    forall i | 0 <= i < |probes| && i !in sel :: !Open(rule, w, probes, sel, i)
  }

  ghost predicate Steps(rule: Rule, w: Weights, probes: seq<Probe>, sel: seq<nat>)
    decreases |sel|
  {
    |sel| > 0 ==>
      && Steps(rule, w, probes, sel[..|sel| - 1])
      && Chosen(rule, w, probes, sel[..|sel| - 1], sel[|sel| - 1])
  }

  /** A run of at most k rounds, the last of which leaves no choice when there are fewer. */
  ghost predicate IsGreedy(rule: Rule, w: Weights, probes: seq<Probe>, k: nat, sel: seq<nat>) {
    && Indices(sel, |probes|) && Steps(rule, w, probes, sel) && |sel| <= k
    && (|sel| == k || Ended(rule, w, probes, sel))
  }

  lemma AtAfter(probes: seq<Probe>, sel: seq<nat>, i: nat)
    requires Indices(sel, |probes|) && i < |probes|
    ensures At(probes, sel + [i]) == At(probes, sel) + [probes[i]]
  {}

  lemma GatheredAfter(w: Weights, ps: seq<Probe>, p: Probe)
    ensures Gathered(w, ps + [p]) == Gathered(w, ps) + MarginalGain(w, Covered(ps), p.features)
    ensures Covered(ps + [p]) == Covered(ps) + FeatureSet(p.features)
  {
    assert (ps + [p])[..|ps|] == ps;
  }

  /** A run that goes on until no probe is open. */
  ghost predicate IsComplete(rule: Rule, w: Weights, probes: seq<Probe>, sel: seq<nat>) {
    Indices(sel, |probes|) && Steps(rule, w, probes, sel) && Ended(rule, w, probes, sel)
  }

  // ------------------------------------------------------------ the two methods

  /** `retain`: the list without an index. */
  function Retained(rem: seq<nat>, idx: nat): seq<nat> {
    if |rem| == 0 then []
    else
      var front, last := Retained(rem[..|rem| - 1], idx), rem[|rem| - 1];
      if last == idx then front else front + [last]
  }

  /** The remaining indices are those not selected, in order. */
  ghost predicate Rest(rem: seq<nat>, sel: seq<nat>, n: nat) {
    (forall i: nat :: i in rem <==> i < n && i !in sel) && forall i, j | 0 <= i < j < |rem| :: rem[i] < rem[j]
  }

  function Upto(n: nat): seq<nat> { seq(n, i => i) }

  lemma UptoRest(n: nat)
    ensures Rest(Upto(n), [], n)
  {
    forall i: nat ensures i in Upto(n) <==> i < n {
      if i < n { assert Upto(n)[i] == i; }
    }
  }

  lemma {:induction false} RetainedExact(rem: seq<nat>, idx: nat)
    ensures |Retained(rem, idx)| <= |rem|
    ensures idx in rem ==> |Retained(rem, idx)| < |rem|
    ensures forall i :: i in Retained(rem, idx) <==> i in rem && i != idx
  {
    if |rem| > 0 {
      RetainedExact(rem[..|rem| - 1], idx);
      assert forall i :: i in rem <==> i in rem[..|rem| - 1] || i == rem[|rem| - 1];
    }
  }

  lemma {:induction false} RetainedInOrder(rem: seq<nat>, idx: nat)
    requires forall i, j | 0 <= i < j < |rem| :: rem[i] < rem[j]
    ensures var r := Retained(rem, idx); forall i, j | 0 <= i < j < |r| :: r[i] < r[j]
  {
    if |rem| > 0 {
      var front, last := rem[..|rem| - 1], rem[|rem| - 1];
      RetainedInOrder(front, idx);
      RetainedExact(front, idx);
      forall i | 0 <= i < |Retained(front, idx)| ensures Retained(front, idx)[i] < last {
        assert Retained(front, idx)[i] in front;
      }
    }
  }

  lemma RestAfter(rem: seq<nat>, sel: seq<nat>, n: nat, idx: nat)
    requires Rest(rem, sel, n)
    ensures Rest(Retained(rem, idx), sel + [idx], n)
  {
    RetainedExact(rem, idx);
    RetainedInOrder(rem, idx);
  }

  /** The greedy loops' variables, in terms of what is selected. */
  ghost predicate Tracked(w: Weights, probes: seq<Probe>, sel: seq<nat>, covered: set<string>,
                          totalCost: real, totalUtility: real)
  {
    && Indices(sel, |probes|) && covered == Covered(At(probes, sel))
    && totalCost == TotalCost(At(probes, sel)) && totalUtility == Gathered(w, At(probes, sel))
  }

  lemma PositiveScore(rule: Rule, gain: real, cost: real)
    requires gain > 0.0
    ensures Above(ScoreOf(rule, gain, cost), Finite(0.0))
  {
    if rule.ByRatio? && cost > 0.0 {
      var q := gain / cost;
      assert q * cost == gain;
    }
  }

  /** Among the probes seen, the best is the first open one with the highest score. */
  ghost predicate Leads(rule: Rule, w: Weights, probes: seq<Probe>, sel: seq<nat>, seen: seq<nat>,
                        best: Option<nat>, bestScore: Score)
    requires Indices(sel, |probes|)
  {
    match best
    case None => bestScore == Finite(0.0) && forall j | j in seen :: j < |probes| && !Open(rule, w, probes, sel, j)
    case Some(b) =>
      && b in seen && b < |probes| && Open(rule, w, probes, sel, b) && bestScore == ScoreAt(rule, w, probes, sel, b)
      && forall j | j in seen :: j < |probes| && (Open(rule, w, probes, sel, j) ==>
           && !Above(ScoreAt(rule, w, probes, sel, j), bestScore)
           && (j < b ==> Above(bestScore, ScoreAt(rule, w, probes, sel, j))))
  }

  lemma LeadsAfter(rule: Rule, w: Weights, probes: seq<Probe>, sel: seq<nat>, seen: seq<nat>,
                   best: Option<nat>, bestScore: Score, idx: nat)
    requires Indices(sel, |probes|) && Leads(rule, w, probes, sel, seen, best, bestScore)
    requires idx < |probes| && forall j | j in seen :: j < idx
    ensures var score := ScoreAt(rule, w, probes, sel, idx);
            if Open(rule, w, probes, sel, idx) && Above(score, bestScore)
            then Leads(rule, w, probes, sel, seen + [idx], Some(idx), score)
            else Leads(rule, w, probes, sel, seen + [idx], best, bestScore)
  {
    if Open(rule, w, probes, sel, idx) {
      PositiveScore(rule, GainAt(w, probes, sel, idx), probes[idx].cost);
    }
  }

  /** One scan over the remaining probes. */
  method Scan(rule: Rule, probes: seq<Probe>, w: Weights, ghost sel: seq<nat>,
              covered: set<string>, totalCost: real, ghost totalUtility: real, remaining: seq<nat>)
    returns (best: Option<nat>, bestGain: real)
    requires Tracked(w, probes, sel, covered, totalCost, totalUtility) && Rest(remaining, sel, |probes|)
    ensures best.None? ==> Ended(rule, w, probes, sel)
    ensures best.Some? ==> Chosen(rule, w, probes, sel, best.value) && bestGain == GainAt(w, probes, sel, best.value)
  {
    best, bestGain := None, 0.0;
    var bestScore := Finite(0.0);
    var i := 0;
    while i < |remaining|
      invariant 0 <= i <= |remaining|
      invariant Leads(rule, w, probes, sel, remaining[..i], best, bestScore)
      invariant best.Some? ==> best.value < |probes| && bestGain == GainAt(w, probes, sel, best.value)
    {
      var idx := remaining[i];
      assert idx in remaining;
      assert remaining[..i + 1] == remaining[..i] + [idx];
      LeadsAfter(rule, w, probes, sel, remaining[..i], best, bestScore, idx);
      var probe := probes[idx];
      if !(rule.ByRatio? && totalCost + probe.cost > rule.budget) {
        var gain := CoverageMarginalGain(covered, probe, w);
        if gain > 0.0 {
          var score := ScoreOf(rule, gain, probe.cost);
          if Above(score, bestScore) {
            best, bestGain, bestScore := Some(idx), gain, score;
          }
        }
      }
      i := i + 1;
    }
    assert remaining[..|remaining|] == remaining;
  }

  /** What taking a probe changes. */
  lemma Take(w: Weights, probes: seq<Probe>, sel: seq<nat>, covered: set<string>,
             totalCost: real, totalUtility: real, idx: nat)
    requires Tracked(w, probes, sel, covered, totalCost, totalUtility) && idx < |probes|
    ensures Tracked(w, probes, sel + [idx], covered + FeatureSet(probes[idx].features),
                    totalCost + probes[idx].cost, totalUtility + GainAt(w, probes, sel, idx))
  {
    AtAfter(probes, sel, idx);
    GatheredAfter(w, At(probes, sel), probes[idx]);
    TotalAfter(At(probes, sel), probes[idx], Cost);
  }

  lemma StepsAfter(rule: Rule, w: Weights, probes: seq<Probe>, sel: seq<nat>, idx: nat)
    requires Steps(rule, w, probes, sel) && Chosen(rule, w, probes, sel, idx)
    ensures Steps(rule, w, probes, sel + [idx])
  {
    assert (sel + [idx])[..|sel|] == sel;
  }

  /** `greedy_select_k`. */
  method GreedySelectK(probes: seq<Probe>, w: Weights, k: nat)
    returns (sel: seq<nat>, totalCost: real, totalUtility: real)
    ensures IsGreedy(ByGain, w, probes, k, sel)
    ensures totalCost == TotalCost(At(probes, sel)) && totalUtility == Gathered(w, At(probes, sel))
  {
    sel, totalCost, totalUtility := [], 0.0, 0.0;
    var covered: set<string> := {};
    var remaining := Upto(|probes|);
    UptoRest(|probes|);
    assert At(probes, []) == [];
    var round := 0;
    while round < k
      invariant 0 <= round <= k && |sel| == round
      invariant Tracked(w, probes, sel, covered, totalCost, totalUtility) && Rest(remaining, sel, |probes|)
      invariant Steps(ByGain, w, probes, sel)
    {
      var best, bestGain := Scan(ByGain, probes, w, sel, covered, totalCost, totalUtility, remaining);
      if best.None? {
        return;
      }
      var idx := best.value;
      Take(w, probes, sel, covered, totalCost, totalUtility, idx);
      StepsAfter(ByGain, w, probes, sel, idx);
      RestAfter(remaining, sel, |probes|, idx);
      covered := covered + FeatureSet(probes[idx].features);
      totalCost := totalCost + probes[idx].cost;
      totalUtility := totalUtility + bestGain;
      sel := sel + [idx];
      remaining := Retained(remaining, idx);
      round := round + 1;
      if |remaining| == 0 {
        return;
      }
    }
  }

  /** `greedy_select_with_budget`. */
  method GreedySelectWithBudget(probes: seq<Probe>, w: Weights, budget: real)
    returns (sel: seq<nat>, totalCost: real, totalUtility: real)
    ensures IsComplete(ByRatio(budget), w, probes, sel)
    ensures totalCost == TotalCost(At(probes, sel)) && totalUtility == Gathered(w, At(probes, sel))
  {
    var rule := ByRatio(budget);
    sel, totalCost, totalUtility := [], 0.0, 0.0;
    var covered: set<string> := {};
    var remaining := Upto(|probes|);
    UptoRest(|probes|);
    assert At(probes, []) == [];
    while true
      invariant Tracked(w, probes, sel, covered, totalCost, totalUtility) && Rest(remaining, sel, |probes|)
      invariant Steps(rule, w, probes, sel)
      decreases |remaining|
    {
      var best, bestGain := Scan(rule, probes, w, sel, covered, totalCost, totalUtility, remaining);
      if best.None? {
        return;
      }
      var idx := best.value;
      Take(w, probes, sel, covered, totalCost, totalUtility, idx);
      StepsAfter(rule, w, probes, sel, idx);
      RestAfter(remaining, sel, |probes|, idx);
      RetainedExact(remaining, idx);
      covered := covered + FeatureSet(probes[idx].features);
      totalCost := totalCost + probes[idx].cost;
      totalUtility := totalUtility + bestGain;
      sel := sel + [idx];
      remaining := Retained(remaining, idx);
      if |remaining| == 0 {
        return;
      }
    }
  }

  // ------------------------------------------------------------ the guarantee

  ghost predicate AllPlain(probes: seq<Probe>) { forall i | 0 <= i < |probes| :: NoRepeats(probes[i].features) }

  /** Without repeated features the utility reported is the coverage of what is selected. */
  lemma {:induction false} GatheredIsCoverage(w: Weights, ps: seq<Probe>)
    requires AllPlain(ps)
    ensures Gathered(w, ps) == Worth(w, Covered(ps))
  {
    if |ps| > 0 {
      GatheredIsCoverage(w, ps[..|ps| - 1]);
      GainBounds(w, Covered(ps[..|ps| - 1]), ps[|ps| - 1].features);
    }
  }

  lemma {:induction false} CoveredByMember(ps: seq<Probe>, i: nat)
    requires i < |ps|
    ensures FeatureSet(ps[i].features) <= Covered(ps)
  {
    if i < |ps| - 1 { CoveredByMember(ps[..|ps| - 1], i); }
  }

  /** When nothing selectable gains more than g, no k probes cover more than k times g beyond
      what is covered. */
  lemma ReachOfAny(w: Weights, probes: seq<Probe>, sel: seq<nat>, g: real, others: seq<nat>)
    requires Indices(sel, |probes|) && Indices(others, |probes|) && g >= 0.0
    requires forall i | 0 <= i < |probes| && i !in sel :: GainAt(w, probes, sel, i) <= g
    ensures Worth(w, Covered(At(probes, others))) <= Worth(w, Covered(At(probes, sel))) + Times(|others|, g)
  {
    var c, ps := Covered(At(probes, sel)), At(probes, others);
    forall i | 0 <= i < |ps| ensures MarginalGain(w, c, ps[i].features) <= g {
      if others[i] in sel {
        var k :| 0 <= k < |sel| && sel[k] == others[i];
        CoveredByMember(At(probes, sel), k);
        NothingNew(w, c, ps[i].features);
      } else {
        assert GainAt(w, probes, sel, others[i]) <= g;
      }
    }
    GainsAdd(w, c, ps, g);
    WorthMonotone(w, Covered(ps), c + Covered(ps));
  }

  lemma {:induction false} TimesGrows(n: nat, k: nat, g: real)
    requires n <= k && g >= 0.0
    ensures Times(n, g) <= Times(k, g)
  {
    if n < k { TimesGrows(n, k - 1, g); }
  }

  lemma {:induction false} TimesIsProduct(n: nat, g: real)
    ensures Times(n, g) == n as real * g
  {
    if n > 0 {
      TimesIsProduct(n - 1, g);
      assert n as real * g == (n - 1) as real * g + g;
    }
  }

  lemma {:induction false} TimesZero(n: nat)
    ensures Times(n, 0.0) == 0.0
  {
    if n > 0 { TimesZero(n - 1); }
  }

  function Power(x: real, n: nat): real { if n == 0 then 1.0 else x * Power(x, n - 1) }

  /** What is still missing to the coverage of the others. */
  ghost function Missing(w: Weights, probes: seq<Probe>, sel: seq<nat>, others: seq<nat>): real
    requires Indices(sel, |probes|) && Indices(others, |probes|)
  {
    Worth(w, Covered(At(probes, others))) - Worth(w, Covered(At(probes, sel)))
  }

  lemma TopGain(w: Weights, probes: seq<Probe>, sel: seq<nat>, i: nat, j: nat)
    requires Chosen(ByGain, w, probes, sel, i) && j < |probes| && j !in sel
    ensures GainAt(w, probes, sel, j) <= GainAt(w, probes, sel, i)
  {
    if Open(ByGain, w, probes, sel, j) {
      assert !Above(ScoreAt(ByGain, w, probes, sel, j), ScoreAt(ByGain, w, probes, sel, i));
    }
  }

  /** One round closes the gap to any k probes by at least a k-th. */
  lemma RoundCloses(w: Weights, probes: seq<Probe>, sel: seq<nat>, i: nat, k: nat, others: seq<nat>)
    requires Chosen(ByGain, w, probes, sel, i) && NoRepeats(probes[i].features)
    requires Indices(others, |probes|) && |others| <= k
    ensures Missing(w, probes, sel, others) <= Times(k, GainAt(w, probes, sel, i))
    ensures Missing(w, probes, sel + [i], others) == Missing(w, probes, sel, others) - GainAt(w, probes, sel, i)
  {
    var g := GainAt(w, probes, sel, i);
    forall j | 0 <= j < |probes| && j !in sel ensures GainAt(w, probes, sel, j) <= g {
      TopGain(w, probes, sel, i, j);
    }
    ReachOfAny(w, probes, sel, g, others);
    TimesGrows(|others|, k, g);
    WorthAfter(w, probes, sel, i);
  }

  lemma WorthAfter(w: Weights, probes: seq<Probe>, sel: seq<nat>, i: nat)
    requires Indices(sel, |probes|) && i < |probes| && NoRepeats(probes[i].features)
    ensures Worth(w, Covered(At(probes, sel + [i]))) == Worth(w, Covered(At(probes, sel))) + GainAt(w, probes, sel, i)
  {
    AtAfter(probes, sel, i);
    GatheredAfter(w, At(probes, sel), probes[i]);
    GainBounds(w, Covered(At(probes, sel)), probes[i].features);
  }

  /** (1 - 1/k)^r of an amount. */
  function Left(k: nat, r: nat, amount: real): real
    requires k >= 1
  {
    Power(1.0 - 1.0 / k as real, r) * amount
  }

  /** The share of the best that k rounds can miss. */
  function Lost(k: nat): real
    requires k >= 1
  {
    Power(1.0 - 1.0 / k as real, k)
  }

  /** 1 - (1 - 1/k)^k of an amount. */
  function Guaranteed(k: nat, amount: real): real
    requires k >= 1
  {
    (1.0 - Lost(k)) * amount
  }

  lemma LeftAfter(k: nat, r: nat, amount: real, gap: real, g: real)
    requires k >= 1 && gap <= Left(k, r, amount) && gap <= Times(k, g)
    ensures gap - g <= Left(k, r + 1, amount)
  {
    TimesIsProduct(k, g);
    PowerCloses(gap, g, Power(1.0 - 1.0 / k as real, r), amount, k as real);
  }

  lemma PowerCloses(gap: real, g: real, p: real, amount: real, k: real)
    requires k >= 1.0 && gap <= k * g && gap <= p * amount
    ensures gap - g <= (1.0 - 1.0 / k) * p * amount
  {
    var q := 1.0 / k;
    assert q * k == 1.0;
    QuotientAtMostOne(k, q);
    assert q * (k * g) == g;
    assert q * (k * g - gap) >= 0.0;
    assert (1.0 - q) * (p * amount - gap) >= 0.0;
    assert (1.0 - q) * p * amount == (1.0 - q) * (p * amount);
  }

  lemma {:induction false} PowerPositive(x: real, n: nat)
    requires x >= 0.0
    ensures Power(x, n) >= 0.0
  {
    if n > 0 { PowerPositive(x, n - 1); }
  }

  lemma LeftPositive(k: nat, r: nat, amount: real)
    requires k >= 1 && amount >= 0.0
    ensures Left(k, r, amount) >= 0.0
  {
    var q := 1.0 / k as real;
    assert q * k as real == 1.0;
    QuotientAtMostOne(k as real, q);
    PowerPositive(1.0 - q, r);
  }

  /** After r rounds the gap to any k probes is at most (1 - 1/k)^r of their coverage. */
  lemma {:induction false} GapAfter(w: Weights, probes: seq<Probe>, sel: seq<nat>, k: nat, others: seq<nat>)
    requires AllPlain(probes) && Indices(sel, |probes|) && Steps(ByGain, w, probes, sel)
    requires Indices(others, |probes|) && |others| <= k && k >= 1
    ensures Missing(w, probes, sel, others) <= Left(k, |sel|, Worth(w, Covered(At(probes, others))))
    decreases |sel|
  {
    if |sel| == 0 {
      assert Worth(w, Covered(At(probes, sel))) == 0.0;
    } else {
      var front, last := sel[..|sel| - 1], sel[|sel| - 1];
      GapAfter(w, probes, front, k, others);
      RoundCloses(w, probes, front, last, k, others);
      assert sel == front + [last];
      LeftAfter(k, |front|, Worth(w, Covered(At(probes, others))), Missing(w, probes, front, others),
                GainAt(w, probes, front, last));
    }
  }

  lemma QuotientAtMostOne(k: real, q: real)
    requires k >= 1.0 && q * k == 1.0
    ensures 0.0 < q <= 1.0
  {
    assert q > 0.0;
    assert q * (k - 1.0) >= 0.0;
  }

  /** The guarantee of greedy selection by gain: without repeated features it covers at least
      1 - (1 - 1/k)^k of what any k probes cover. */
  lemma GreedyGuarantee(w: Weights, probes: seq<Probe>, k: nat, sel: seq<nat>, others: seq<nat>)
    requires AllPlain(probes) && IsGreedy(ByGain, w, probes, k, sel)
    requires Indices(others, |probes|) && |others| <= k && k >= 1
    ensures Worth(w, Covered(At(probes, sel))) >= Guaranteed(k, Worth(w, Covered(At(probes, others))))
  {
    GapAtEnd(w, probes, k, sel, others);
    Complement(k, Worth(w, Covered(At(probes, others))), Worth(w, Covered(At(probes, sel))));
  }

  lemma GapAtEnd(w: Weights, probes: seq<Probe>, k: nat, sel: seq<nat>, others: seq<nat>)
    requires AllPlain(probes) && IsGreedy(ByGain, w, probes, k, sel)
    requires Indices(others, |probes|) && |others| <= k && k >= 1
    ensures Missing(w, probes, sel, others) <= Left(k, k, Worth(w, Covered(At(probes, others))))
  {
    if |sel| == k {
      GapAfter(w, probes, sel, k, others);
    } else {
      NoGapLeft(w, probes, sel, others);
      WorthPositive(w, Covered(At(probes, others)));
      LeftPositive(k, k, Worth(w, Covered(At(probes, others))));
    }
  }

  lemma Complement(k: nat, all: real, got: real)
    requires k >= 1 && all - got <= Left(k, k, all)
    ensures got >= Guaranteed(k, all)
  {
    var p := Lost(k);
    assert (1.0 - p) * all == all - p * all;
  }

  lemma NoGapLeft(w: Weights, probes: seq<Probe>, sel: seq<nat>, others: seq<nat>)
    requires Indices(sel, |probes|) && Ended(ByGain, w, probes, sel) && Indices(others, |probes|)
    ensures Missing(w, probes, sel, others) <= 0.0
  {
    forall i | 0 <= i < |probes| && i !in sel ensures GainAt(w, probes, sel, i) <= 0.0 {
      assert !Open(ByGain, w, probes, sel, i);
    }
    ReachOfAny(w, probes, sel, 0.0, others);
    TimesZero(|others|);
  }

  // ---------------------------------------------------- how good the guarantee is

  lemma {:induction false} PowerProduct(x: real, y: real, n: nat)
    ensures Power(x, n) * Power(y, n) == Power(x * y, n)
  {
    if n > 0 {
      PowerProduct(x, y, n - 1);
      var p, q := Power(x, n - 1), Power(y, n - 1);
      assert (x * p) * (y * q) == (x * y) * (p * q);
    }
  }

  lemma {:induction false} PowerOfOne(n: nat)
    ensures Power(1.0, n) == 1.0
  {
    if n > 0 { PowerOfOne(n - 1); }
  }

  /** Bernoulli's inequality with its second term, doubled. */
  lemma {:induction false} Bernoulli(x: real, n: nat)
    requires x >= 0.0
    ensures 2.0 * Power(1.0 + x, n) >= 2.0 + 2.0 * n as real * x + n as real * (n as real - 1.0) * x * x
  {
    if n > 0 {
      Bernoulli(x, n - 1);
      BernoulliStep(x, (n - 1) as real, Power(1.0 + x, n - 1));
    }
  }

  lemma BernoulliStep(x: real, m: real, p: real)
    requires x >= 0.0 && (m >= 1.0 || m == 0.0)
    requires 2.0 * p >= 2.0 + 2.0 * m * x + m * (m - 1.0) * x * x
    ensures 2.0 * ((1.0 + x) * p) >= 2.0 + 2.0 * (m + 1.0) * x + (m + 1.0) * m * x * x
  {
    var a, c, d := m * x, (m * (m - 1.0)) * (x * x), m * (x * x);
    assert 2.0 * m * x == 2.0 * a && m * (m - 1.0) * x * x == c;
    NonNegativeProduct(m * (m - 1.0), x * x);
    NonNegativeProduct(x, c);
    NonNegativeProduct(x, 2.0 * p - 2.0 - 2.0 * a - c);
    assert x * (2.0 * p - 2.0 - 2.0 * a - c) == 2.0 * (x * p) - 2.0 * x - 2.0 * d - x * c;
    assert (m + 1.0) * m * x * x == c + 2.0 * d;
    assert 2.0 * (m + 1.0) * x == 2.0 * a + 2.0 * x;
    assert (1.0 + x) * p == p + x * p;
  }

  lemma NonNegativeProduct(x: real, y: real)
    requires x >= 0.0 && y >= 0.0
    ensures x * y >= 0.0
  {}

  /** (1 - 1/k)^k, the share that can be lost, is at most two fifths. */
  lemma AtMostTwoFifths(k: nat)
    requires k >= 1
    ensures Lost(k) <= 0.4
  {
    if k == 1 {
      assert Power(0.0, 1) == 0.0;
    } else {
      var m := k as real - 1.0;
      var x, y := 1.0 / m, 1.0 - 1.0 / k as real;
      assert x * m == 1.0;
      assert (1.0 / k as real) * k as real == 1.0;
      Inverses(x, y, m);
      PowerAtMostTwoFifths(k, x, y);
    }
  }

  lemma PowerAtMostTwoFifths(k: nat, x: real, y: real)
    requires k >= 2 && x > 0.0 && y > 0.0 && x * (k as real - 1.0) == 1.0 && (1.0 + x) * y == 1.0
    ensures Power(y, k) <= 0.4
  {
    PowerAtLeast(k, x);
    PowersInverse(1.0 + x, y, k);
    Reciprocal(Power(1.0 + x, k), Power(y, k));
  }

  lemma PowerAtLeast(k: nat, x: real)
    requires k >= 2 && x > 0.0 && x * (k as real - 1.0) == 1.0
    ensures Power(1.0 + x, k) >= 2.5
  {
    Bernoulli(x, k);
    SecondTerm(x, k as real - 1.0);
  }

  lemma PowersInverse(x: real, y: real, k: nat)
    requires x * y == 1.0 && y > 0.0
    ensures Power(x, k) * Power(y, k) == 1.0 && Power(y, k) >= 0.0
  {
    PowerProduct(x, y, k);
    PowerOfOne(k);
    PowerPositive(y, k);
  }

  lemma Inverses(x: real, y: real, m: real)
    requires m >= 1.0 && x * m == 1.0 && y * (m + 1.0) == m
    ensures x > 0.0 && y > 0.0 && (1.0 + x) * y == 1.0
  {
    assert x > 0.0;
    assert y > 0.0;
    assert m * ((1.0 + x) * y) == y * (m + m * x);
    assert m * ((1.0 + x) * y - 1.0) == 0.0;
  }

  lemma SecondTerm(x: real, m: real)
    requires m >= 1.0 && x > 0.0 && x * m == 1.0
    ensures 2.0 + 2.0 * (m + 1.0) * x + (m + 1.0) * m * x * x >= 5.0
  {
    assert (m + 1.0) * x == 1.0 + x;
    assert (m + 1.0) * m * x * x == ((m + 1.0) * x) * (x * m);
  }

  lemma Reciprocal(p: real, q: real)
    requires p >= 2.5 && q >= 0.0 && p * q == 1.0
    ensures q <= 0.4
  {
    assert (p - 2.5) * q >= 0.0;
  }

  /** So at least three fifths of the best, whatever k; and that is what it reports. */
  lemma ThreeFifths(w: Weights, probes: seq<Probe>, k: nat, sel: seq<nat>, others: seq<nat>)
    requires AllPlain(probes) && IsGreedy(ByGain, w, probes, k, sel)
    requires Indices(others, |probes|) && |others| <= k
    ensures Gathered(w, At(probes, sel)) >= 0.6 * Worth(w, Covered(At(probes, others)))
  {
    GatheredIsCoverage(w, At(probes, sel));
    if k >= 1 {
      GapAtEnd(w, probes, k, sel, others);
      WorthPositive(w, Covered(At(probes, others)));
      MostIsGot(k, Worth(w, Covered(At(probes, others))), Worth(w, Covered(At(probes, sel))));
    } else {
      assert At(probes, others) == [] && At(probes, sel) == [];
    }
  }

  lemma MostIsGot(k: nat, all: real, got: real)
    requires k >= 1 && all - got <= Left(k, k, all) && all >= 0.0
    ensures got >= 0.6 * all
  {
    AtMostTwoFifths(k);
    var p := Lost(k);
    NonNegativeProduct(0.4 - p, all);
    assert (0.4 - p) * all == 0.4 * all - p * all;
  }

  // ------------------------------------------------------- repeated features

  lemma {:induction false} CoveredAtMost(w: Weights, s: set<string>, f: string)
    requires forall g | g != f :: Weight(w, g) == 0.0 || g !in s
    ensures Worth(w, s) <= Weight(w, f)
    decreases |s|
  {
    if s != {} {
      var g :| g in s && Worth(w, s) == Worth(w, s - {g}) + Weight(w, g);
      if g == f {
        OnlyOthers(w, s - {f}, f);
      } else {
        CoveredAtMost(w, s - {g}, f);
      }
    }
  }

  lemma {:induction false} OnlyOthers(w: Weights, s: set<string>, f: string)
    requires f !in s && forall g | g != f :: Weight(w, g) == 0.0 || g !in s
    ensures Worth(w, s) == 0.0
    decreases |s|
  {
    if s != {} {
      var g :| g in s && Worth(w, s) == Worth(w, s - {g}) + Weight(w, g);
      OnlyOthers(w, s - {g}, f);
    }
  }

  /** Feature f weighs one, every other known feature nothing. */
  function OnlyWeight(known: set<string>, f: string): Weights {
    map g | g in known :: if g == f then 1.0 else 0.0
  }

  lemma {:induction false} RepeatGains(w: Weights, fs: seq<string>, f: string)
    requires Weight(w, f) == 1.0
    ensures f in fs ==> MarginalGain(w, {}, fs) >= 1.0
    ensures (exists i, j :: 0 <= i < j < |fs| && fs[i] == f == fs[j]) ==> MarginalGain(w, {}, fs) >= 2.0
  {
    if |fs| > 0 {
      var n := |fs| - 1;
      RepeatGains(w, fs[..n], f);
      assert f in fs ==> f in fs[..n] || fs[n] == f;
      if i, j :| 0 <= i < j < |fs| && fs[i] == f == fs[j] {
        assert fs[..n][i] == f;
        assert j < n ==> fs[..n][j] == f;
      }
    }
  }

  /** Scanning finds a first choice, unless no probe is open. */
  lemma {:induction false} FirstChoice(w: Weights, probes: seq<Probe>, n: nat)
    returns (best: Option<nat>, score: Score)
    requires n <= |probes|
    ensures Leads(ByGain, w, probes, [], Upto(n), best, score)
  {
    if n == 0 {
      best, score := None, Finite(0.0);
    } else {
      best, score := FirstChoice(w, probes, n - 1);
      assert Upto(n) == Upto(n - 1) + [n - 1];
      LeadsAfter(ByGain, w, probes, [], Upto(n - 1), best, score, n - 1);
      if Open(ByGain, w, probes, [], n - 1) && Above(ScoreAt(ByGain, w, probes, [], n - 1), score) {
        best, score := Some(n - 1), ScoreAt(ByGain, w, probes, [], n - 1);
      }
    }
  }

  /** With one round, a probe that gains anything is outdone by the one selected. */
  lemma OneRound(w: Weights, probes: seq<Probe>, i: nat) returns (b: nat)
    requires i < |probes| && GainAt(w, probes, [], i) > 0.0
    ensures IsGreedy(ByGain, w, probes, 1, [b]) && GainAt(w, probes, [], b) >= GainAt(w, probes, [], i)
  {
    var best, score := FirstChoice(w, probes, |probes|);
    forall j | 0 <= j < |probes| ensures j in Upto(|probes|) { assert Upto(|probes|)[j] == j; }
    assert Open(ByGain, w, probes, [], i);
    b := best.value;
    assert Chosen(ByGain, w, probes, [], b);
    StepsAfter(ByGain, w, probes, [], b);
    assert [] + [b] == [b];
    TopGain(w, probes, [], b, i);
  }

  lemma OneProbe(w: Weights, probes: seq<Probe>, b: nat)
    requires b < |probes|
    ensures Gathered(w, At(probes, [b])) == GainAt(w, probes, [], b)
    ensures Covered(At(probes, [b])) == FeatureSet(probes[b].features)
  {
    AtAfter(probes, [], b);
    GatheredAfter(w, At(probes, []), probes[b]);
    assert [] + [b] == [b] && At(probes, []) == [];
  }

  /** A repeated feature is overcounted: there are weights for which one round reports twice
      what it covers. */
  lemma RepeatOvercounted(probes: seq<Probe>, i: nat) returns (w: Weights, sel: seq<nat>)
    requires i < |probes| && !NoRepeats(probes[i].features)
    ensures IsGreedy(ByGain, w, probes, 1, sel)
    ensures Gathered(w, At(probes, sel)) >= 2.0 && Worth(w, Covered(At(probes, sel))) <= 1.0
  {
    var fs := probes[i].features;
    var x, y :| 0 <= x < y < |fs| && fs[x] == fs[y];
    var f := fs[x];
    CoveredByMember(probes, i);
    w := OnlyWeight(Covered(probes), f);
    assert f in FeatureSet(fs);
    RepeatGains(w, fs, f);
    assert At(probes, []) == [];
    var b := OneRound(w, probes, i);
    sel := [b];
    OneProbe(w, probes, b);
    CoveredByMember(probes, b);
    CoveredAtMost(w, FeatureSet(probes[b].features), f);
  }

  /** The utility reported is the coverage of the selection, for all weights and every number
      of rounds, exactly when no probe lists a feature twice. */
  lemma ReportsCoverageExactly(probes: seq<Probe>)
    ensures (forall w, k, sel | IsGreedy(ByGain, w, probes, k, sel) ::
               Gathered(w, At(probes, sel)) == Worth(w, Covered(At(probes, sel))))
       <==> AllPlain(probes)
  {
    if AllPlain(probes) {
      forall w, k, sel | IsGreedy(ByGain, w, probes, k, sel)
        ensures Gathered(w, At(probes, sel)) == Worth(w, Covered(At(probes, sel)))
      {
        GatheredIsCoverage(w, At(probes, sel));
      }
    } else {
      var i :| 0 <= i < |probes| && !NoRepeats(probes[i].features);
      var w, sel := RepeatOvercounted(probes, i);
    }
  }

  /** The guarantee of greedy selection by gain, for all weights and numbers of rounds. */
  ghost predicate Guarantees(probes: seq<Probe>) {
    forall w, k: nat, sel, others | k >= 1 && IsGreedy(ByGain, w, probes, k, sel) && IsPick(probes, k, others) ::
      Worth(w, Covered(At(probes, sel))) >= Guaranteed(k, Worth(w, Covered(At(probes, others))))
  }

  ghost predicate IsPick(probes: seq<Probe>, k: nat, others: seq<nat>) {
    Indices(others, |probes|) && |others| <= k
  }

  lemma PlainGuarantees(probes: seq<Probe>)
    requires AllPlain(probes)
    ensures Guarantees(probes)
  {
    forall w, k: nat, sel, others | k >= 1 && IsGreedy(ByGain, w, probes, k, sel) && IsPick(probes, k, others)
      ensures Worth(w, Covered(At(probes, sel))) >= Guaranteed(k, Worth(w, Covered(At(probes, others))))
    {
      GreedyGuarantee(w, probes, k, sel, others);
    }
  }

  lemma {:induction false} LongerThanAll(s: set<string>) returns (n: nat)
    ensures forall f | f in s :: |f| < n
    decreases |s|
  {
    if s == {} {
      n := 0;
    } else {
      var f :| f in s;
      var m := LongerThanAll(s - {f});
      n := if m <= |f| then |f| + 1 else m;
    }
  }

  lemma UnknownFeature(probes: seq<Probe>) returns (g: string)
    ensures forall i | 0 <= i < |probes| :: g !in probes[i].features
  {
    var n := LongerThanAll(Covered(probes));
    g := seq(n, i => 'x');
    forall i | 0 <= i < |probes| ensures g !in probes[i].features {
      CoveredByMember(probes, i);
      assert g !in FeatureSet(probes[i].features);
    }
  }

  /** Beside a probe with a repeated feature f, a probe with a new feature that weighs one and
      a half is passed over. */
  lemma PassedOver(probes: seq<Probe>, i: nat, g: string)
    requires i < |probes| && !NoRepeats(probes[i].features)
    requires forall j | 0 <= j < |probes| :: g !in probes[j].features
    ensures !Guarantees(probes + [Probe("new", 1.0, [g])])
  {
    var ps, fs := probes + [Probe("new", 1.0, [g])], probes[i].features;
    var x, y :| 0 <= x < y < |fs| && fs[x] == fs[y];
    var f := fs[x];
    var w := OnlyWeight(Covered(probes), f)[g := 1.5];
    assert f in FeatureSet(fs) && f != g;
    CoveredByMember(probes, i);
    RepeatGains(w, fs, f);
    assert At(ps, []) == [] && ps[i] == probes[i];
    var b := OneRound(w, ps, i);
    OneFeature(w, g);
    assert b < |probes|;
    OneProbe(w, ps, b);
    OneProbe(w, ps, |probes|);
    CoveredByMember(probes, b);
    assert g !in FeatureSet(ps[b].features);
    CoveredAtMost(w, FeatureSet(ps[b].features), f);
    LostInOneRound(Worth(w, FeatureSet([g])));
    assert IsGreedy(ByGain, w, ps, 1, [b]) && IsPick(ps, 1, [|probes|]);
  }

  lemma OneFeature(w: Weights, g: string)
    ensures MarginalGain(w, {}, [g]) == Weight(w, g) == Worth(w, FeatureSet([g]))
  {
    assert [g][..0] == [];
    WorthWith(w, {}, g);
    assert FeatureSet([g]) == {} + {g};
  }

  lemma LostInOneRound(amount: real)
    ensures Guaranteed(1, amount) == amount
  {
    assert Power(0.0, 1) == 0.0;
  }

  /** The guarantee holds, whatever plain probes are added, exactly when no probe lists a
      feature twice. */
  lemma GuaranteesExactly(probes: seq<Probe>)
    ensures (forall more | AllPlain(more) :: Guarantees(probes + more)) <==> AllPlain(probes)
  {
    if AllPlain(probes) {
      forall more | AllPlain(more) ensures Guarantees(probes + more) {
        PlainGuarantees(probes + more);
      }
    } else {
      var i :| 0 <= i < |probes| && !NoRepeats(probes[i].features);
      var g := UnknownFeature(probes);
      PassedOver(probes, i, g);
      assert AllPlain([Probe("new", 1.0, [g])]);
    }
  }

  /** With a repeated feature the guarantee fails: one round takes the probe that lists "a"
      twice and covers one, where the other probe covers one and a half. */
  lemma RepeatsMislead(sel: seq<nat>)
    requires IsGreedy(ByGain, map["a" := 1.0, "b" := 1.5], Repeating(), 1, sel)
    ensures var w := map["a" := 1.0, "b" := 1.5];
            && Worth(w, Covered(At(Repeating(), sel))) == 1.0
            && Worth(w, Covered(At(Repeating(), [1]))) == 1.5
  {
    var w, ps := map["a" := 1.0, "b" := 1.5], Repeating();
    assert At(ps, []) == [];
    RepeatingGains();
    assert Open(ByGain, w, ps, [], 0);
    assert !Ended(ByGain, w, ps, []);
    if sel != [] {
      assert sel == [sel[0]] && sel[..0] == [];
      assert Chosen(ByGain, w, ps, [], sel[0]);
      TopGain(w, ps, [], sel[0], 0);
      assert sel == [0];
    }
    OneProbe(w, ps, 0);
    OneProbe(w, ps, 1);
    WorthWith(w, {}, "a");
    WorthWith(w, {}, "b");
    assert FeatureSet(ps[0].features) == {} + {"a"} && FeatureSet(ps[1].features) == {} + {"b"};
  }

  function Repeating(): seq<Probe> { [Probe("p", 1.0, ["a", "a"]), Probe("q", 1.0, ["b"])] }

  lemma RepeatingGains()
    ensures var w := map["a" := 1.0, "b" := 1.5];
            MarginalGain(w, {}, ["a", "a"]) == 2.0 && MarginalGain(w, {}, ["b"]) == 1.5
  {
    var w := map["a" := 1.0, "b" := 1.5];
    assert ["a", "a"][..1] == ["a"] && ["a"][..0] == [] && ["b"][..0] == [];
    assert MarginalGain(w, {}, ["a"]) == 1.0;
  }
}
