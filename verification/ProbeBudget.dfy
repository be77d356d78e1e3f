/** Probe selection within a budget (pt-core/src/decision/submodular.rs): what share of the
    best it is sure to cover. */
module ProbeBudget {
  import opened Totals
  import opened Probes

  // ------------------------------------------------------- a budget

  /** What is selected costs no more than the budget. */
  lemma WithinBudget(w: Weights, probes: seq<Probe>, budget: real, sel: seq<nat>)
    requires IsComplete(ByRatio(budget), w, probes, sel) && sel != []
    ensures TotalCost(At(probes, sel)) <= budget
  {
    var front, last := sel[..|sel| - 1], sel[|sel| - 1];
    assert Chosen(ByRatio(budget), w, probes, front, last);
    assert sel == front + [last];
    AtAfter(probes, front, last);
    TotalAfter(At(probes, front), probes[last], Cost);
  }

  ghost predicate AllCost(probes: seq<Probe>, c: real) { forall i | 0 <= i < |probes| :: probes[i].cost == c }

  lemma {:induction false} EqualCostsAdd(ps: seq<Probe>, c: real)
    requires AllCost(ps, c)
    ensures TotalCost(ps) == Times(|ps|, c)
  {
    if |ps| > 0 { EqualCostsAdd(ps[..|ps| - 1], c); }
  }

  lemma {:induction false} TimesStrict(n: nat, k: nat, c: real)
    requires c > 0.0
    ensures Times(n, c) <= Times(k, c) <==> n <= k
  {
    if n < k {
      TimesIncrease(n, k, c);
    } else if k < n {
      TimesIncrease(k, n, c);
    }
  }

  lemma {:induction false} TimesIncrease(n: nat, k: nat, c: real)
    requires c > 0.0 && n < k
    ensures Times(n, c) < Times(k, c)
  {
    if n < k - 1 { TimesIncrease(n, k - 1, c); }
  }

  /** The budget pays for exactly k probes. */
  ghost predicate Pays(budget: real, c: real, k: nat) { Times(k, c) <= budget < Times(k + 1, c) }

  lemma SameOpen(w: Weights, probes: seq<Probe>, c: real, budget: real, k: nat, sel: seq<nat>, i: nat)
    requires c > 0.0 && AllCost(probes, c) && Pays(budget, c, k) && Indices(sel, |probes|) && i < |probes|
    ensures Open(ByRatio(budget), w, probes, sel, i) <==> |sel| < k && Open(ByGain, w, probes, sel, i)
  {
    EqualCostsAdd(At(probes, sel), c);
    TimesStrict(|sel| + 1, k, c);
    TimesStrict(k + 1, |sel| + 1, c);
  }

  lemma SameScores(w: Weights, probes: seq<Probe>, c: real, budget: real, sel: seq<nat>, i: nat, j: nat)
    requires c > 0.0 && AllCost(probes, c) && Indices(sel, |probes|) && i < |probes| && j < |probes|
    ensures Above(ScoreAt(ByRatio(budget), w, probes, sel, i), ScoreAt(ByRatio(budget), w, probes, sel, j))
       <==> Above(ScoreAt(ByGain, w, probes, sel, i), ScoreAt(ByGain, w, probes, sel, j))
  {
    QuotientsCompare(GainAt(w, probes, sel, i), GainAt(w, probes, sel, j), c);
  }

  lemma QuotientsCompare(x: real, y: real, c: real)
    requires c > 0.0
    ensures x / c > y / c <==> x > y
  {
    var p, q := x / c, y / c;
    assert p * c == x && q * c == y;
    assert (p - q) * c == x - y;
  }

  lemma SameChoice(w: Weights, probes: seq<Probe>, c: real, budget: real, k: nat, sel: seq<nat>, i: nat)
    requires c > 0.0 && AllCost(probes, c) && Pays(budget, c, k)
    ensures Chosen(ByRatio(budget), w, probes, sel, i) <==> |sel| < k && Chosen(ByGain, w, probes, sel, i)
  {
    if Indices(sel, |probes|) && i < |probes| {
      forall j | 0 <= j < |probes|
        ensures Open(ByRatio(budget), w, probes, sel, j) <==> |sel| < k && Open(ByGain, w, probes, sel, j)
      {
        SameOpen(w, probes, c, budget, k, sel, j);
      }
      ChoiceCarries(w, probes, c, budget, k, sel, i);
    }
  }

  lemma ChoiceCarries(w: Weights, probes: seq<Probe>, c: real, budget: real, k: nat, sel: seq<nat>, i: nat)
    requires c > 0.0 && AllCost(probes, c) && Indices(sel, |probes|) && i < |probes|
    requires forall j | 0 <= j < |probes| ::
               Open(ByRatio(budget), w, probes, sel, j) <==> |sel| < k && Open(ByGain, w, probes, sel, j)
    ensures Chosen(ByRatio(budget), w, probes, sel, i) <==> |sel| < k && Chosen(ByGain, w, probes, sel, i)
  {
    forall j | 0 <= j < |probes|
      ensures Above(ScoreAt(ByRatio(budget), w, probes, sel, j), ScoreAt(ByRatio(budget), w, probes, sel, i))
         <==> Above(ScoreAt(ByGain, w, probes, sel, j), ScoreAt(ByGain, w, probes, sel, i))
      ensures Above(ScoreAt(ByRatio(budget), w, probes, sel, i), ScoreAt(ByRatio(budget), w, probes, sel, j))
         <==> Above(ScoreAt(ByGain, w, probes, sel, i), ScoreAt(ByGain, w, probes, sel, j))
    {
      SameScores(w, probes, c, budget, sel, j, i);
      SameScores(w, probes, c, budget, sel, i, j);
    }
  }

  lemma {:induction false} SameSteps(w: Weights, probes: seq<Probe>, c: real, budget: real, k: nat, sel: seq<nat>)
    requires c > 0.0 && AllCost(probes, c) && Pays(budget, c, k)
    ensures Steps(ByRatio(budget), w, probes, sel) <==> |sel| <= k && Steps(ByGain, w, probes, sel)
    decreases |sel|
  {
    if |sel| > 0 {
      SameSteps(w, probes, c, budget, k, sel[..|sel| - 1]);
      SameChoice(w, probes, c, budget, k, sel[..|sel| - 1], sel[|sel| - 1]);
    }
  }

  /** When all probes cost the same, selecting within a budget is selecting as many probes by
      gain as the budget pays for; so the guarantee carries over. */
  lemma EqualCosts(w: Weights, probes: seq<Probe>, c: real, budget: real, k: nat, sel: seq<nat>)
    requires c > 0.0 && AllCost(probes, c) && Pays(budget, c, k)
    ensures IsComplete(ByRatio(budget), w, probes, sel) <==> IsGreedy(ByGain, w, probes, k, sel)
  {
    SameSteps(w, probes, c, budget, k, sel);
    if Indices(sel, |probes|) {
      forall i | 0 <= i < |probes|
        ensures Open(ByRatio(budget), w, probes, sel, i) <==> |sel| < k && Open(ByGain, w, probes, sel, i)
      {
        SameOpen(w, probes, c, budget, k, sel, i);
      }
    }
  }

  /** Then what is selected within a budget covers three fifths of anything the budget pays. */
  lemma EqualCostsGuarantee(
    w: Weights, probes: seq<Probe>, c: real, budget: real, sel: seq<nat>, others: seq<nat>, k: nat)
    requires c > 0.0 && AllCost(probes, c) && AllPlain(probes) && Pays(budget, c, k)
    requires IsComplete(ByRatio(budget), w, probes, sel)
    requires Indices(others, |probes|) && TotalCost(At(probes, others)) <= budget
    ensures Gathered(w, At(probes, sel)) >= 0.6 * Worth(w, Covered(At(probes, others)))
  {
    EqualCosts(w, probes, c, budget, k, sel);
    EqualCostsAdd(At(probes, others), c);
    TimesStrict(k + 1, |others|, c);
    ThreeFifths(w, probes, k, sel, others);
  }

  // ---------------------------------------- a share, when no probe takes it all

  ghost predicate CostsUpTo(probes: seq<Probe>, limit: real) {
    forall i | 0 <= i < |probes| :: 0.0 <= probes[i].cost <= limit
  }

  ghost predicate Affordable(probes: seq<Probe>, budget: real, others: seq<nat>) {
    Indices(others, |probes|) && TotalCost(At(probes, others)) <= budget
  }

  function Spent(probes: seq<Probe>, sel: seq<nat>): real
    requires Indices(sel, |probes|)
  {
    TotalCost(At(probes, sel))
  }

  ghost function Got(w: Weights, probes: seq<Probe>, sel: seq<nat>): real
    requires Indices(sel, |probes|)
  {
    Worth(w, Covered(At(probes, sel)))
  }

  function Fits(probes: seq<Probe>, budget: real, sel: seq<nat>, j: nat): bool
    requires Indices(sel, |probes|) && j < |probes|
  {
    Spent(probes, sel) + probes[j].cost <= budget
  }

  /** Of the others, all that are not selected still fit. */
  ghost predicate AllFit(probes: seq<Probe>, budget: real, sel: seq<nat>, others: seq<nat>)
    requires Indices(sel, |probes|) && Indices(others, |probes|)
  {
    forall t | 0 <= t < |others| && others[t] !in sel :: Fits(probes, budget, sel, others[t])
  }

  lemma {:induction false} TotalCostBounds(ps: seq<Probe>, limit: real)
    requires CostsUpTo(ps, limit)
    ensures 0.0 <= TotalCost(ps) <= Times(|ps|, limit)
  {
    if |ps| > 0 { TotalCostBounds(ps[..|ps| - 1], limit); }
  }

  /** A gain x for a cost t is at most g for c. */
  predicate AtRate(x: real, t: real, g: real, c: real) { x * c <= g * t }

  function Sum(xs: seq<real>): real {
    if |xs| == 0 then 0.0 else Sum(xs[..|xs| - 1]) + xs[|xs| - 1]
  }

  /** The gains of the probes, each beyond the same coverage. */
  function GainsOf(w: Weights, covered: set<string>, ps: seq<Probe>): seq<real> {
    seq(|ps|, t requires 0 <= t < |ps| => MarginalGain(w, covered, ps[t].features))
  }

  function CostsOf(ps: seq<Probe>): seq<real> {
    seq(|ps|, t requires 0 <= t < |ps| => ps[t].cost)
  }

  lemma {:induction false} SumOfGains(w: Weights, covered: set<string>, ps: seq<Probe>)
    ensures Worth(w, covered + Covered(ps)) <= Worth(w, covered) + Sum(GainsOf(w, covered, ps))
  {
    if |ps| == 0 {
      assert covered + Covered(ps) == covered;
    } else {
      var front, fs := ps[..|ps| - 1], ps[|ps| - 1].features;
      SumOfGains(w, covered, front);
      GainOver(w, covered, covered + Covered(front), fs);
      assert covered + Covered(ps) == covered + Covered(front) + FeatureSet(fs);
      assert GainsOf(w, covered, ps)[..|ps| - 1] == GainsOf(w, covered, front);
    }
  }

  lemma {:induction false} SumOfCosts(ps: seq<Probe>)
    ensures Sum(CostsOf(ps)) == TotalCost(ps)
  {
    if |ps| > 0 {
      SumOfCosts(ps[..|ps| - 1]);
      assert CostsOf(ps)[..|ps| - 1] == CostsOf(ps[..|ps| - 1]);
    }
  }

  /** When nothing gains more per cost than g for c, neither do all together. */
  lemma {:induction false} RatesAdd(xs: seq<real>, ts: seq<real>, g: real, c: real)
    requires |xs| == |ts| && forall k | 0 <= k < |xs| :: AtRate(xs[k], ts[k], g, c)
    ensures AtRate(Sum(xs), Sum(ts), g, c)
  {
    if |xs| > 0 {
      var n := |xs| - 1;
      RatesAdd(xs[..n], ts[..n], g, c);
      AddRates(Sum(xs[..n]), xs[n], Sum(ts[..n]), ts[n], g, c);
    }
  }

  lemma AddRates(x: real, x': real, t: real, t': real, g: real, c: real)
    requires AtRate(x, t, g, c) && AtRate(x', t', g, c)
    ensures AtRate(x + x', t + t', g, c)
  {
    assert (x + x') * c == x * c + x' * c;
    assert g * (t + t') == g * t + g * t';
  }

  lemma CrossMultiply(x: real, y: real, c: real, d: real)
    requires c > 0.0 && d > 0.0 && x / c <= y / d
    ensures x * d <= y * c
  {
    var p, q := x / c, y / d;
    assert p * c == x && q * d == y;
    NonNegativeProduct(q - p, c * d);
    assert (q - p) * (c * d) == (q * d) * c - (p * c) * d;
  }

  /** No probe that fits gains more per cost than the one chosen. */
  lemma TopRatio(w: Weights, probes: seq<Probe>, budget: real, sel: seq<nat>, i: nat, j: nat)
    requires Chosen(ByRatio(budget), w, probes, sel, i) && j < |probes| && j !in sel
    requires Fits(probes, budget, sel, j) && probes[i].cost >= 0.0 && probes[j].cost >= 0.0
    ensures AtRate(GainAt(w, probes, sel, j), probes[j].cost, GainAt(w, probes, sel, i), probes[i].cost)
  {
    var x, y := GainAt(w, probes, sel, j), GainAt(w, probes, sel, i);
    NonNegativeProduct(y, probes[j].cost);
    if x > 0.0 && probes[i].cost > 0.0 {
      assert Open(ByRatio(budget), w, probes, sel, j);
      assert !Above(ScoreAt(ByRatio(budget), w, probes, sel, j), ScoreAt(ByRatio(budget), w, probes, sel, i));
      CrossMultiply(x, y, probes[j].cost, probes[i].cost);
    }
  }

  lemma EachAtRate(w: Weights, probes: seq<Probe>, budget: real, sel: seq<nat>, i: nat, others: seq<nat>, t: nat)
    requires Chosen(ByRatio(budget), w, probes, sel, i) && Indices(others, |probes|) && t < |others|
    requires AllFit(probes, budget, sel, others) && CostsUpTo(probes, budget)
    ensures AtRate(GainAt(w, probes, sel, others[t]), probes[others[t]].cost,
                   GainAt(w, probes, sel, i), probes[i].cost)
  {
    if others[t] in sel {
      SelectedGainsNothing(w, probes, sel, others[t]);
      NonNegativeProduct(GainAt(w, probes, sel, i), probes[others[t]].cost);
    } else {
      TopRatio(w, probes, budget, sel, i, others[t]);
    }
  }

  lemma SelectedGainsNothing(w: Weights, probes: seq<Probe>, sel: seq<nat>, j: nat)
    requires Indices(sel, |probes|) && j < |probes| && j in sel
    ensures GainAt(w, probes, sel, j) == 0.0
  {
    var k :| 0 <= k < |sel| && sel[k] == j;
    CoveredByMember(At(probes, sel), k);
    NothingNew(w, Covered(At(probes, sel)), probes[j].features);
  }

  lemma MissingAtMost(w: Weights, probes: seq<Probe>, sel: seq<nat>, others: seq<nat>)
    requires Indices(sel, |probes|) && Indices(others, |probes|)
    ensures Missing(w, probes, sel, others) <= Sum(GainsOf(w, Covered(At(probes, sel)), At(probes, others)))
  {
    var covered, ps := Covered(At(probes, sel)), At(probes, others);
    SumOfGains(w, covered, ps);
    WorthMonotone(w, Covered(ps), covered + Covered(ps));
  }

  /** So what is missing is to the budget at most what the chosen probe gains is to its cost. */
  lemma MissingAtRate(w: Weights, probes: seq<Probe>, budget: real, sel: seq<nat>, i: nat, others: seq<nat>)
    requires Chosen(ByRatio(budget), w, probes, sel, i) && Affordable(probes, budget, others)
    requires AllFit(probes, budget, sel, others) && CostsUpTo(probes, budget)
    ensures AtRate(Missing(w, probes, sel, others), budget, GainAt(w, probes, sel, i), probes[i].cost)
  {
    var ps := At(probes, others);
    var gains := GainsOf(w, Covered(At(probes, sel)), ps);
    forall t | 0 <= t < |ps|
      ensures AtRate(gains[t], CostsOf(ps)[t], GainAt(w, probes, sel, i), probes[i].cost)
    {
      EachAtRate(w, probes, budget, sel, i, others, t);
    }
    RatesAdd(gains, CostsOf(ps), GainAt(w, probes, sel, i), probes[i].cost);
    MissingAtMost(w, probes, sel, others);
    SumOfCosts(ps);
    RateWeakens(Missing(w, probes, sel, others), Sum(gains), TotalCost(ps), budget,
                GainAt(w, probes, sel, i), probes[i].cost);
  }

  lemma RateWeakens(x: real, x': real, t: real, t': real, g: real, c: real)
    requires AtRate(x', t, g, c) && x <= x' && t <= t' && g >= 0.0 && c >= 0.0
    ensures AtRate(x, t', g, c)
  {
    NonNegativeProduct(x' - x, c);
    NonNegativeProduct(g, t' - t);
    assert (x' - x) * c == x' * c - x * c;
    assert g * (t' - t) == g * t' - g * t;
  }

  /** What a run keeps while the others fit: the share missing falls as money is spent. */
  ghost predicate OnTrack(w: Weights, probes: seq<Probe>, budget: real, sel: seq<nat>, others: seq<nat>)
    requires Indices(sel, |probes|) && Indices(others, |probes|)
  {
    Track(Missing(w, probes, sel, others), budget, Spent(probes, sel), Got(w, probes, others))
  }

  predicate Track(gap: real, budget: real, spent: real, opt: real) { gap * (budget + spent) <= budget * opt }

  lemma OnTrackAtStart(w: Weights, probes: seq<Probe>, budget: real, others: seq<nat>)
    requires Indices(others, |probes|)
    ensures OnTrack(w, probes, budget, [], others)
  {
    assert At(probes, []) == [];
    assert Worth(w, Covered(At(probes, []))) == 0.0 && Spent(probes, []) == 0.0;
    TrackStart(budget, Got(w, probes, others));
  }

  lemma TrackStart(budget: real, opt: real)
    ensures Track(opt, budget, 0.0, opt)
  {}

  lemma OnTrackAfter(w: Weights, probes: seq<Probe>, budget: real, sel: seq<nat>, i: nat, others: seq<nat>)
    requires AllPlain(probes) && CostsUpTo(probes, budget) && Affordable(probes, budget, others)
    requires Chosen(ByRatio(budget), w, probes, sel, i) && AllFit(probes, budget, sel, others)
    requires OnTrack(w, probes, budget, sel, others)
    ensures OnTrack(w, probes, budget, sel + [i], others)
  {
    MissingAtRate(w, probes, budget, sel, i, others);
    OneMore(w, probes, budget, sel, i, others);
    TrackAfter(Missing(w, probes, sel, others), GainAt(w, probes, sel, i), budget, Spent(probes, sel),
               probes[i].cost, Got(w, probes, others));
  }

  /** What taking a probe does to what is missing and spent. */
  lemma OneMore(w: Weights, probes: seq<Probe>, budget: real, sel: seq<nat>, i: nat, others: seq<nat>)
    requires Indices(sel, |probes|) && i < |probes| && Indices(others, |probes|)
    requires AllPlain(probes) && CostsUpTo(probes, budget)
    ensures Missing(w, probes, sel + [i], others) == Missing(w, probes, sel, others) - GainAt(w, probes, sel, i)
    ensures 0.0 <= Spent(probes, sel) && Spent(probes, sel + [i]) == Spent(probes, sel) + probes[i].cost
  {
    WorthAfter(w, probes, sel, i);
    AtAfter(probes, sel, i);
    TotalAfter(At(probes, sel), probes[i], Cost);
    TotalCostBounds(At(probes, sel), budget);
  }

  lemma TrackAfter(gap: real, g: real, budget: real, spent: real, c: real, opt: real)
    requires Track(gap, budget, spent, opt) && AtRate(gap, budget, g, c)
    requires g >= 0.0 && spent >= 0.0 && c >= 0.0
    ensures Track(gap - g, budget, spent + c, opt)
  {
    NonNegativeProduct(g, spent + c);
    assert (gap - g) * (budget + (spent + c)) == gap * (budget + spent) + gap * c - g * budget - g * (spent + c);
  }

  /** The share that is sure. */
  ghost predicate ShareReached(w: Weights, probes: seq<Probe>, d: real, sel: seq<nat>, others: seq<nat>)
    requires Indices(sel, |probes|) && Indices(others, |probes|)
  {
    Enough(d, Got(w, probes, sel), Got(w, probes, others))
  }

  predicate Enough(d: real, got: real, opt: real) { (2.0 - d) * got >= (1.0 - d) * opt }

  /** When one of the others no longer fits, all but a d-th of the budget is spent. */
  lemma NoLongerFits(w: Weights, probes: seq<Probe>, d: real, budget: real, sel: seq<nat>, others: seq<nat>)
    requires 0.0 <= d < 1.0 && CostsUpTo(probes, d * budget) && Affordable(probes, budget, others)
    requires Indices(sel, |probes|) && OnTrack(w, probes, budget, sel, others)
    requires !AllFit(probes, budget, sel, others)
    ensures ShareReached(w, probes, d, sel, others)
  {
    var t :| 0 <= t < |others| && others[t] !in sel && !Fits(probes, budget, sel, others[t]);
    BudgetPositive(probes, d, budget, sel, others, t);
    WorthPositive(w, Covered(At(probes, sel)));
    WorthPositive(w, Covered(At(probes, others)));
    FitsArithmetic(Got(w, probes, others), Got(w, probes, sel), budget, Spent(probes, sel), d);
  }

  lemma BudgetPositive(probes: seq<Probe>, d: real, budget: real, sel: seq<nat>, others: seq<nat>, t: nat)
    requires 0.0 <= d < 1.0 && CostsUpTo(probes, d * budget) && Affordable(probes, budget, others)
    requires Indices(sel, |probes|) && t < |others| && !Fits(probes, budget, sel, others[t])
    ensures budget > 0.0 && Spent(probes, sel) > budget - d * budget
  {
    TotalCostBounds(At(probes, others), d * budget);
    if budget == 0.0 {
      TotalCostBounds(At(probes, sel), d * budget);
      TimesZero(|sel|);
    }
  }

  lemma FitsArithmetic(opt: real, got: real, budget: real, spent: real, d: real)
    requires 0.0 <= d < 1.0 && budget > 0.0 && spent >= budget - d * budget && opt >= 0.0 && got >= 0.0
    requires Track(opt - got, budget, spent, opt)
    ensures Enough(d, got, opt)
  {
    if opt <= got {
      EnoughAnyway(opt, got, d);
    } else {
      NonNegativeProduct(opt - got, spent - (budget - d * budget));
      assert (opt - got) * (budget + spent)
          == (opt - got) * (spent - (budget - d * budget)) + budget * ((2.0 - d) * (opt - got));
      CancelFactor(budget, (2.0 - d) * (opt - got), opt);
      assert (2.0 - d) * (opt - got) == (2.0 - d) * opt - (2.0 - d) * got;
      assert (1.0 - d) * opt == (2.0 - d) * opt - opt;
    }
  }

  lemma CancelFactor(c: real, x: real, y: real)
    requires c > 0.0 && c * x <= c * y
    ensures x <= y
  {}

  lemma EnoughAnyway(opt: real, got: real, d: real)
    requires 0.0 <= opt <= got && d < 1.0
    ensures Enough(d, got, opt)
  {
    NonNegativeProduct(2.0 - d, got - opt);
    assert (2.0 - d) * (got - opt) == (2.0 - d) * got - (2.0 - d) * opt;
    assert (2.0 - d) * opt == (1.0 - d) * opt + opt;
  }

  lemma ShareStays(w: Weights, probes: seq<Probe>, d: real, sel: seq<nat>, i: nat, others: seq<nat>)
    requires Indices(sel, |probes|) && i < |probes| && Indices(others, |probes|) && d < 1.0
    requires ShareReached(w, probes, d, sel, others)
    ensures ShareReached(w, probes, d, sel + [i], others)
  {
    AtAfter(probes, sel, i);
    GatheredAfter(w, At(probes, sel), probes[i]);
    WorthMonotone(w, Covered(At(probes, sel)), Covered(At(probes, sel + [i])));
    EnoughStays(d, Got(w, probes, sel), Got(w, probes, sel + [i]), Got(w, probes, others));
  }

  lemma EnoughStays(d: real, got: real, got': real, opt: real)
    requires d < 1.0 && Enough(d, got, opt) && got <= got'
    ensures Enough(d, got', opt)
  {
    NonNegativeProduct(2.0 - d, got' - got);
    assert (2.0 - d) * (got' - got) == (2.0 - d) * got' - (2.0 - d) * got;
  }

  /** At every point of a run the share is reached, or all others fit and it is on track. */
  lemma {:induction false} ReachedOrOnTrack(w: Weights, probes: seq<Probe>, d: real, budget: real,
                                            sel: seq<nat>, others: seq<nat>)
    requires AllPlain(probes) && 0.0 <= d < 1.0 && CostsUpTo(probes, d * budget)
    requires Affordable(probes, budget, others) && CostsUpTo(probes, budget)
    requires Indices(sel, |probes|) && Steps(ByRatio(budget), w, probes, sel)
    ensures ShareReached(w, probes, d, sel, others)
         || (AllFit(probes, budget, sel, others) && OnTrack(w, probes, budget, sel, others))
    decreases |sel|
  {
    if |sel| == 0 {
      OnTrackAtStart(w, probes, budget, others);
    } else {
      var front, last := sel[..|sel| - 1], sel[|sel| - 1];
      ReachedOrOnTrack(w, probes, d, budget, front, others);
      assert sel == front + [last];
      if ShareReached(w, probes, d, front, others) {
        ShareStays(w, probes, d, front, last, others);
      } else {
        OnTrackAfter(w, probes, budget, front, last, others);
      }
    }
    if OnTrack(w, probes, budget, sel, others) && !AllFit(probes, budget, sel, others) {
      NoLongerFits(w, probes, d, budget, sel, others);
    }
  }

  /** When all others fit at the end, none of them gains anything more. */
  lemma NothingMore(w: Weights, probes: seq<Probe>, budget: real, sel: seq<nat>, others: seq<nat>)
    requires IsComplete(ByRatio(budget), w, probes, sel) && Indices(others, |probes|)
    requires AllFit(probes, budget, sel, others)
    ensures Got(w, probes, others) <= Got(w, probes, sel)
  {
    var covered, ps := Covered(At(probes, sel)), At(probes, others);
    forall t | 0 <= t < |ps| ensures MarginalGain(w, covered, ps[t].features) <= 0.0 {
      if others[t] in sel {
        SelectedGainsNothing(w, probes, sel, others[t]);
      } else {
        assert !Open(ByRatio(budget), w, probes, sel, others[t]);
      }
    }
    GainsAdd(w, covered, ps, 0.0);
    TimesZero(|ps|);
    WorthMonotone(w, Covered(ps), covered + Covered(ps));
  }

  /** When no probe costs more than a share d < 1 of the budget, the selection reports at least
      (1 - d) / (2 - d) of what any affordable probes cover. */
  lemma BudgetGuarantee(w: Weights, probes: seq<Probe>, d: real, budget: real, sel: seq<nat>, others: seq<nat>)
    requires AllPlain(probes) && 0.0 <= d < 1.0 && CostsUpTo(probes, d * budget)
    requires IsComplete(ByRatio(budget), w, probes, sel) && Affordable(probes, budget, others)
    ensures Enough(d, Gathered(w, At(probes, sel)), Worth(w, Covered(At(probes, others))))
  {
    GatheredIsCoverage(w, At(probes, sel));
    CostsWithin(probes, d, budget, others);
    ReachedOrOnTrack(w, probes, d, budget, sel, others);
    if !ShareReached(w, probes, d, sel, others) {
      NothingMore(w, probes, budget, sel, others);
      WorthPositive(w, Covered(At(probes, others)));
      EnoughAnyway(Got(w, probes, others), Got(w, probes, sel), d);
    }
  }

  lemma CostsWithin(probes: seq<Probe>, d: real, budget: real, others: seq<nat>)
    requires 0.0 <= d < 1.0 && CostsUpTo(probes, d * budget) && Affordable(probes, budget, others)
    ensures CostsUpTo(probes, budget)
  {
    TotalCostBounds(At(probes, others), d * budget);
    NonNegativeProduct(1.0 - d, budget);
    assert (1.0 - d) * budget == budget - d * budget;
  }

  // ------------------------------------- no share at all, when one probe may take it

  /** A cheap probe with the better ratio, and a large one that needs the whole budget m. */
  function Trap(m: real): seq<Probe> { [Probe("small", 1.0, ["a"]), Probe("large", m, ["b"])] }

  function TrapWeights(m: real): Weights { map["a" := 2.0, "b" := m] }

  lemma TrapGains(m: real)
    requires m > 2.0
    ensures MarginalGain(TrapWeights(m), {}, ["a"]) == 2.0 && MarginalGain(TrapWeights(m), {}, ["b"]) == m
    ensures Worth(TrapWeights(m), Covered(At(Trap(m), [1]))) == m && TotalCost(At(Trap(m), [1])) == m
    ensures Gathered(TrapWeights(m), At(Trap(m), [0])) == 2.0 && TotalCost(At(Trap(m), [0])) == 1.0
  {
    var w, ps := TrapWeights(m), Trap(m);
    assert ["a"][..0] == [] && ["b"][..0] == [];
    OneProbe(w, ps, 0);
    OneProbe(w, ps, 1);
    WorthWith(w, {}, "b");
    assert FeatureSet(ps[1].features) == {} + {"b"};
    assert At(ps, []) == [];
    assert At(ps, [0]) == [] + [ps[0]] && At(ps, [1]) == [] + [ps[1]];
    TotalAfter([], ps[0], Cost);
    TotalAfter([], ps[1], Cost);
  }

  /** The large probe is never reached. */
  lemma {:induction false} TrapTaken(m: real, sel: seq<nat>)
    requires m > 2.0 && Indices(sel, 2) && Steps(ByRatio(m), TrapWeights(m), Trap(m), sel)
    ensures sel == [] || sel == [0]
    decreases |sel|
  {
    if |sel| > 0 {
      var front, last := sel[..|sel| - 1], sel[|sel| - 1];
      TrapTaken(m, front);
      assert sel == front + [last];
      TrapStep(m, front, last);
    }
  }

  lemma TrapStep(m: real, sel: seq<nat>, i: nat)
    requires m > 2.0 && (sel == [] || sel == [0]) && Chosen(ByRatio(m), TrapWeights(m), Trap(m), sel, i)
    ensures sel == [] && i == 0
  {
    TrapScores(m);
    TrapGains(m);
  }

  lemma TrapScores(m: real)
    requires m > 2.0
    ensures Open(ByRatio(m), TrapWeights(m), Trap(m), [], 0)
    ensures Above(ScoreAt(ByRatio(m), TrapWeights(m), Trap(m), [], 0),
                  ScoreAt(ByRatio(m), TrapWeights(m), Trap(m), [], 1))
  {
    TrapGains(m);
    assert At(Trap(m), []) == [];
    assert m / m == 1.0 && 2.0 / 1.0 == 2.0;
  }

  /** However small a share of the best is asked for, there are plain probes, weights and a
      budget for which selection by ratio falls short of it. */
  lemma NoConstantShare(share: real) returns (m: real)
    requires share > 0.0
    ensures m > 2.0 && AllPlain(Trap(m)) && TotalCost(At(Trap(m), [1])) <= m
    ensures Worth(TrapWeights(m), Covered(At(Trap(m), [1]))) == m
    ensures forall sel | IsComplete(ByRatio(m), TrapWeights(m), Trap(m), sel) ::
              Gathered(TrapWeights(m), At(Trap(m), sel)) < share * m
  {
    m := LargeEnough(share);
    TrapGains(m);
    var target := share * m;
    forall sel | IsComplete(ByRatio(m), TrapWeights(m), Trap(m), sel)
      ensures Gathered(TrapWeights(m), At(Trap(m), sel)) < target
    {
      TrapYields(m, sel);
    }
  }

  lemma TrapYields(m: real, sel: seq<nat>)
    requires m > 2.0 && IsComplete(ByRatio(m), TrapWeights(m), Trap(m), sel)
    ensures Gathered(TrapWeights(m), At(Trap(m), sel)) <= 2.0
  {
    TrapTaken(m, sel);
    TrapGains(m);
    assert At(Trap(m), []) == [];
  }

  /** The run that takes the small probe. */
  lemma TrapRun(m: real) returns (sel: seq<nat>)
    requires m > 2.0
    ensures IsComplete(ByRatio(m), TrapWeights(m), Trap(m), sel)
  {
    TrapScores(m);
    TrapGains(m);
    assert Chosen(ByRatio(m), TrapWeights(m), Trap(m), [], 0);
    StepsAfter(ByRatio(m), TrapWeights(m), Trap(m), [], 0);
    sel := [0];
    assert [] + [0] == sel;
  }

  lemma LargeEnough(share: real) returns (m: real)
    requires share > 0.0
    ensures m > 2.0
    ensures share * m > 2.0
  {
    var q := 3.0 / share;
    assert q * share == 3.0;
    m := 3.0 + q;
    QuotientPositive(share, q);
    ProductOfSum(share, q, m);
  }

  lemma QuotientPositive(share: real, q: real)
    requires share > 0.0 && q * share == 3.0
    ensures q > 0.0
  {}

  lemma ProductOfSum(share: real, q: real, m: real)
    requires share > 0.0 && q * share == 3.0 && m == 3.0 + q
    ensures share * m > 2.0
  {
    assert share * m == 3.0 * share + 3.0;
  }

  // ------------------------------------------------------------ the condition

  predicate Covers(got: real, share: real, opt: real) { got >= share * opt }

  /** An instance of selection within a budget: plain probes that each cost at most d of the
      budget, a complete run, and any affordable others. */
  ghost predicate IsInstance(d: real, w: Weights, probes: seq<Probe>, budget: real, sel: seq<nat>, others: seq<nat>) {
    && AllPlain(probes) && CostsUpTo(probes, d * budget)
    && IsComplete(ByRatio(budget), w, probes, sel) && Affordable(probes, budget, others)
  }

  /** In every instance the selection reports this share of what the others cover. */
  ghost predicate SureShare(d: real, share: real) {
    forall w, probes, budget: real, sel, others | IsInstance(d, w, probes, budget, sel, others) ::
      Covers(Gathered(w, At(probes, sel)), share, Worth(w, Covered(At(probes, others))))
  }

  lemma ShareOf(d: real) returns (share: real)
    requires 0.0 <= d < 1.0
    ensures share > 0.0 && share * (2.0 - d) == 1.0 - d
  {
    share := (1.0 - d) / (2.0 - d);
    assert share * (2.0 - d) == 1.0 - d;
  }

  lemma ShareIsSure(d: real, share: real)
    requires 0.0 <= d < 1.0 && share * (2.0 - d) == 1.0 - d
    ensures SureShare(d, share)
  {
    forall w, probes, budget: real, sel, others | IsInstance(d, w, probes, budget, sel, others)
      ensures Covers(Gathered(w, At(probes, sel)), share, Worth(w, Covered(At(probes, others))))
    {
      BudgetGuarantee(w, probes, d, budget, sel, others);
      DivideShare(share, d, Gathered(w, At(probes, sel)), Worth(w, Covered(At(probes, others))));
    }
  }

  lemma DivideShare(share: real, d: real, got: real, opt: real)
    requires d < 1.0 && share * (2.0 - d) == 1.0 - d && Enough(d, got, opt)
    ensures Covers(got, share, opt)
  {
    assert (2.0 - d) * (share * opt) == (1.0 - d) * opt;
    CancelFactor(2.0 - d, share * opt, got);
  }

  lemma TrapDefeats(d: real, share: real)
    requires d >= 1.0 && share > 0.0
    ensures !SureShare(d, share)
  {
    var m := NoConstantShare(share);
    var sel := TrapRun(m);
    TrapCosts(d, m);
    assert IsInstance(d, TrapWeights(m), Trap(m), m, sel, [1]);
  }

  lemma TrapCosts(d: real, m: real)
    requires d >= 1.0 && m > 2.0
    ensures CostsUpTo(Trap(m), d * m) && Affordable(Trap(m), m, [1])
  {
    TrapGains(m);
    NonNegativeProduct(d - 1.0, m);
    assert (d - 1.0) * m == d * m - m;
  }

  /** A positive share is sure exactly when no probe may cost as much as the whole budget. */
  lemma SureShareExactly(d: real)
    requires d >= 0.0
    ensures (exists share :: share > 0.0 && SureShare(d, share)) <==> d < 1.0
  {
    if d < 1.0 {
      var share := ShareOf(d);
      ShareIsSure(d, share);
    } else {
      forall share | share > 0.0 ensures !SureShare(d, share) { TrapDefeats(d, share); }
    }
  }
}
