/** Selecting a kill set under false-discovery-rate control by e-values
    (pt-core/src/decision/fdr_selection.rs), over the reals. */
module Fdr {
  import opened Wrappers
  import opened DescendingSort
  import Totals

  datatype Control = EBh | EBy | NoControl

  datatype Target = Target(pid: int, startId: string, uid: nat)

  datatype Candidate = Candidate(target: Target, eValue: real)

  datatype Selection = Selection(
    target: Target, eValue: real, pValue: real, rank: nat, threshold: real, selected: bool)

  /** No boundary threshold (None) stands for infinity. */
  datatype Outcome =
    | InvalidAlpha | NoCandidates | NegativeEvalue
    | Chosen(selectedK: nat, boundary: Option<real>, candidates: seq<Selection>, selectedIds: seq<Target>)

  function EValue(c: Candidate): real { c.eValue }

  /** `by_correction_factor`: the harmonic number. */
  function Harmonic(m: nat): (h: real)
    ensures m >= 1 ==> h >= 1.0
  {
    if m == 0 then 0.0 else Harmonic(m - 1) + 1.0 / m as real
  }

  function EffectiveAlpha(m: nat, alpha: real, control: Control): real
    requires m >= 1
  {
    if control.EBy? then alpha / Harmonic(m) else alpha
  }

  /** What the e-value of rank k must reach. */
  function Threshold(m: nat, a: real, k: nat): real
    requires a > 0.0 && k >= 1
  {
    assert a * k as real > 0.0;
    m as real / (a * k as real)
  }

  /** The threshold in multiplied form. */
  lemma ThresholdTimes(m: nat, a: real, k: nat, e: real)
    requires a > 0.0 && k >= 1
    ensures Threshold(m, a, k) * (a * k as real) == m as real
    ensures e >= Threshold(m, a, k) <==> a * k as real * e >= m as real
  {
    var d, t := a * k as real, Threshold(m, a, k);
    assert d > 0.0;
    QuotientTimes(m as real, d, t);
    TimesCompares(e, t, d);
  }

  lemma QuotientTimes(x: real, d: real, q: real)
    requires d > 0.0 && q == x / d
    ensures q * d == x
  {}

  lemma TimesCompares(e: real, t: real, d: real)
    requires d > 0.0
    ensures e >= t <==> d * e >= t * d
  {
    assert d * e - t * d == d * (e - t);
  }

  /** The effective level is alpha, or alpha divided by the harmonic number. */
  lemma EffectiveTimes(m: nat, alpha: real, control: Control)
    requires m >= 1
    ensures !control.EBy? ==> EffectiveAlpha(m, alpha, control) == alpha
    ensures control.EBy? ==> EffectiveAlpha(m, alpha, control) * Harmonic(m) == alpha
  {
    if control.EBy? { QuotientTimes(alpha, Harmonic(m), EffectiveAlpha(m, alpha, control)); }
  }

  /** The inverse of the threshold of rank k, or 0 for k = 0. */
  function InverseThreshold(m: nat, a: real, k: nat): real
    requires m >= 1 && a > 0.0
  {
    if k == 0 then 0.0
    else
      ThresholdTimes(m, a, k, 0.0);
      assert Threshold(m, a, k) != 0.0;
      1.0 / Threshold(m, a, k)
  }

  /** What rank k adds, (1/T(k) - 1/T(k-1)) / k. */
  function RankShare(m: nat, a: real, k: nat): real
    requires m >= 1 && a > 0.0 && k >= 1
  {
    (InverseThreshold(m, a, k) - InverseThreshold(m, a, k - 1)) / k as real
  }

  function RankSum(m: nat, a: real, n: nat): real
    requires m >= 1 && a > 0.0
  {
    if n == 0 then 0.0 else RankSum(m, a, n - 1) + RankShare(m, a, n)
  }

  lemma InverseIs(m: nat, a: real, k: nat, q: real)
    requires m >= 1 && a > 0.0 && q * m as real == a
    ensures InverseThreshold(m, a, k) == q * k as real
  {
    if k > 0 {
      ThresholdTimes(m, a, k, 0.0);
      InverseOf(Threshold(m, a, k), a * k as real, m as real, q, k as real);
    }
  }

  lemma InverseOf(t: real, d: real, m: real, q: real, k: real)
    requires t != 0.0 && m > 0.0 && t * d == m && d == (q * m) * k
    ensures 1.0 / t == q * k
  {
    var i, p := 1.0 / t, q * k;
    assert i * t == 1.0;
    assert d == m * p;
    assert t * (m * p) == m * (t * p);
    assert m * (t * p - 1.0) == 0.0;
    assert t * p == 1.0;
    assert t * (i - p) == 0.0;
  }

  lemma RankShareIs(m: nat, a: real, k: nat, q: real)
    requires m >= 1 && a > 0.0 && k >= 1 && q * m as real == a
    ensures RankShare(m, a, k) == q / k as real
  {
    InverseIs(m, a, k, q);
    InverseIs(m, a, k - 1, q);
    assert q * k as real - q * (k - 1) as real == q;
  }

  lemma {:induction false} RankSumIs(m: nat, a: real, q: real, n: nat)
    requires m >= 1 && a > 0.0 && q * m as real == a
    ensures RankSum(m, a, n) == q * Harmonic(n)
  {
    if n > 0 {
      RankSumIs(m, a, q, n - 1);
      RankShareIs(m, a, n, q);
      ShareOfSum(q, n, Harmonic(n - 1));
    }
  }

  lemma ShareOfSum(q: real, n: nat, h: real)
    requires n >= 1
    ensures q * h + q / n as real == q * (h + 1.0 / n as real)
  {
    var i, y := 1.0 / n as real, q / n as real;
    QuotientTimes(1.0, n as real, i);
    QuotientTimes(q, n as real, y);
    assert (y - q * i) * n as real == q - q * (i * n as real);
    assert q * (h + i) == q * h + q * i;
  }

  /** With the correction the ranks together spend exactly alpha over m, which is what the
      factor for arbitrary dependence is for. */
  lemma CorrectionSpendsAlpha(m: nat, alpha: real, a: real)
    requires m >= 1 && alpha > 0.0 && a == EffectiveAlpha(m, alpha, EBy)
    ensures a > 0.0 && RankSum(m, a, m) * m as real == alpha
  {
    EffectivePositive(m, alpha, EBy);
    EffectiveTimes(m, alpha, EBy);
    var q := Divided(a, m);
    RankSumIs(m, a, q, m);
    Regrouped(q, Harmonic(m), m as real);
  }

  lemma Divided(a: real, m: nat) returns (q: real)
    requires m >= 1
    ensures q * m as real == a
  {
    q := a / m as real;
  }

  lemma Regrouped(q: real, h: real, m: real)
    ensures q * h * m == (q * m) * h
  {}

  // ------------------------------------------------- the rule, without an order

  /** How many candidates reach t. */
  function Reaching(cs: seq<Candidate>, t: real): nat {
    if |cs| == 0 then 0 else (if cs[0].eValue >= t then 1 else 0) + Reaching(cs[1..], t)
  }

  /** How many candidates exceed t. */
  function Above(cs: seq<Candidate>, t: real): (n: nat)
    ensures n <= |cs|
  {
    if |cs| == 0 then 0 else (if cs[0].eValue > t then 1 else 0) + Above(cs[1..], t)
  }

  /** k candidates can be selected: at least k of them reach the threshold of rank k. */
  predicate Supports(cs: seq<Candidate>, a: real, k: nat)
    requires a > 0.0
  {
    1 <= k <= |cs| && Reaching(cs, Threshold(|cs|, a, k)) >= k
  }

  /** The largest such k, or none. */
  ghost predicate IsLargest(cs: seq<Candidate>, a: real, k: nat)
    requires a > 0.0
  {
    (k == 0 || Supports(cs, a, k)) && forall j | k < j <= |cs| :: !Supports(cs, a, j)
  }

  // ------------------------------------------------------------ order statistics

  lemma {:induction false} ReachingBounds(cs: seq<Candidate>, t: real)
    ensures Reaching(cs, t) <= |cs|
    ensures (forall i | 0 <= i < |cs| :: cs[i].eValue < t) ==> Reaching(cs, t) == 0
  {
    if |cs| > 0 { ReachingBounds(cs[1..], t); }
  }

  /** In descending order the k-th value reaches t exactly when k values do. */
  lemma {:induction false} OrderStatistic(cs: seq<Candidate>, t: real, k: nat)
    requires Descending(cs, EValue) && 1 <= k <= |cs|
    ensures cs[k - 1].eValue >= t <==> Reaching(cs, t) >= k
  {
    if cs[0].eValue < t {
      forall i | 0 <= i < |cs| ensures cs[i].eValue < t {
        assert i > 0 ==> EValue(cs[0]) >= EValue(cs[i]);
      }
      ReachingBounds(cs, t);
    } else if k > 1 {
      OrderStatistic(cs[1..], t, k - 1);
    }
  }

  function Reach(t: real): Candidate -> real { (c: Candidate) => if c.eValue >= t then 1.0 else 0.0 }

  lemma {:induction false} ReachingIsTotal(cs: seq<Candidate>, t: real)
    ensures Reaching(cs, t) as real == Totals.Total(cs, Reach(t))
  {
    if |cs| > 0 {
      ReachingIsTotal(cs[1..], t);
      Totals.TotalRemove(cs, 0, Reach(t));
      assert cs[..0] + cs[1..] == cs[1..];
    }
  }

  /** Counting does not depend on the order. */
  lemma ReachingIgnoresOrder(cs: seq<Candidate>, cs': seq<Candidate>, t: real)
    requires multiset(cs) == multiset(cs')
    ensures Reaching(cs, t) == Reaching(cs', t)
  {
    ReachingIsTotal(cs, t);
    ReachingIsTotal(cs', t);
    Totals.TotalIgnoresOrder(cs, cs', Reach(t));
  }

  lemma {:induction false} ReachingAntitone(cs: seq<Candidate>, t: real, t': real)
    requires t <= t'
    ensures Reaching(cs, t') <= Reaching(cs, t)
  {
    if |cs| > 0 { ReachingAntitone(cs[1..], t, t'); }
  }

  lemma {:induction false} ReachingMonotone(cs: seq<Candidate>, cs': seq<Candidate>, t: real)
    requires |cs| == |cs'| && forall i | 0 <= i < |cs| :: cs[i].eValue <= cs'[i].eValue
    ensures Reaching(cs, t) <= Reaching(cs', t)
  {
    if |cs| > 0 { ReachingMonotone(cs[1..], cs'[1..], t); }
  }

  lemma DivideAntitone(x: real, d: real, d': real)
    requires x >= 0.0 && 0.0 < d <= d'
    ensures x / d' <= x / d
  {
    var p, q := x / d, x / d';
    assert p * d == x && q * d' == x;
    assert q >= 0.0;
    assert q * (d' - d) >= 0.0;
    assert (p - q) * d == q * (d' - d);
  }

  lemma ThresholdFalls(m: nat, a: real, k: nat, a': real, k': nat)
    requires 0.0 < a <= a' && 1 <= k <= k'
    ensures Threshold(m, a', k') <= Threshold(m, a, k)
  {
    var d, d' := a * k as real, a' * k' as real;
    assert d' - d == (a' - a) * k' as real + a * (k' as real - k as real);
    DivideAntitone(m as real, d, d');
  }

  // ----------------------------------------------------------------- selection

  lemma LargestIgnoresOrder(cs: seq<Candidate>, cs': seq<Candidate>, a: real, k: nat)
    requires a > 0.0 && multiset(cs) == multiset(cs')
    ensures IsLargest(cs, a, k) <==> IsLargest(cs', a, k)
  {
    assert |cs| == |multiset(cs)| == |cs'|;
    forall j | 1 <= j <= |cs| ensures Supports(cs, a, j) <==> Supports(cs', a, j) {
      ReachingIgnoresOrder(cs, cs', Threshold(|cs|, a, j));
    }
  }

  /** The scan over the ranks: the last rank whose value reaches its threshold. */
  method LastSupported(sorted: seq<Candidate>, a: real) returns (k: nat)
    requires a > 0.0 && Descending(sorted, EValue)
    ensures IsLargest(sorted, a, k) && k <= |sorted|
  {
    k := 0;
    var rank := 1;
    while rank <= |sorted|
      invariant 1 <= rank <= |sorted| + 1 && k < rank
      invariant k == 0 || Supports(sorted, a, k)
      invariant forall j | k < j < rank :: !Supports(sorted, a, j)
    {
      OrderStatistic(sorted, Threshold(|sorted|, a, rank), rank);
      if sorted[rank - 1].eValue >= Threshold(|sorted|, a, rank) {
        k := rank;
      }
      rank := rank + 1;
    }
  }

  /** The e-values at the indices in S support S by its own size. */
  ghost predicate SelfConsistent(cs: seq<Candidate>, a: real, S: set<nat>) {
    forall i | i in S :: i < |cs| && Earns(a, |S|, cs[i].eValue, |cs|)
  }

  /** An e-value supports k selected out of m. */
  ghost predicate Earns(a: real, k: nat, e: real, m: nat) { a * k as real * e >= m as real }

  lemma {:induction false} ReachingCounts(cs: seq<Candidate>, t: real, S: set<nat>)
    requires forall i | i in S :: i < |cs| && cs[i].eValue >= t
    ensures |S| <= Reaching(cs, t)
    decreases |cs|
  {
    if |cs| > 0 {
      var front, n := cs[..|cs| - 1], |cs| - 1;
      var S' := S - {n};
      ReachingCounts(front, t, S');
      ReachingIsTotal(cs, t);
      ReachingIsTotal(front, t);
      assert |S| <= |S'| + if n in S then 1 else 0;
    } else {
      assert S == {};
    }
  }

  /** The number selected is that of the largest set of candidates that is consistent with its
      own size: no such set is larger, and the first k in the ranking are one. */
  lemma LargestSelfConsistent(cs: seq<Candidate>, a: real, k: nat, S: set<nat>)
    requires a > 0.0 && IsLargest(cs, a, k) && SelfConsistent(cs, a, S)
    ensures |S| <= k
  {
    if |S| >= 1 {
      var t := Threshold(|cs|, a, |S|);
      forall i | i in S ensures cs[i].eValue >= t { ThresholdTimes(|cs|, a, |S|, cs[i].eValue); }
      ReachingCounts(cs, t, S);
      ReachingBounds(cs, t);
      assert Supports(cs, a, |S|);
    }
  }

  lemma SelectedEarns(sorted: seq<Candidate>, a: real, k: nat, i: nat)
    requires a > 0.0 && Descending(sorted, EValue) && IsLargest(sorted, a, k) && i < k <= |sorted|
    ensures Earns(a, k, sorted[i].eValue, |sorted|)
  {
    SelectedByThreshold(sorted, a, k, i);
    ThresholdTimes(|sorted|, a, k, sorted[i].eValue);
  }

  /** The p-value reported is the inverse of the e-value, capped at one. */
  lemma PValueExact(e: real)
    ensures e >= 1.0 ==> PValue(e) * e == 1.0
    ensures e <= 1.0 ==> PValue(e) == 1.0
  {
    if e > 0.0 {
      QuotientTimes(1.0, e, 1.0 / e);
      TimesCompares(1.0 / e, 1.0, e);
    }
  }

  function PValue(e: real): real {
    if e > 0.0 then (if 1.0 / e < 1.0 then 1.0 / e else 1.0) else 1.0
  }

  lemma EffectivePositive(m: nat, alpha: real, control: Control)
    requires m >= 1 && alpha > 0.0
    ensures 0.0 < EffectiveAlpha(m, alpha, control) <= alpha
  {
    var h := Harmonic(m);
    var q := alpha / h;
    assert q * h == alpha;
    if control.EBy? {
      assert q > 0.0;
      assert q * (h - 1.0) >= 0.0;
    }
  }

  /** The diagnostics for the ranked candidates, of which the first k are selected. */
  function Ranked(sorted: seq<Candidate>, a: real, k: nat): seq<Selection>
    requires a > 0.0
  {
    seq(|sorted|, i requires 0 <= i < |sorted| =>
      Selection(sorted[i].target, sorted[i].eValue, PValue(sorted[i].eValue), i + 1,
                Threshold(|sorted|, a, i + 1), i + 1 <= k))
  }

  /** The diagnostics of one candidate, and who is selected. */
  lemma RankedExactly(sorted: seq<Candidate>, a: real, k: nat, i: nat)
    requires a > 0.0 && k <= |sorted| && i < |sorted|
    ensures var c := Ranked(sorted, a, k)[i];
            && c.target == sorted[i].target && c.eValue == sorted[i].eValue
            && c.rank == i + 1 && (c.selected <==> i < k) && c.pValue == PValue(sorted[i].eValue)
    ensures |Ranked(sorted, a, k)| == |sorted| && |Targets(sorted[..k])| == k
    ensures i < k ==> Targets(sorted[..k])[i] == sorted[i].target
  {}

  function Targets(cs: seq<Candidate>): seq<Target> {
    seq(|cs|, i requires 0 <= i < |cs| => cs[i].target)
  }

  /** What the selection means, without the thresholds: the first k of the ranking support
      each other, no larger set of candidates does, and each threshold is m / (a rank). */
  ghost predicate IsSelection(cs: seq<Candidate>, a: real, r: Outcome)
    requires r.Chosen?
  {
    var k, m := r.selectedK, |cs|;
    && k <= m == |r.candidates| == |Sort(cs, EValue)|
    && (forall i | 0 <= i < k :: Earns(a, k, r.candidates[i].eValue, m))
    && (forall S | SelfConsistent(cs, a, S) :: |S| <= k)
  }

  ghost predicate HasThresholds(a: real, r: Outcome)
    requires r.Chosen?
  {
    var k, m := r.selectedK, |r.candidates|;
    && (forall i | 0 <= i < m :: IsThreshold(r.candidates[i].threshold, a, i + 1, m))
    && (k == 0 ==> r.boundary == None)
    && (k > 0 ==> r.boundary.Some? && IsThreshold(r.boundary.value, a, k, m))
  }

  ghost predicate IsThreshold(t: real, a: real, k: nat, m: nat) { t * (a * k as real) == m as real }

  lemma ChosenIsSelection(cs: seq<Candidate>, a: real, r: Outcome)
    requires a > 0.0 && r.Chosen? && IsLargest(cs, a, r.selectedK) && r.selectedK <= |cs|
    requires r.candidates == Ranked(Sort(cs, EValue), a, r.selectedK)
    ensures IsSelection(cs, a, r)
  {
    var sorted, k := Sort(cs, EValue), r.selectedK;
    SortMultiset(cs, EValue);
    SortDescending(cs, EValue);
    LargestIgnoresOrder(cs, sorted, a, k);
    forall i | 0 <= i < k ensures Earns(a, k, r.candidates[i].eValue, |cs|) {
      SelectedEarns(sorted, a, k, i);
    }
    forall S | SelfConsistent(cs, a, S) ensures |S| <= k { LargestSelfConsistent(cs, a, k, S); }
  }

  lemma ChosenHasThresholds(sorted: seq<Candidate>, a: real, r: Outcome)
    requires a > 0.0 && r.Chosen? && r.candidates == Ranked(sorted, a, r.selectedK)
    requires r.boundary == if r.selectedK == 0 then None else Some(Threshold(|sorted|, a, r.selectedK))
    ensures HasThresholds(a, r)
  {
    forall i | 0 <= i < |sorted|
      ensures IsThreshold(r.candidates[i].threshold, a, i + 1, |sorted|)
    {
      ThresholdTimes(|sorted|, a, i + 1, 0.0);
    }
    if r.selectedK > 0 { ThresholdTimes(|sorted|, a, r.selectedK, 0.0); }
  }

  /** The effective level: alpha, or alpha over the harmonic number for the correction. */
  ghost predicate IsLevel(a: real, m: nat, alpha: real, control: Control) {
    a > 0.0 && if control.EBy? then a * Harmonic(m) == alpha else a == alpha
  }

  lemma LevelOf(m: nat, alpha: real, control: Control)
    requires m >= 1 && alpha > 0.0
    ensures IsLevel(EffectiveAlpha(m, alpha, control), m, alpha, control)
  {
    EffectivePositive(m, alpha, control);
    EffectiveTimes(m, alpha, control);
  }

  /** `select_fdr`. */
  method SelectFdr(cs: seq<Candidate>, alpha: real, control: Control) returns (r: Outcome)
    ensures r.InvalidAlpha? <==> alpha <= 0.0 || alpha > 1.0
    ensures r.NoCandidates? <==> 0.0 < alpha <= 1.0 && |cs| == 0
    ensures r.NegativeEvalue? <==> 0.0 < alpha <= 1.0 && |cs| > 0 && exists c | c in cs :: c.eValue < 0.0
    ensures r.Chosen? ==>
              var a := EffectiveAlpha(|cs|, alpha, control);
              && IsLevel(a, |cs|, alpha, control) && HasThresholds(a, r)
              && (!control.NoControl? ==> IsSelection(cs, a, r))
    ensures r.Chosen? ==>
              var sorted, a := Sort(cs, EValue), EffectiveAlpha(|cs|, alpha, control);
              && a > 0.0
              && (control.NoControl? ==> r.selectedK == Above(sorted, 1.0))
              && (!control.NoControl? ==> IsLargest(cs, a, r.selectedK))
              && r.selectedK <= |sorted| == |cs|
              && r.candidates == Ranked(sorted, a, r.selectedK)
              && r.selectedIds == Targets(sorted[..r.selectedK])
              && r.boundary == if r.selectedK == 0 then None else Some(Threshold(|cs|, a, r.selectedK))
  {
    if alpha <= 0.0 || alpha > 1.0 {
      return InvalidAlpha;
    }
    if |cs| == 0 {
      return NoCandidates;
    }
    var i := 0;
    while i < |cs|
      invariant 0 <= i <= |cs|
      invariant forall j | 0 <= j < i :: cs[j].eValue >= 0.0
    {
      if cs[i].eValue < 0.0 {
        assert cs[i] in cs;
        return NegativeEvalue;
      }
      i := i + 1;
    }
    assert forall c | c in cs :: c.eValue >= 0.0;
    var sorted := Sort(cs, EValue);
    SortMultiset(cs, EValue);
    SortDescending(cs, EValue);
    var a := EffectiveAlpha(|cs|, alpha, control);
    EffectivePositive(|cs|, alpha, control);
    var k: nat;
    if control.NoControl? {
      k := Above(sorted, 1.0);
    } else {
      k := LastSupported(sorted, a);
      LargestIgnoresOrder(sorted, cs, a, k);
    }
    var boundary := if k == 0 then None else Some(Threshold(|cs|, a, k));
    r := Chosen(k, boundary, Ranked(sorted, a, k), Targets(sorted[..k]));
    LevelOf(|cs|, alpha, control);
    ChosenHasThresholds(sorted, a, r);
    if !control.NoControl? { ChosenIsSelection(cs, a, r); }
  }

  // ----------------------------------------------------------------- the theorems

  /** The largest k is unique. */
  lemma OneLargest(cs: seq<Candidate>, a: real, k: nat, k': nat)
    requires a > 0.0 && k <= |cs| && k' <= |cs| && IsLargest(cs, a, k) && IsLargest(cs, a, k')
    ensures k == k'
  {}

  /** A candidate is among the first k exactly when its e-value reaches the boundary
      threshold. So equal e-values are selected or left together, the selected set does not
      depend on the order of the input, and each selected e-value is at least m / (a k). */
  lemma SelectedByThreshold(sorted: seq<Candidate>, a: real, k: nat, i: nat)
    requires a > 0.0 && Descending(sorted, EValue) && IsLargest(sorted, a, k)
    requires 1 <= k <= |sorted| && i < |sorted|
    ensures i < k <==> sorted[i].eValue >= Threshold(|sorted|, a, k)
  {
    var t := Threshold(|sorted|, a, k);
    OrderStatistic(sorted, t, k);
    if i < k {
      assert EValue(sorted[i]) >= EValue(sorted[k - 1]) || i == k - 1;
    } else {
      OrderStatistic(sorted, t, i + 1);
      if sorted[i].eValue >= t {
        ThresholdFalls(|sorted|, a, k, a, k + 1);
        ReachingAntitone(sorted, Threshold(|sorted|, a, k + 1), t);
        assert Supports(sorted, a, k + 1);
      }
    }
  }

  // ------------------------------------------------------- why e-values suffice

  /** The sum of the e-values at the indices of N below n. */
  function Evidence(sorted: seq<Candidate>, N: set<nat>, n: nat): real
    requires n <= |sorted|
  {
    if n == 0 then 0.0 else Evidence(sorted, N, n - 1) + if n - 1 in N then sorted[n - 1].eValue else 0.0
  }

  /** How many of the first k, up to n, are in N. */
  function SelectedFrom(N: set<nat>, k: nat, n: nat): nat {
    if n == 0 then 0 else SelectedFrom(N, k, n - 1) + if n - 1 in N && n - 1 < k then 1 else 0
  }

  /** How many of N are among the first k and n, as a set; and the evidence, from the left. */
  lemma {:induction false} SelectedFromCounts(N: set<nat>, k: nat, n: nat)
    ensures SelectedFrom(N, k, n) == |(set i | i in N && i < n && i < k)|
  {
    var s := set i | i in N && i < n && i < k;
    if n > 0 {
      SelectedFromCounts(N, k, n - 1);
      var s' := set i | i in N && i < n - 1 && i < k;
      assert s == s' + if n - 1 in N && n - 1 < k then {n - 1} else {};
    } else {
      assert s == {};
    }
  }

  lemma EvidenceExactly(sorted: seq<Candidate>, N: set<nat>, n: nat)
    requires n < |sorted|
    ensures Evidence(sorted, N, 0) == 0.0
    ensures Evidence(sorted, N, n + 1) == Evidence(sorted, N, n) + if n in N then sorted[n].eValue else 0.0
  {}

  lemma {:induction false} EvidenceCovers(sorted: seq<Candidate>, N: set<nat>, t: real, k: nat, n: nat)
    requires n <= |sorted| && forall i | 0 <= i < |sorted| :: sorted[i].eValue >= 0.0
    requires forall i | 0 <= i < |sorted| && i < k :: sorted[i].eValue >= t
    ensures SelectedFrom(N, k, n) as real * t <= Evidence(sorted, N, n)
  {
    if n > 0 {
      EvidenceCovers(sorted, N, t, k, n - 1);
      var c := SelectedFrom(N, k, n - 1);
      assert (c + 1) as real * t == c as real * t + t;
    }
  }

  /** Whatever set N of candidates, each selected member of it is backed by m / (a k) of its
      e-values. */
  lemma FalseSelectionsAreBacked(sorted: seq<Candidate>, a: real, k: nat, N: set<nat>)
    requires a > 0.0 && Descending(sorted, EValue) && IsLargest(sorted, a, k) && 1 <= k <= |sorted|
    requires forall i | 0 <= i < |sorted| :: sorted[i].eValue >= 0.0
    ensures SelectedFrom(N, k, |sorted|) as real * Threshold(|sorted|, a, k) <= Evidence(sorted, N, |sorted|)
  {
    forall i | 0 <= i < |sorted| && i < k ensures sorted[i].eValue >= Threshold(|sorted|, a, k) {
      SelectedByThreshold(sorted, a, k, i);
    }
    EvidenceCovers(sorted, N, Threshold(|sorted|, a, k), k, |sorted|);
  }

  /** So when N are the candidates that should not be killed and their e-values are at most one
      on average, a bounds the expected share of N among the selected: m times the number
      selected from N is at most a k times the sum of its e-values. */
  lemma FalseShareIsBounded(sorted: seq<Candidate>, a: real, k: nat, N: set<nat>, s: real, e: real)
    requires a > 0.0 && Descending(sorted, EValue) && IsLargest(sorted, a, k) && 1 <= k <= |sorted|
    requires forall i | 0 <= i < |sorted| :: sorted[i].eValue >= 0.0
    requires s == SelectedFrom(N, k, |sorted|) as real && e == Evidence(sorted, N, |sorted|)
    ensures |sorted| as real * s <= a * k as real * e
  {
    FalseSelectionsAreBacked(sorted, a, k, N);
    var d := a * k as real;
    assert d > 0.0;
    Scaled(s, Threshold(|sorted|, a, k), e, d, |sorted| as real);
  }

  lemma Scaled(s: real, t: real, e: real, d: real, m: real)
    requires d > 0.0 && t == m / d && s * t <= e
    ensures m * s <= d * e
  {
    assert t * d == m;
    assert d * (e - s * t) >= 0.0;
    assert d * (s * t) == s * (t * d);
  }

  /** Raising e-values, or alpha, never lowers the number selected. */
  lemma SelectionIsMonotone(cs: seq<Candidate>, a: real, k: nat, cs': seq<Candidate>, a': real, k': nat)
    requires |cs| == |cs'| && forall i | 0 <= i < |cs| :: cs[i].eValue <= cs'[i].eValue
    requires 0.0 < a <= a' && IsLargest(cs, a, k) && IsLargest(cs', a', k')
    ensures k <= k'
  {
    if k > 0 {
      var t, t' := Threshold(|cs|, a, k), Threshold(|cs|, a', k);
      ThresholdFalls(|cs|, a, k, a', k);
      ReachingAntitone(cs, t', t);
      ReachingMonotone(cs, cs', t');
      assert Supports(cs', a', k);
    }
  }

  /** The correction for arbitrary dependence selects no more. */
  lemma CorrectionIsConservative(cs: seq<Candidate>, alpha: real, k: nat, k': nat)
    requires |cs| >= 1 && alpha > 0.0
    requires EffectiveAlpha(|cs|, alpha, EBy) > 0.0 && IsLargest(cs, EffectiveAlpha(|cs|, alpha, EBy), k)
    requires IsLargest(cs, alpha, k')
    ensures k <= k'
  {
    EffectivePositive(|cs|, alpha, EBy);
    SelectionIsMonotone(cs, EffectiveAlpha(|cs|, alpha, EBy), k, cs, alpha, k');
  }

  /** The order of the input does not change how many are selected, nor who: a candidate's
      place in either sorted list decides alike. */
  lemma SelectionIgnoresOrder(cs: seq<Candidate>, cs': seq<Candidate>, a: real, k: nat, k': nat, i: nat, j: nat)
    requires a > 0.0 && multiset(cs) == multiset(cs')
    requires k <= |cs| && k' <= |cs'| && IsLargest(cs, a, k) && IsLargest(cs', a, k')
    requires i < |Sort(cs, EValue)| && j < |Sort(cs', EValue)| && Sort(cs, EValue)[i] == Sort(cs', EValue)[j]
    ensures k == k' && (i < k <==> j < k')
  {
    assert |cs| == |multiset(cs)| == |cs'|;
    LargestIgnoresOrder(cs, cs', a, k');
    OneLargest(cs, a, k, k');
    SortMultiset(cs, EValue);
    SortMultiset(cs', EValue);
    if k > 0 {
      var s, s' := Sort(cs, EValue), Sort(cs', EValue);
      SortDescending(cs, EValue);
      SortDescending(cs', EValue);
      LargestIgnoresOrder(cs, s, a, k);
      LargestIgnoresOrder(cs', s', a, k);
      SelectedByThreshold(s, a, k, i);
      SelectedByThreshold(s', a, k, j);
    }
  }

  /** Without control the selected are the candidates with an e-value above one. */
  lemma {:induction false} AboveByRank(sorted: seq<Candidate>, t: real, i: nat)
    requires Descending(sorted, EValue) && i < |sorted|
    ensures i < Above(sorted, t) <==> sorted[i].eValue > t
  {
    if sorted[0].eValue <= t {
      AboveNone(sorted, t);
      assert i > 0 ==> EValue(sorted[0]) >= EValue(sorted[i]);
    } else if i > 0 {
      AboveByRank(sorted[1..], t, i - 1);
    }
  }

  lemma {:induction false} AboveNone(sorted: seq<Candidate>, t: real)
    requires Descending(sorted, EValue) && |sorted| > 0 && sorted[0].eValue <= t
    ensures Above(sorted, t) == 0
  {
    if |sorted| > 1 {
      assert EValue(sorted[0]) >= EValue(sorted[1]);
      AboveNone(sorted[1..], t);
    }
  }
}
