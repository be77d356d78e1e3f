/** Kill plans for one resource goal (pt-core/src/decision/goal_optimizer.rs), over the
    reals: what a plan costs and gains, and which plans the candidates allow. */
module Plans {
  import opened Totals

  datatype Goal = Goal(resource: string, target: real, weight: real)

  datatype Candidate = Candidate(id: string, expectedLoss: real, contributions: seq<real>, blocked: bool)

  /** Why an exact optimizer hands over to the greedy one. */
  datatype Fallback = Unsupported | NothingEligible | TooManyCandidates | Infeasible

  datatype Outcome =
    | Plan(selected: seq<Candidate>, totalLoss: real, achieved: real, met: bool)
    | GreedyFallback(why: Fallback)

  /** Every candidate says what it contributes to the goal. */
  ghost predicate Contributing(cs: seq<Candidate>) {
    forall i | 0 <= i < |cs| :: |cs[i].contributions| >= 1
  }

  /** What a candidate contributes to the first goal. */
  function Gain(c: Candidate): real {
    if |c.contributions| == 0 then 0.0 else c.contributions[0]
  }

  function Eligible(cs: seq<Candidate>): (r: seq<Candidate>)
    ensures forall i | 0 <= i < |r| :: r[i] in cs && !r[i].blocked && r[i].expectedLoss >= 0.0
  {
    if |cs| == 0 then []
    else
      var rest := Eligible(cs[1..]);
      if !cs[0].blocked && cs[0].expectedLoss >= 0.0 then [cs[0]] + rest else rest
  }

  /** The candidates that may be selected, counted by their indices. */
  ghost function EligibleIndices(cs: seq<Candidate>): set<int> {
    set i | 0 <= i < |cs| && !cs[i].blocked && cs[i].expectedLoss >= 0.0
  }

  /** Filtering keeps exactly these candidates, each as often as it is offered, and their order. */
  lemma {:induction false} EligibleExactly(cs: seq<Candidate>, more: seq<Candidate>, c: Candidate)
    ensures multiset(Eligible(cs))[c] == if c.blocked || c.expectedLoss < 0.0 then 0 else multiset(cs)[c]
    ensures Eligible(cs + more) == Eligible(cs) + Eligible(more)
    ensures |Eligible(cs)| == |EligibleIndices(cs)|
  {
    EligibleMultiplicity(cs, c);
    EligibleConcat(cs, more);
    EligibleCount(cs);
  }

  lemma CountFirst(cs: seq<Candidate>, c: Candidate)
    requires |cs| > 0
    ensures multiset(cs)[c] == (if cs[0] == c then 1 else 0) + multiset(cs[1..])[c]
  {
    assert cs == [cs[0]] + cs[1..];
  }

  lemma CountKept(first: Candidate, rest: seq<Candidate>, c: Candidate)
    ensures multiset(Kept(first) + rest)[c]
         == (if first == c && !c.blocked && c.expectedLoss >= 0.0 then 1 else 0) + multiset(rest)[c]
  {}

  lemma {:induction false} EligibleMultiplicity(cs: seq<Candidate>, c: Candidate)
    ensures multiset(Eligible(cs))[c] == if c.blocked || c.expectedLoss < 0.0 then 0 else multiset(cs)[c]
  {
    if |cs| > 0 {
      EligibleMultiplicity(cs[1..], c);
      EligibleTail(cs);
      CountFirst(cs, c);
      CountKept(cs[0], Eligible(cs[1..]), c);
    }
  }

  lemma {:induction false} EligibleConcat(cs: seq<Candidate>, more: seq<Candidate>)
    ensures Eligible(cs + more) == Eligible(cs) + Eligible(more)
  {
    if |cs| == 0 {
      assert cs + more == more;
    } else {
      var c, rest := cs[0], cs[1..];
      EligibleConcat(rest, more);
      EligibleFirst(c, rest, more);
      Regroup(Kept(c), Eligible(rest), Eligible(more));
      assert cs == [c] + rest;
    }
  }

  lemma Regroup<T>(a: seq<T>, b: seq<T>, c: seq<T>)
    ensures a + (b + c) == (a + b) + c
  {}

  function Kept(c: Candidate): seq<Candidate> {
    if !c.blocked && c.expectedLoss >= 0.0 then [c] else []
  }

  lemma EligibleFirst(c: Candidate, rest: seq<Candidate>, more: seq<Candidate>)
    ensures Eligible([c] + rest) == Kept(c) + Eligible(rest)
    ensures Eligible(([c] + rest) + more) == Kept(c) + Eligible(rest + more)
  {
    EligibleTail([c] + rest);
    EligibleTail(([c] + rest) + more);
    assert ([c] + rest)[1..] == rest;
    assert (([c] + rest) + more)[1..] == rest + more;
  }

  lemma EligibleTail(cs: seq<Candidate>)
    requires |cs| > 0
    ensures Eligible(cs) == Kept(cs[0]) + Eligible(cs[1..])
  {
    assert [] + Eligible(cs[1..]) == Eligible(cs[1..]);
  }

  lemma IndicesAfter(front: seq<Candidate>, last: Candidate)
    ensures |EligibleIndices(front + [last])| == |EligibleIndices(front)| + |Kept(last)|
  {
    var cs, n: int := front + [last], |front|;
    var s, s' := EligibleIndices(cs), EligibleIndices(front);
    assert n !in s';
    if Kept(last) == [] { assert s == s'; } else { assert s == s' + {n}; }
  }

  lemma {:induction false} EligibleCount(cs: seq<Candidate>)
    ensures |Eligible(cs)| == |EligibleIndices(cs)|
  {
    if |cs| > 0 {
      var front, last := cs[..|cs| - 1], cs[|cs| - 1];
      EligibleCount(front);
      EligibleConcat(front, [last]);
      assert cs == front + [last];
      IndicesAfter(front, last);
      assert Eligible([last]) == Kept(last) + Eligible([]);
    }
  }

  /** A plan may be carried out: it uses offered candidates, none of them blocked or of
      negative loss. */
  ghost predicate Offered(cs: seq<Candidate>, plan: seq<Candidate>) {
    && multiset(plan) <= multiset(cs)
    && forall i | 0 <= i < |plan| :: !plan[i].blocked && plan[i].expectedLoss >= 0.0
  }

  /** The plans the eligible candidates allow are the plans that may be carried out. */
  lemma OfferedExactly(cs: seq<Candidate>, plan: seq<Candidate>)
    ensures Allowed(Eligible(cs), plan) <==> Offered(cs, plan)
  {
    forall c ensures multiset(plan)[c] <= multiset(Eligible(cs))[c]
                <==> multiset(plan)[c] <= multiset(cs)[c]
                     && (multiset(plan)[c] > 0 ==> !c.blocked && c.expectedLoss >= 0.0) {
      EligibleMultiplicity(cs, c);
    }
    if Allowed(Eligible(cs), plan) {
      forall i | 0 <= i < |plan| ensures !plan[i].blocked && plan[i].expectedLoss >= 0.0 {
        assert multiset(plan)[plan[i]] > 0;
      }
      assert forall c :: multiset(plan)[c] <= multiset(cs)[c];
    }
    if Offered(cs, plan) {
      forall c ensures multiset(plan)[c] <= multiset(Eligible(cs))[c] {
        if multiset(plan)[c] > 0 {
          assert c in plan;
          var i :| 0 <= i < |plan| && plan[i] == c;
        }
      }
    }
  }

  /** The gain is the first contribution. */
  lemma GainIsFirst(c: Candidate)
    requires |c.contributions| >= 1
    ensures Gain(c) == c.contributions[0] && TotalGain([c]) == c.contributions[0] && TotalLoss([c]) == c.expectedLoss
  {
    LossOfFront([], c);
    assert [] + [c] == [c];
  }

  function Loss(c: Candidate): real { c.expectedLoss }

  function TotalLoss(cs: seq<Candidate>): real { Total(cs, Loss) }

  function TotalGain(cs: seq<Candidate>): real { Total(cs, Gain) }

  /** The plan uses each candidate at most as often as it is offered. */
  ghost predicate Allowed(cs: seq<Candidate>, plan: seq<Candidate>) {
    multiset(plan) <= multiset(cs)
  }

  ghost predicate NoLosses(cs: seq<Candidate>) {
    forall i | 0 <= i < |cs| :: cs[i].expectedLoss >= 0.0
  }

  // -------------------------------------------------------- totals of index sets

  function Losses(cs: seq<Candidate>): seq<real> {
    seq(|cs|, i requires 0 <= i < |cs| => cs[i].expectedLoss)
  }

  function Gains(cs: seq<Candidate>): seq<real> {
    seq(|cs|, i requires 0 <= i < |cs| => Gain(cs[i]))
  }

  ghost predicate Within(s: set<nat>, n: nat) { forall k | k in s :: k < n }

  /** The sum of w over the members of s below n. */
  function Sum(w: seq<real>, s: set<nat>, n: nat): real
    requires n <= |w|
  {
    if n == 0 then 0.0 else Sum(w, s, n - 1) + if n - 1 in s then w[n - 1] else 0.0
  }

  /** The candidates at the members of s below n, in order. */
  function Pick(cs: seq<Candidate>, s: set<nat>, n: nat): seq<Candidate>
    requires n <= |cs|
  {
    if n == 0 then []
    else
      var front := Pick(cs, s, n - 1);
      if n - 1 in s then front + [cs[n - 1]] else front
  }

  lemma {:induction false} SumAgrees(w: seq<real>, s: set<nat>, t: set<nat>, n: nat)
    requires n <= |w| && forall k | 0 <= k < n :: k in s <==> k in t
    ensures Sum(w, s, n) == Sum(w, t, n)
  {
    if n > 0 { SumAgrees(w, s, t, n - 1); }
  }

  lemma {:induction false} PickTotal(cs: seq<Candidate>, f: Candidate -> real, w: seq<real>, s: set<nat>, n: nat)
    requires n <= |cs| == |w| && forall i | 0 <= i < |cs| :: w[i] == f(cs[i])
    ensures Total(Pick(cs, s, n), f) == Sum(w, s, n)
  {
    if n > 0 {
      PickTotal(cs, f, w, s, n - 1);
      TotalAfter(Pick(cs, s, n - 1), cs[n - 1], f);
    }
  }

  lemma LossOfFront(p: seq<Candidate>, c: Candidate)
    ensures TotalLoss(p + [c]) == TotalLoss(p) + c.expectedLoss
    ensures TotalGain(p + [c]) == TotalGain(p) + Gain(c)
  {
    TotalAfter(p, c, Loss);
    TotalAfter(p, c, Gain);
  }

  lemma {:induction false} PickAllowed(cs: seq<Candidate>, s: set<nat>, n: nat)
    requires n <= |cs|
    ensures Allowed(cs[..n], Pick(cs, s, n))
  {
    if n > 0 {
      PickAllowed(cs, s, n - 1);
      assert cs[..n] == cs[..n - 1] + [cs[n - 1]];
      assert multiset(cs[..n]) == multiset(cs[..n - 1]) + multiset{cs[n - 1]};
    }
  }

  lemma PickTotals(cs: seq<Candidate>, s: set<nat>)
    ensures TotalLoss(Pick(cs, s, |cs|)) == Sum(Losses(cs), s, |cs|)
    ensures TotalGain(Pick(cs, s, |cs|)) == Sum(Gains(cs), s, |cs|)
    ensures Allowed(cs, Pick(cs, s, |cs|))
  {
    PickTotal(cs, Loss, Losses(cs), s, |cs|);
    PickTotal(cs, Gain, Gains(cs), s, |cs|);
    PickAllowed(cs, s, |cs|);
    assert cs[..|cs|] == cs;
  }

  // ------------------------------------------ every allowed plan is an index set's

  lemma TotalsIgnoreOrder(cs: seq<Candidate>, cs': seq<Candidate>)
    requires multiset(cs) == multiset(cs')
    ensures TotalLoss(cs) == TotalLoss(cs') && TotalGain(cs) == TotalGain(cs')
  {
    TotalIgnoresOrder(cs, cs', Loss);
    TotalIgnoresOrder(cs, cs', Gain);
  }

  /** An allowed plan has the candidates of some set of indices. */
  lemma {:induction false} IndicesOf(cs: seq<Candidate>, plan: seq<Candidate>) returns (s: set<nat>)
    requires Allowed(cs, plan)
    ensures Within(s, |cs|) && multiset(Pick(cs, s, |cs|)) == multiset(plan)
    decreases |cs|, 0
  {
    if |cs| == 0 {
      s := {};
      assert |plan| == |multiset(plan)| == 0;
    } else {
      var n := |cs| - 1;
      var front, last := cs[..n], cs[n];
      assert cs == front + [last];
      if last in plan {
        s := IndicesWith(front, last, plan);
      } else {
        AllowedWithout(front, last, plan);
        s := IndicesOf(front, plan);
        PickSame(front, last, s);
      }
    }
  }

  lemma {:induction false} IndicesWith(front: seq<Candidate>, last: Candidate, plan: seq<Candidate>)
    returns (s: set<nat>)
    requires Allowed(front + [last], plan) && last in plan
    ensures Within(s, |front| + 1) && multiset(Pick(front + [last], s, |front| + 1)) == multiset(plan)
    decreases |front|, 1
  {
    var i :| 0 <= i < |plan| && plan[i] == last;
    AllowedRemoved(front, last, plan, i);
    var rest := plan[..i] + plan[i + 1..];
    var t := IndicesOf(front, rest);
    s := t + {|front|};
    PickWith(front, last, t, plan, rest);
  }

  lemma AllowedRemoved(front: seq<Candidate>, last: Candidate, plan: seq<Candidate>, i: nat)
    requires Allowed(front + [last], plan) && i < |plan| && plan[i] == last
    ensures Allowed(front, plan[..i] + plan[i + 1..])
    ensures multiset(plan) == multiset(plan[..i] + plan[i + 1..]) + multiset{last}
  {
    RemoveOne(plan, i);
    assert last in multiset(plan);
  }

  lemma PickSame(front: seq<Candidate>, last: Candidate, s: set<nat>)
    requires Within(s, |front|)
    ensures Pick(front + [last], s, |front| + 1) == Pick(front, s, |front|)
  {
    PickFront(front + [last], front, s, s, |front|);
    assert |front| !in s;
  }

  lemma PickLast(front: seq<Candidate>, last: Candidate, t: set<nat>)
    requires Within(t, |front|)
    ensures Within(t + {|front|}, |front| + 1)
    ensures Pick(front + [last], t + {|front|}, |front| + 1) == Pick(front, t, |front|) + [last]
  {
    var n, s := |front|, t + {|front|};
    PickFront(front + [last], front, t, s, n);
    assert n in s;
  }

  lemma PickWith(front: seq<Candidate>, last: Candidate, t: set<nat>, plan: seq<Candidate>, rest: seq<Candidate>)
    requires Within(t, |front|) && multiset(Pick(front, t, |front|)) == multiset(rest)
    requires multiset(plan) == multiset(rest) + multiset{last}
    ensures Within(t + {|front|}, |front| + 1)
    ensures multiset(Pick(front + [last], t + {|front|}, |front| + 1)) == multiset(plan)
  {
    PickLast(front, last, t);
  }

  lemma AllowedWithout(front: seq<Candidate>, last: Candidate, plan: seq<Candidate>)
    requires Allowed(front + [last], plan) && last !in plan
    ensures Allowed(front, plan)
  {
    assert multiset(front + [last]) == multiset(front) + multiset{last};
    assert last !in multiset(plan);
  }

  lemma {:induction false} PickFront(cs: seq<Candidate>, cs': seq<Candidate>, s: set<nat>, t: set<nat>, n: nat)
    requires n <= |cs| && n <= |cs'| && forall k | 0 <= k < n :: cs[k] == cs'[k] && (k in s <==> k in t)
    ensures Pick(cs, t, n) == Pick(cs', s, n)
  {
    if n > 0 { PickFront(cs, cs', s, t, n - 1); }
  }

  /** So the totals of all allowed plans are the sums over index sets. */
  lemma PlanTotals(cs: seq<Candidate>, plan: seq<Candidate>) returns (s: set<nat>)
    requires Allowed(cs, plan)
    ensures Within(s, |cs|) && multiset(Pick(cs, s, |cs|)) == multiset(plan)
    ensures TotalLoss(plan) == Sum(Losses(cs), s, |cs|) && TotalGain(plan) == Sum(Gains(cs), s, |cs|)
  {
    s := IndicesOf(cs, plan);
    PickTotals(cs, s);
    TotalsIgnoreOrder(Pick(cs, s, |cs|), plan);
  }

  lemma {:induction false} LossNonNegative(plan: seq<Candidate>)
    requires NoLosses(plan)
    ensures TotalLoss(plan) >= 0.0
  {
    if |plan| > 0 { LossNonNegative(plan[..|plan| - 1]); }
  }
}
