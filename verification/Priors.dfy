/** Beta priors over the reals (pt-config/src/priors.rs). */
module Priors {
  import opened Wrappers

  datatype Beta = Beta(alpha: real, beta: real)

  predicate Validate(b: Beta) { !(b.alpha <= 0.0 || b.beta <= 0.0) }

  function Mean(b: Beta): real
    requires b.alpha + b.beta != 0.0
  {
    b.alpha / (b.alpha + b.beta)
  }

  function Variance(b: Beta): real
    requires b.alpha + b.beta != 0.0 && b.alpha + b.beta != -1.0
  {
    var sum := b.alpha + b.beta;
    assert sum * sum * (sum + 1.0) != 0.0;
    (b.alpha * b.beta) / (sum * sum * (sum + 1.0))
  }

  function Mode(b: Beta): Option<real> {
    if b.alpha <= 1.0 || b.beta <= 1.0 then None
    else Some((b.alpha - 1.0) / (b.alpha + b.beta - 2.0))
  }

  /** The mean is alpha's part of the weight, so raising alpha alone raises it. */
  lemma MeanExactly(b: Beta, more: real)
    requires Validate(b) && more > 0.0
    ensures Mean(b) * (b.alpha + b.beta) == b.alpha
    ensures Mean(b) < Mean(Beta(b.alpha + more, b.beta))
  {
    var s := b.alpha + b.beta;
    assert Mean(b) * s == b.alpha;
    assert Mean(Beta(b.alpha + more, b.beta)) * (s + more) == b.alpha + more;
    MeanRises(b.alpha, b.beta, more, Mean(b), Mean(Beta(b.alpha + more, b.beta)));
  }

  lemma MeanRises(a: real, c: real, more: real, m: real, m': real)
    requires a > 0.0 && c > 0.0 && more > 0.0 && m * (a + c) == a && m' * (a + c + more) == a + more
    ensures m < m'
  {
    var s, t := a + c, a + c + more;
    var u, d := 1.0 - m, m' - m;
    assert u * s == c;
    PositiveFactor(u, s);
    assert u * more > 0.0;
    assert d * t == u * more;
    PositiveFactor(d, t);
  }

  lemma PositiveFactor(x: real, y: real)
    requires y > 0.0 && x * y > 0.0
    ensures x > 0.0
  {}

  /** Both parameters must be positive, and above one for a mode. */
  lemma AcceptedExactly(b: Beta)
    ensures Validate(b) <==> b.alpha > 0.0 && b.beta > 0.0
    ensures Mode(b).Some? <==> b.alpha > 1.0 && b.beta > 1.0
  {}

  lemma Scale(x: real, z: real, y: real)
    requires y > 0.0
    ensures x * y < z * y <==> x < z
  {
    assert z * y - x * y == (z - x) * y;
  }

  lemma DivideBounds(x: real, y: real)
    requires 0.0 < x < y
    ensures 0.0 < x / y < 1.0
  {
    var q := x / y;
    assert q * y == x;
    Scale(0.0, q, y);
    Scale(q, 1.0, y);
  }

  lemma DivideUnique(x: real, y: real, q: real)
    requires y != 0.0 && q * y == x
    ensures x / y == q
  {
    var r := x / y;
    assert r * y == x;
    assert (r - q) * y == 0.0;
  }

  /** The variance is the mean times its complement, shrunk by the weight plus one. */
  lemma VarianceByMean(b: Beta)
    requires Validate(b)
    ensures 0.0 < Mean(b) < 1.0
    ensures Variance(b) == Mean(b) * (1.0 - Mean(b)) / (b.alpha + b.beta + 1.0)
  {
    var s, m := b.alpha + b.beta, Mean(b);
    DivideBounds(b.alpha, s);
    assert m * s == b.alpha;
    assert (1.0 - m) * s == b.beta;
    var v := m * (1.0 - m) / (s + 1.0);
    assert v * (s + 1.0) == m * (1.0 - m);
    var p := m * (1.0 - m);
    assert p * (s * s) == (m * s) * ((1.0 - m) * s);
    assert v * (s * s * (s + 1.0)) == (v * (s + 1.0)) * (s * s);
    DivideUnique(b.alpha * b.beta, s * s * (s + 1.0), v);
  }

  /** An accepted prior has a mean strictly inside (0, 1), and a positive variance
      strictly below that of a coin with the same mean, which is at most a quarter. */
  lemma VarianceBounds(b: Beta)
    requires Validate(b)
    ensures 0.0 < Mean(b) < 1.0
    ensures 0.0 < Variance(b) < Mean(b) * (1.0 - Mean(b)) <= 0.25
  {
    VarianceByMean(b);
    var m, s := Mean(b), b.alpha + b.beta;
    var p := m * (1.0 - m);
    assert p > 0.0;
    assert (m - 0.5) * (m - 0.5) >= 0.0;
    var v := p / (s + 1.0);
    assert v * (s + 1.0) == p;
    Scale(0.0, v, s + 1.0);
    assert v == p - v * s;
    assert v * s > 0.0;
  }

  function Scaled(b: Beta, k: real): Beta { Beta(k * b.alpha, k * b.beta) }

  lemma ScaledMean(b: Beta, k: real)
    requires Validate(b) && k > 0.0
    ensures Validate(Scaled(b, k)) && Mean(Scaled(b, k)) == Mean(b)
  {
    var s, m := b.alpha + b.beta, Mean(b);
    Scale(0.0, b.alpha, k);
    Scale(0.0, b.beta, k);
    assert k * s == k * b.alpha + k * b.beta;
    assert m * s == b.alpha;
    assert m * (k * s) == k * (m * s);
    DivideUnique(k * b.alpha, k * s, m);
  }

  lemma LargerDivisor(p: real, d: real, d': real)
    requires p > 0.0 && 0.0 < d < d'
    ensures p / d' < p / d
  {
    var x, y := p / d, p / d';
    assert x * d == p && y * d' == p;
    Scale(0.0, y, d');
    Scale(d, d', y);
    Scale(y, x, d);
  }

  /** The variance as a quotient whose dividend depends on the mean only. */
  lemma VarianceQuotient(b: Beta) returns (p: real)
    requires Validate(b)
    ensures p > 0.0 && p == Mean(b) * (1.0 - Mean(b))
    ensures Variance(b) == p / (b.alpha + b.beta + 1.0)
  {
    VarianceByMean(b);
    p := Mean(b) * (1.0 - Mean(b));
    Scale(0.0, Mean(b), 1.0 - Mean(b));
  }

  /** More weight at the same ratio keeps the mean and strictly lowers the variance. */
  lemma MoreEvidence(b: Beta, k: real)
    requires Validate(b) && k > 1.0
    ensures Validate(Scaled(b, k)) && Mean(Scaled(b, k)) == Mean(b)
    ensures Variance(Scaled(b, k)) < Variance(b)
  {
    ScaledMean(b, k);
    var p := VarianceQuotient(b);
    var p' := VarianceQuotient(Scaled(b, k));
    var d, d' := b.alpha + b.beta + 1.0, k * b.alpha + k * b.beta + 1.0;
    Scale(1.0, k, b.alpha);
    Scale(1.0, k, b.beta);
    assert b.alpha < k * b.alpha && b.beta < k * b.beta;
    assert Scaled(b, k).alpha + Scaled(b, k).beta + 1.0 == d';
    assert p == p';
    LargerDivisor(p, d, d');
  }

  /** When there is a mode it is the stationary point of the density, and lies inside (0, 1),
      on the mean's side away from one half. */
  lemma ModeAgainstMean(b: Beta)
    requires Mode(b).Some?
    ensures Validate(b) && 0.0 < Mode(b).value < 1.0
    ensures (b.alpha - 1.0) * (1.0 - Mode(b).value) == (b.beta - 1.0) * Mode(b).value
    ensures Mode(b).value >= Mean(b) <==> b.alpha >= b.beta
  {
    var s, m, o := b.alpha + b.beta, Mean(b), Mode(b).value;
    DivideBounds(b.alpha - 1.0, s - 2.0);
    assert m * s == b.alpha && o * (s - 2.0) == b.alpha - 1.0;
    assert (o - m) * (s - 2.0) == b.alpha - 1.0 - m * s + 2.0 * m;
    assert (o - m) * (s - 2.0) == 2.0 * m - 1.0;
    SignOf(o - m, s - 2.0);
    assert (2.0 * m - 1.0) * s == b.alpha - b.beta;
    SignOf(2.0 * m - 1.0, s);
  }

  lemma SignOf(x: real, y: real)
    requires y > 0.0
    ensures x >= 0.0 <==> x * y >= 0.0
  {}
}
