/**
 * The smoothing filter of the resource-optimised placement director: a scalar
 * Kalman estimator with measurement-noise variance 1, and the dual-mode filter
 * that runs a slow and a fast estimator and switches between them.
 */
module Kalman {
  import opened Common

  /** Process-noise covariance of the slow estimator. */
  const SlowProcessNoise: real := 0.0
  /** Process-noise covariance of the fast estimator. */
  const FastProcessNoise: real := 0.01

  /** State of one estimator: prior estimate and prior error covariance. */
  datatype Estimator = Estimator(estimate: real, errorCovariance: real)

  /** A fresh estimator starts at estimate 0 with error covariance 1. */
  const InitialEstimator: Estimator := Estimator(0.0, 1.0)

  /** Every reachable estimator has a non-negative error covariance. */
  predicate ValidEstimator(k: Estimator) {
    k.errorCovariance >= 0.0
  }

  /** `x` lies on the closed segment between `a` and `b`, in either order. */
  predicate Between(x: real, a: real, b: real) {
    (a <= x <= b) || (b <= x <= a)
  }

  /** The distance between two reals. */
  function Dist(a: real, b: real): real {
    if a >= b then a - b else b - a
  }

  /** The Kalman gain for prior covariance `p` plus process noise `q`. */
  function Gain(p: real, q: real): (g: real)
    requires p >= 0.0 && q >= 0.0
    ensures 0.0 <= g < 1.0
  {
    var c := p + q;
    c / (c + 1.0)
  }

  lemma GainBounded(c: real)
    requires c >= 0.0
    ensures 0.0 <= c / (c + 1.0) < 1.0
  {
    assert c < c + 1.0;
  }

  /** `e + g * (m - e)` with `g` in [0, 1] lies between `e` and `m`. */
  lemma InterpolationBetween(e: real, m: real, g: real)
    requires 0.0 <= g <= 1.0
    ensures Between(e + g * (m - e), e, m)
  {
    if e <= m {
      ProductNonNegative(g, m - e);
      ProductNonNegative(1.0 - g, m - e);
      assert (1.0 - g) * (m - e) == (m - e) - g * (m - e);
    } else {
      ProductNonNegative(g, e - m);
      ProductNonNegative(1.0 - g, e - m);
      assert (1.0 - g) * (e - m) == (e - m) - g * (e - m);
      assert g * (m - e) == -(g * (e - m));
    }
  }

  lemma ProductNonNegative(a: real, b: real)
    requires a >= 0.0 && b >= 0.0
    ensures a * b >= 0.0
  {
  }

  /** One predict-and-correct step of the estimator on `measurement`. */
  function Step(k: Estimator, measurement: real, q: real): (r: Estimator)
    requires ValidEstimator(k) && q >= 0.0
    ensures ValidEstimator(r)
    ensures Between(r.estimate, k.estimate, measurement)
    ensures r.errorCovariance < 1.0
    ensures measurement == k.estimate ==> r.estimate == measurement
    ensures k.estimate < measurement ==> r.estimate < measurement
    ensures measurement < k.estimate ==> measurement < r.estimate
    // with any uncertainty left, the step keeps some and closes part of the gap
    ensures k.errorCovariance + q > 0.0 ==> r.errorCovariance > 0.0
    ensures k.errorCovariance + q > 0.0 && measurement != k.estimate ==>
              Dist(r.estimate, measurement) < Dist(k.estimate, measurement)
  {
    var c := k.errorCovariance + q;
    var g := Gain(k.errorCovariance, q);
    StepBounds(k.estimate, measurement, c);
    Estimator(k.estimate + g * (measurement - k.estimate), (1.0 - g) * c)
  }

  /** The facts about one step, for an estimate `e`, a measurement `m` and a predicted covariance `c`. */
  lemma StepBounds(e: real, m: real, c: real)
    requires c >= 0.0
    ensures var g := c / (c + 1.0);
            var next := e + g * (m - e);
            && Between(next, e, m)
            && 0.0 <= (1.0 - g) * c < 1.0
            && (m == e ==> next == m)
            && (e < m ==> next < m)
            && (m < e ==> m < next)
            && (c > 0.0 ==> (1.0 - g) * c > 0.0)
            && (c > 0.0 && m != e ==> Dist(next, m) < Dist(e, m))
  {
    var g := c / (c + 1.0);
    GainBounded(c);
    InterpolationBetween(e, m, g);
    CovarianceAfterStep(c);
    assert g * (m - e) != m - e || m == e by {
      if m != e {
        assert g != 1.0;
      }
    }
    if c > 0.0 && m != e {
      GainPositiveMoves(e, m, c);
    }
  }

  lemma CovarianceAfterStep(c: real)
    requires c >= 0.0
    ensures 0.0 <= (1.0 - c / (c + 1.0)) * c < 1.0
    ensures c > 0.0 ==> (1.0 - c / (c + 1.0)) * c > 0.0
  {
    var g := c / (c + 1.0);
    assert 1.0 - g == 1.0 / (c + 1.0);
    assert (1.0 - g) * c == c / (c + 1.0);
  }

  /** A positive gain moves the estimate a positive part of the way toward the measurement. */
  lemma GainPositiveMoves(e: real, m: real, c: real)
    requires c > 0.0 && e != m
    ensures var g := c / (c + 1.0); Dist(e + g * (m - e), m) < Dist(e, m)
  {
    var g := c / (c + 1.0);
    assert 0.0 < g < 1.0;
    if e < m {
      var moved := PositiveProduct(g, m - e);
      assert e + g * (m - e) < m by { InterpolationBetween(e, m, g); GainBounded(c); LessThanWhole(g, m - e); }
    } else {
      var moved := PositiveProduct(g, e - m);
      assert g * (m - e) == -(g * (e - m));
      assert m < e + g * (m - e) by { LessThanWhole(g, e - m); }
    }
  }

  lemma PositiveProduct(a: real, b: real) returns (p: real)
    requires a > 0.0 && b > 0.0
    ensures p == a * b && p > 0.0
  {
    p := a * b;
  }

  lemma LessThanWhole(g: real, d: real)
    requires 0.0 < g < 1.0 && d > 0.0
    ensures g * d < d
  {
    var rest := PositiveProduct(1.0 - g, d);
    assert (1.0 - g) * d == d - g * d;
  }

  /** The regime of the dual-mode filter. */
  datatype Regime = Slow | Fast

  /** A slow and a fast estimator plus the regime currently reported. */
  datatype DualFilter = DualFilter(slow: Estimator, fast: Estimator, regime: Regime)

  /** A new dual-mode filter starts in the slow regime with two fresh estimators. */
  const InitialDualFilter: DualFilter := DualFilter(InitialEstimator, InitialEstimator, Slow)

  predicate ValidDualFilter(f: DualFilter) {
    ValidEstimator(f.slow) && ValidEstimator(f.fast)
  }

  /** The estimate of the estimator the regime selects: what the filter last reported. */
  function Reported(f: DualFilter): real {
    if f.regime == Fast then f.fast.estimate else f.slow.estimate
  }

  /** The new filter state together with the value returned to the caller. */
  datatype Filtered = Filtered(filter: DualFilter, output: real)

  /**
   * Feeds one (possibly missing) measurement into the dual-mode filter.
   * Both estimators first take the measurement; a measurement above the new
   * slow estimate selects the fast regime (re-seeding the fast estimator at the
   * measurement when the regime switches), otherwise the slow regime is
   * selected (re-seeding the slow estimator from the fast one on a switch).
   */
  function Filter(f: DualFilter, measurement: Option<real>): (r: Filtered)
    requires ValidDualFilter(f)
    ensures ValidDualFilter(r.filter)
    // the regime tracks whether the signal rose above the slow estimate held before this call
    ensures r.filter.regime == Fast <==> measurement.GetOr(0.0) > f.slow.estimate
    // a rise out of the slow regime is followed immediately
    ensures f.regime == Slow && r.filter.regime == Fast ==> r.output == measurement.GetOr(0.0)
    // in the slow regime a fall is trusted only gradually: the output never undershoots the measurement
    ensures f.regime == Slow && r.filter.regime == Slow ==> Between(r.output, f.slow.estimate, measurement.GetOr(0.0))
    ensures f.regime == Fast && r.filter.regime == Fast ==> Between(r.output, f.fast.estimate, measurement.GetOr(0.0))
    // leaving the fast regime continues from where the fast estimator now stands, toward the measurement
    ensures f.regime == Fast && r.filter.regime == Slow ==>
              Between(r.output, Step(f.fast, measurement.GetOr(0.0), FastProcessNoise).estimate, measurement.GetOr(0.0))
    ensures r.output == Reported(r.filter)
    // what is kept for the next call: each estimator took the measurement, and the estimator
    // switched to was first re-seeded (the slow one from the fast one's new state, the fast one at
    // the measurement with no uncertainty)
    ensures f.regime == Fast && r.filter.regime == Slow ==>
              r.filter.slow == Step(Step(f.fast, measurement.GetOr(0.0), FastProcessNoise), measurement.GetOr(0.0), SlowProcessNoise)
    ensures !(f.regime == Fast && r.filter.regime == Slow) ==>
              r.filter.slow == Step(f.slow, measurement.GetOr(0.0), SlowProcessNoise)
    ensures f.regime == Slow && r.filter.regime == Fast ==>
              r.filter.fast == Step(Estimator(measurement.GetOr(0.0), 0.0), measurement.GetOr(0.0), FastProcessNoise)
    ensures !(f.regime == Slow && r.filter.regime == Fast) ==>
              r.filter.fast == Step(f.fast, measurement.GetOr(0.0), FastProcessNoise)
    // the fast estimator always keeps some uncertainty; the slow one keeps it once it has any
    ensures r.filter.fast.errorCovariance > 0.0
    ensures f.slow.errorCovariance > 0.0 ==> r.filter.slow.errorCovariance > 0.0
  {
    var m := measurement.GetOr(0.0);
    var slow := Step(f.slow, m, SlowProcessNoise);
    var fast := Step(f.fast, m, FastProcessNoise);
    if m > slow.estimate then
      if f.regime == Slow then
        var reseeded := Step(Estimator(m, 0.0), m, FastProcessNoise);
        Filtered(DualFilter(slow, reseeded, Fast), reseeded.estimate)
      else
        Filtered(DualFilter(slow, fast, Fast), fast.estimate)
    else
      if f.regime == Fast then
        var seeded := Step(fast, m, SlowProcessNoise);
        Filtered(DualFilter(seeded, fast, Slow), seeded.estimate)
      else
        Filtered(DualFilter(slow, fast, Slow), slow.estimate)
  }

  /** A missing measurement is filtered exactly like a measurement of 0. */
  lemma MissingMeasurementIsZero(f: DualFilter)
    requires ValidDualFilter(f)
    ensures Filter(f, None) == Filter(f, Some(0.0))
  {
    assert None.GetOr(0.0) == 0.0 == Some(0.0).GetOr(0.0);
  }

  /**
   * A settled filter (both estimators agree with the signal) fed the same
   * value again reports that value and stays settled in the slow regime.
   */
  lemma ConstantSignalIsFixedPoint(f: DualFilter, m: real)
    requires ValidDualFilter(f) && f.regime == Slow
    requires f.slow.estimate == m && f.fast.estimate == m
    ensures Filter(f, Some(m)).output == m
    ensures Filter(f, Some(m)).filter.regime == Slow
    ensures Filter(f, Some(m)).filter.slow.estimate == m
    ensures Filter(f, Some(m)).filter.fast.estimate == m
  {
  }

  /**
   * Spike reaction: from a settled slow regime, a jump to a higher value is
   * reported in full, while a slow-only estimator would lag strictly behind.
   */
  lemma {:induction false} SpikeBeatsSlowOnly(f: DualFilter, m: real)
    requires ValidDualFilter(f) && f.regime == Slow
    requires m > f.slow.estimate
    ensures Filter(f, Some(m)).output == m
    ensures Step(f.slow, m, SlowProcessNoise).estimate < Filter(f, Some(m)).output
  {
  }

  /** The filter state after feeding the same measurement `k` times. */
  function FilterRepeatedly(f: DualFilter, m: real, k: nat): (r: DualFilter)
    requires ValidDualFilter(f)
    ensures ValidDualFilter(r)
    ensures f.slow.errorCovariance > 0.0 ==> r.slow.errorCovariance > 0.0
    decreases k
  {
    if k == 0 then f else FilterRepeatedly(Filter(f, Some(m)).filter, m, k - 1)
  }

  /**
   * One call with the signal at `m` never reports a value farther from `m`
   * than the previous report, and strictly closer unless it was already `m`.
   */
  lemma FilterApproachesConstantSignal(f: DualFilter, m: real)
    requires ValidDualFilter(f) && f.slow.errorCovariance > 0.0
    ensures Dist(Filter(f, Some(m)).output, m) <= Dist(Reported(f), m)
    ensures Reported(f) != m ==> Dist(Filter(f, Some(m)).output, m) < Dist(Reported(f), m)
  {
    var r := Filter(f, Some(m));
    var fast := Step(f.fast, m, FastProcessNoise);
    if f.regime == Fast && r.filter.regime == Slow {
      var seeded := Step(fast, m, SlowProcessNoise);
      assert Dist(seeded.estimate, m) <= Dist(fast.estimate, m);
    }
  }

  /**
   * A constant signal pulls the filter's report toward it: after any number of
   * calls the report is no farther from the signal than it started, and
   * strictly closer unless it started on the signal.
   */
  lemma {:induction false} ConstantSignalNeverRecedes(f: DualFilter, m: real, k: nat)
    requires ValidDualFilter(f) && f.slow.errorCovariance > 0.0
    ensures Dist(Reported(FilterRepeatedly(f, m, k)), m) <= Dist(Reported(f), m)
    ensures k > 0 && Reported(f) != m ==> Dist(Reported(FilterRepeatedly(f, m, k)), m) < Dist(Reported(f), m)
    decreases k
  {
    if k > 0 {
      var next := Filter(f, Some(m)).filter;
      FilterApproachesConstantSignal(f, m);
      ConstantSignalNeverRecedes(next, m, k - 1);
    }
  }

  /** Scaling by one minus the gain is undone by one plus the covariance. */
  lemma GainComplementInverts(c: real, x: real)
    requires c >= 0.0
    ensures ((1.0 - Gain(c, 0.0)) * x) * (1.0 + c) == x
  {
    var g := Gain(c, 0.0);
    assert g * (c + 1.0) == c;
    assert (1.0 - g) * (1.0 + c) == 1.0;
    assert ((1.0 - g) * x) * (1.0 + c) == x * ((1.0 - g) * (1.0 + c));
  }

  /** `x` is `y` divided by `factor`, stated without division. */
  predicate ShrunkBy(x: real, factor: real, y: real) {
    x * factor == y
  }

  /** With a positive factor, the product form is the quotient. */
  lemma ShrunkByIsQuotient(x: real, factor: real, y: real)
    requires factor > 0.0 && ShrunkBy(x, factor, y)
    ensures x == y / factor
  {
  }

  /**
   * One slow step (no process noise) divides both the distance to the
   * measurement and the error covariance by one plus the prior covariance.
   */
  lemma SlowStepDivides(e: Estimator, m: real)
    requires ValidEstimator(e)
    ensures ShrunkBy(Gap(Step(e, m, SlowProcessNoise), m), 1.0 + e.errorCovariance, Gap(e, m))
    ensures ShrunkBy(Step(e, m, SlowProcessNoise).errorCovariance, 1.0 + e.errorCovariance, e.errorCovariance)
  {
    var c := e.errorCovariance;
    var g := Gain(c, 0.0);
    var d := e.estimate - m;
    var s := Step(e, m, SlowProcessNoise);
    assert s.estimate == e.estimate + g * (m - e.estimate);
    assert g * (m - e.estimate) == -(g * d);
    assert s.estimate - m == (1.0 - g) * d;
    assert s.errorCovariance == (1.0 - g) * c;
    GainComplementInverts(c, d);
    GainComplementInverts(c, c);
  }

  /** A signal at or below the slow estimate keeps the slow regime, and only the slow step acts on it. */
  lemma SlowCallIsSlowStep(f: DualFilter, m: real)
    requires ValidDualFilter(f) && f.regime == Slow && m <= f.slow.estimate
    ensures Filter(f, Some(m)).filter.regime == Slow
    ensures Filter(f, Some(m)).filter.slow == Step(f.slow, m, SlowProcessNoise)
    ensures m <= Filter(f, Some(m)).filter.slow.estimate
  {
  }

  /** The divisor of the slow-regime rate after `k` calls from covariance `c0`. */
  function RateDivisor(k: nat, c0: real): (d: real)
    requires c0 >= 0.0
    ensures d >= 1.0
  {
    assert k as real * c0 >= 0.0;
    1.0 + k as real * c0
  }

  /**
   * The arithmetic of one induction step of the slow-regime rate: a quantity
   * divided by `1 + c0` and then by the divisor for `k - 1` further steps from
   * `c1`, where `c1` is `c0` divided by `1 + c0`, has been divided by the
   * divisor for `k` steps from `c0`.
   */
  lemma RateStep(x0: real, c0: real, x1: real, c1: real, xk: real, k: nat)
    requires c0 >= 0.0 && c1 >= 0.0 && k >= 1
    requires ShrunkBy(x1, 1.0 + c0, x0) && ShrunkBy(c1, 1.0 + c0, c0)
    requires ShrunkBy(xk, RateDivisor(k - 1, c1), x1)
    ensures ShrunkBy(xk, RateDivisor(k, c0), x0)
  {
    var j, n := (k - 1) as real, k as real;
    assert n == j + 1.0;
    var w := 1.0 + j * c1;
    assert w * (1.0 + c0) == 1.0 + c0 + j * (c1 * (1.0 + c0));
    assert w * (1.0 + c0) == 1.0 + n * c0;
    assert xk * (w * (1.0 + c0)) == (xk * w) * (1.0 + c0);
  }

  /** The slow estimator after `k` slow steps toward the same measurement. */
  function SlowStepRepeatedly(e: Estimator, m: real, k: nat): (r: Estimator)
    requires ValidEstimator(e)
    ensures ValidEstimator(r)
    decreases k
  {
    if k == 0 then e else SlowStepRepeatedly(Step(e, m, SlowProcessNoise), m, k - 1)
  }

  /** How far an estimator stands above the measurement. */
  function Gap(e: Estimator, m: real): real {
    e.estimate - m
  }

  /** After `k` slow steps the gap to the measurement is divided by `1 + k * c0`. */
  lemma {:induction false} SlowStepsDivideGap(e: Estimator, m: real, k: nat)
    requires ValidEstimator(e)
    ensures ShrunkBy(Gap(SlowStepRepeatedly(e, m, k), m), RateDivisor(k, e.errorCovariance), Gap(e, m))
    decreases k
  {
    if k == 0 {
      assert SlowStepRepeatedly(e, m, k) == e;
    } else {
      var next := Step(e, m, SlowProcessNoise);
      var last := SlowStepRepeatedly(next, m, k - 1);
      assert SlowStepRepeatedly(e, m, k) == last;
      assert ShrunkBy(Gap(last, m), RateDivisor(k - 1, next.errorCovariance), Gap(next, m)) by {
        SlowStepsDivideGap(next, m, k - 1);
      }
      SlowStepDivides(e, m);
      RateStep(Gap(e, m), e.errorCovariance, Gap(next, m), next.errorCovariance, Gap(last, m), k);
    }
  }

  /** After `k` slow steps the error covariance is divided by `1 + k * c0`. */
  lemma {:induction false} SlowStepsDivideCovariance(e: Estimator, m: real, k: nat)
    requires ValidEstimator(e)
    ensures ShrunkBy(SlowStepRepeatedly(e, m, k).errorCovariance, RateDivisor(k, e.errorCovariance), e.errorCovariance)
    decreases k
  {
    if k == 0 {
      assert SlowStepRepeatedly(e, m, k) == e;
    } else {
      var next := Step(e, m, SlowProcessNoise);
      var last := SlowStepRepeatedly(next, m, k - 1);
      assert SlowStepRepeatedly(e, m, k) == last;
      assert ShrunkBy(last.errorCovariance, RateDivisor(k - 1, next.errorCovariance), next.errorCovariance) by {
        SlowStepsDivideCovariance(next, m, k - 1);
      }
      SlowStepDivides(e, m);
      RateStep(e.errorCovariance, e.errorCovariance, next.errorCovariance, next.errorCovariance, last.errorCovariance, k);
    }
  }

  /** A signal at or below the slow estimate keeps the slow regime for any number of calls. */
  lemma {:induction false} SlowRegimePersists(f: DualFilter, m: real, k: nat)
    requires ValidDualFilter(f) && f.regime == Slow && m <= f.slow.estimate
    ensures FilterRepeatedly(f, m, k).regime == Slow
    ensures FilterRepeatedly(f, m, k).slow == SlowStepRepeatedly(f.slow, m, k)
    ensures m <= FilterRepeatedly(f, m, k).slow.estimate
    decreases k
  {
    if k > 0 {
      SlowCallIsSlowStep(f, m);
      SlowRegimePersists(Filter(f, Some(m)).filter, m, k - 1);
    }
  }

  /** The estimator-level rate: gap and covariance after `k` slow steps, as quotients. */
  lemma SlowStepsRate(e: Estimator, m: real, k: nat)
    requires ValidEstimator(e)
    ensures Gap(SlowStepRepeatedly(e, m, k), m) == Gap(e, m) / RateDivisor(k, e.errorCovariance)
    ensures SlowStepRepeatedly(e, m, k).errorCovariance == e.errorCovariance / RateDivisor(k, e.errorCovariance)
  {
    var last := SlowStepRepeatedly(e, m, k);
    var factor := RateDivisor(k, e.errorCovariance);
    assert Gap(last, m) == Gap(e, m) / factor by {
      SlowStepsDivideGap(e, m, k);
      ShrunkByIsQuotient(Gap(last, m), factor, Gap(e, m));
    }
    assert last.errorCovariance == e.errorCovariance / factor by {
      SlowStepsDivideCovariance(e, m, k);
      ShrunkByIsQuotient(last.errorCovariance, factor, e.errorCovariance);
    }
  }

  /**
   * The convergence rate in the slow regime: a signal at or below the slow
   * estimate keeps the filter in the slow regime, and after `k` calls both the
   * distance of the report to the signal and the slow error covariance are the
   * starting ones divided by `1 + k * c0`, where `c0` is the starting
   * covariance. With `c0 > 0` the distance therefore goes to 0 like `1 / k`.
   */
  lemma SlowRegimeConvergenceRate(f: DualFilter, m: real, k: nat)
    requires ValidDualFilter(f) && f.regime == Slow && m <= f.slow.estimate
    ensures FilterRepeatedly(f, m, k).regime == Slow
    ensures Dist(Reported(FilterRepeatedly(f, m, k)), m) == Dist(Reported(f), m) / RateDivisor(k, f.slow.errorCovariance)
    ensures FilterRepeatedly(f, m, k).slow.errorCovariance == f.slow.errorCovariance / RateDivisor(k, f.slow.errorCovariance)
  {
    SlowRegimePersists(f, m, k);
    SlowStepsRate(f.slow, m, k);
    var last := FilterRepeatedly(f, m, k);
    assert Dist(Reported(last), m) == Gap(SlowStepRepeatedly(f.slow, m, k), m);
    assert Dist(Reported(f), m) == Gap(f.slow, m);
  }
}
