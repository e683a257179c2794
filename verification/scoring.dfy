/**
 * Weight normalisation and the utilisation score of a silo. A lower score
 * means more headroom.
 */
module Scoring {
  import opened Common
  import opened SiloStatistics
  import opened PlacementOptions

  /** The four normalised weights the director holds for its lifetime. */
  datatype Weights = Weights(cpuUsage: real, memoryUsage: real, availableMemory: real, physicalMemory: real)

  /** 1 / (1024 * 1024): turns bytes into megabytes. */
  const PhysicalMemoryScalingFactor: real := 0.00000095367431640625

  /**
   * Divides each configured weight by the total of all four. The physical
   * memory weight is read by the director but is not a property of the
   * options class, so it is a separate argument here.
   */
  function NormalizeWeights(o: Options, physicalMemoryWeight: real): (w: Weights)
    requires o.cpuUsageWeight + o.memoryUsageWeight + physicalMemoryWeight + o.availableMemoryWeight != 0.0
    ensures w.cpuUsage + w.memoryUsage + w.availableMemory + w.physicalMemory == 1.0
    ensures var total := o.cpuUsageWeight + o.memoryUsageWeight + physicalMemoryWeight + o.availableMemoryWeight;
            && w.cpuUsage * total == o.cpuUsageWeight
            && w.memoryUsage * total == o.memoryUsageWeight
            && w.availableMemory * total == o.availableMemoryWeight
            && w.physicalMemory * total == physicalMemoryWeight
  {
    var total := o.cpuUsageWeight + o.memoryUsageWeight + physicalMemoryWeight + o.availableMemoryWeight;
    var w := Weights(o.cpuUsageWeight / total, o.memoryUsageWeight / total, o.availableMemoryWeight / total, physicalMemoryWeight / total);
    assert w.cpuUsage + w.memoryUsage + w.availableMemory + w.physicalMemory
        == (o.cpuUsageWeight + o.memoryUsageWeight + o.availableMemoryWeight + physicalMemoryWeight) / total;
    w
  }

  predicate NonNegativeWeights(w: Weights) {
    w.cpuUsage >= 0.0 && w.memoryUsage >= 0.0 && w.availableMemory >= 0.0 && w.physicalMemory >= 0.0
  }

  /** Options that pass validation give weights in [0, 1] whatever non-negative physical weight is used. */
  lemma ValidatedWeightsAreNonNegative(o: Options, physicalMemoryWeight: real)
    requires ValidateConfiguration(o) == Valid && physicalMemoryWeight >= 0.0
    ensures NonNegativeWeights(NormalizeWeights(o, physicalMemoryWeight))
  {
    var total := o.cpuUsageWeight + o.memoryUsageWeight + physicalMemoryWeight + o.availableMemoryWeight;
    assert total >= 1.0;
    var w := NormalizeWeights(o, physicalMemoryWeight);
    NegativeFactor(w.cpuUsage, total);
    NegativeFactor(w.memoryUsage, total);
    NegativeFactor(w.availableMemory, total);
    NegativeFactor(w.physicalMemory, total);
  }

  /** A negative number times a positive one is negative. */
  lemma NegativeFactor(x: real, t: real)
    requires t > 0.0
    ensures x <= 0.0 ==> x * t <= 0.0
    ensures x < 0.0 ==> x * t < 0.0
  {
    if x < 0.0 {
      assert x * t == -((-x) * t);
      assert (-x) * t > 0.0;
    }
  }

  /**
   * Validation sums only three weights, so validated options are rescaled
   * after all: with a physical memory weight of 0 normalisation keeps them, with
   * a positive one every configured weight shrinks.
   */
  lemma ValidationIgnoresPhysicalMemoryWeight(o: Options, physicalMemoryWeight: real)
    requires ValidateConfiguration(o) == Valid && physicalMemoryWeight >= 0.0
    ensures physicalMemoryWeight == 0.0 ==>
              NormalizeWeights(o, physicalMemoryWeight) == Weights(o.cpuUsageWeight, o.memoryUsageWeight, o.availableMemoryWeight, 0.0)
    ensures physicalMemoryWeight > 0.0 && o.cpuUsageWeight > 0.0 ==>
              NormalizeWeights(o, physicalMemoryWeight).cpuUsage < o.cpuUsageWeight
  {
    var total := o.cpuUsageWeight + o.memoryUsageWeight + physicalMemoryWeight + o.availableMemoryWeight;
    assert total == 1.0 + physicalMemoryWeight;
    var w := NormalizeWeights(o, physicalMemoryWeight);
    if physicalMemoryWeight == 0.0 {
      assert total == 1.0;
      assert w.cpuUsage == w.cpuUsage * total && w.memoryUsage == w.memoryUsage * total;
      assert w.availableMemory == w.availableMemory * total && w.physicalMemory == w.physicalMemory * total;
    } else {
      assert total > 1.0;
      assert w.cpuUsage * total == o.cpuUsageWeight;
      NegativeFactor(w.cpuUsage, total);
      if o.cpuUsageWeight > 0.0 {
        var scaled := ScaledUp(w.cpuUsage, total);
        assert scaled == o.cpuUsageWeight;
      }
    }
  }

  /** A positive number times a factor above 1 grows. */
  lemma ScaledUp(x: real, t: real) returns (p: real)
    requires x > 0.0 && t > 1.0
    ensures p == x * t && p > x
  {
    p := x * t;
    assert p - x == x * (t - 1.0);
    assert x * (t - 1.0) > 0.0;
  }

  /** cpu usage in percent as a fraction; missing counts as 0. */
  function CpuFraction(s: ResourceStatistics): real {
    s.cpuUsage.GetOr(0.0) / 100.0
  }

  /** Whether the score can use the memory terms: total physical memory is known and positive. */
  predicate HasPhysicalMemory(s: ResourceStatistics) {
    s.totalPhysicalMemory.Some? && s.totalPhysicalMemory.value > 0
  }

  /** The score, with a memory-usage fraction supplied by `memoryUsageFraction`. */
  function ScoreWith(s: ResourceStatistics, w: Weights, memoryUsageFraction: real): real
    requires HasPhysicalMemory(s)
  {
    var p := s.totalPhysicalMemory.value as real;
    w.cpuUsage * CpuFraction(s)
      + w.memoryUsage * memoryUsageFraction
      + w.availableMemory * (1.0 - s.availableMemory.GetOr(0.0) / p)
      + w.physicalMemory * (PhysicalMemoryScalingFactor * p)
  }

  /**
   * The utilisation score: cpu, memory in use and memory not available as
   * fractions, plus physical memory in megabytes, each times its weight.
   * Without a positive total physical memory only the cpu term remains.
   */
  function Score(s: ResourceStatistics, w: Weights): (r: real)
    // a missing reading counts as 0; without a known positive physical memory only cpu counts
    ensures !HasPhysicalMemory(s) ==> r == w.cpuUsage * (s.cpuUsage.GetOr(0.0) / 100.0)
    // otherwise the weighted sum of the fractions in use and not available, plus megabytes of memory
    ensures HasPhysicalMemory(s) ==>
              var p := s.totalPhysicalMemory.value as real;
              r == w.cpuUsage * (s.cpuUsage.GetOr(0.0) / 100.0)
                   + w.memoryUsage * (s.memoryUsage.GetOr(0) as real / p)
                   + w.availableMemory * (1.0 - s.availableMemory.GetOr(0.0) / p)
                   + w.physicalMemory * (p / 1048576.0)
  {
    assert HasPhysicalMemory(s) ==> PhysicalMemoryScalingFactor * (s.totalPhysicalMemory.value as real)
                                    == s.totalPhysicalMemory.value as real / 1048576.0;
    if HasPhysicalMemory(s) then
      ScoreWith(s, w, s.memoryUsage.GetOr(0) as real / s.totalPhysicalMemory.value as real)
    else
      w.cpuUsage * CpuFraction(s)
  }

  /** Without a known positive physical memory the score is the cpu term alone. */
  lemma ScoreWithoutPhysicalMemoryIsCpuTerm(s: ResourceStatistics, w: Weights)
    requires s.totalPhysicalMemory.None? || s.totalPhysicalMemory.value <= 0
    ensures Score(s, w) == w.cpuUsage * s.cpuUsage.GetOr(0.0) / 100.0
    ensures forall m: Option<int>, a: Option<real> ::
              Score(s.(memoryUsage := m, availableMemory := a), w) == Score(s, w)
  {
  }

  /** A missing field scores like a reading of 0. */
  lemma MissingFieldsScoreAsZero(s: ResourceStatistics, w: Weights)
    ensures s.cpuUsage.None? ==> Score(s, w) == Score(s.(cpuUsage := Some(0.0)), w)
    ensures s.memoryUsage.None? ==> Score(s, w) == Score(s.(memoryUsage := Some(0)), w)
    ensures s.availableMemory.None? ==> Score(s, w) == Score(s.(availableMemory := Some(0.0)), w)
  {
  }

  lemma ScaledNonDecreasing(w: real, a: real, b: real)
    requires w >= 0.0 && a <= b
    ensures w * a <= w * b
  {
    assert w * b - w * a == w * (b - a);
    ProductNonNegative(w, b - a);
  }

  lemma ProductNonNegative(a: real, b: real)
    requires a >= 0.0 && b >= 0.0
    ensures a * b >= 0.0
  {
  }

  lemma QuotientNonDecreasing(a: real, b: real, p: real)
    requires a <= b && p > 0.0
    ensures a / p <= b / p
  {
    assert b / p - a / p == (b - a) / p;
  }

  /** With non-negative weights, more cpu usage never lowers the score. */
  lemma ScoreMonotoneInCpu(s: ResourceStatistics, w: Weights, c1: real, c2: real)
    requires NonNegativeWeights(w) && c1 <= c2
    ensures Score(s.(cpuUsage := Some(c1)), w) <= Score(s.(cpuUsage := Some(c2)), w)
  {
    QuotientNonDecreasing(c1, c2, 100.0);
    ScaledNonDecreasing(w.cpuUsage, c1 / 100.0, c2 / 100.0);
  }

  /** With non-negative weights, more memory in use never lowers the score. */
  lemma ScoreMonotoneInMemoryUsage(s: ResourceStatistics, w: Weights, m1: int, m2: int)
    requires NonNegativeWeights(w) && m1 <= m2
    ensures Score(s.(memoryUsage := Some(m1)), w) <= Score(s.(memoryUsage := Some(m2)), w)
  {
    if HasPhysicalMemory(s) {
      var p := s.totalPhysicalMemory.value as real;
      QuotientNonDecreasing(m1 as real, m2 as real, p);
      ScaledNonDecreasing(w.memoryUsage, m1 as real / p, m2 as real / p);
    }
  }

  /**
   * With a positive memory-usage weight, any memory in use raises the score
   * above that of the same silo using none.
   */
  lemma ScoreChargesAnyMemoryUsage(s: ResourceStatistics, w: Weights, m: int)
    requires HasPhysicalMemory(s) && w.memoryUsage > 0.0 && m > 0
    ensures Score(s.(memoryUsage := Some(0)), w) < Score(s.(memoryUsage := Some(m)), w)
  {
    var p := s.totalPhysicalMemory.value as real;
    var none := s.(memoryUsage := Some(0));
    var some := s.(memoryUsage := Some(m));
    var charged := PositiveProduct(w.memoryUsage, m as real / p);
    assert Score(none, w) == ScoreWith(none, w, 0.0) by {
      assert (0 as real) / p == 0.0;
    }
    assert Score(some, w) == ScoreWith(some, w, m as real / p);
    assert ScoreWith(some, w, m as real / p) == ScoreWith(none, w, 0.0) + charged;
  }

  lemma PositiveProduct(a: real, b: real) returns (p: real)
    requires a > 0.0 && b > 0.0
    ensures p == a * b && p > 0.0
  {
    p := a * b;
  }

  /** With non-negative weights, more available memory never raises the score. */
  lemma ScoreAntitoneInAvailableMemory(s: ResourceStatistics, w: Weights, a1: real, a2: real)
    requires NonNegativeWeights(w) && a1 <= a2
    ensures Score(s.(availableMemory := Some(a2)), w) <= Score(s.(availableMemory := Some(a1)), w)
  {
    if HasPhysicalMemory(s) {
      var p := s.totalPhysicalMemory.value as real;
      QuotientNonDecreasing(a1, a2, p);
      ScaledNonDecreasing(w.availableMemory, 1.0 - a2 / p, 1.0 - a1 / p);
    }
  }

  /** The readings a healthy silo reports: percentages and byte counts within their physical ranges. */
  predicate PlausibleReadings(s: ResourceStatistics) {
    && (s.cpuUsage.Some? ==> 0.0 <= s.cpuUsage.value <= 100.0)
    && (HasPhysicalMemory(s) ==>
          && (s.memoryUsage.Some? ==> 0 <= s.memoryUsage.value <= s.totalPhysicalMemory.value)
          && (s.availableMemory.Some? ==> 0.0 <= s.availableMemory.value <= s.totalPhysicalMemory.value as real))
  }

  lemma FractionInUnitRange(x: real, p: real)
    requires 0.0 <= x <= p && p > 0.0
    ensures 0.0 <= x / p <= 1.0
  {
  }

  lemma WeightedSumInUnitRange(w: Weights, a: real, b: real, c: real)
    requires NonNegativeWeights(w) && w.cpuUsage + w.memoryUsage + w.availableMemory <= 1.0
    requires 0.0 <= a <= 1.0 && 0.0 <= b <= 1.0 && 0.0 <= c <= 1.0
    ensures 0.0 <= w.cpuUsage * a + w.memoryUsage * b + w.availableMemory * c <= 1.0
  {
    var x := ScaledTerm(w.cpuUsage, a);
    var y := ScaledTerm(w.memoryUsage, b);
    var z := ScaledTerm(w.availableMemory, c);
    SumOfThreeAtMost(x, y, z, w.cpuUsage, w.memoryUsage, w.availableMemory);
  }

  /** A weight times a fraction in [0, 1] lies between 0 and the weight. */
  lemma ScaledTerm(w: real, a: real) returns (p: real)
    requires w >= 0.0 && 0.0 <= a <= 1.0
    ensures p == w * a && 0.0 <= p <= w
  {
    p := w * a;
    ScaledAtMost(w, a);
    ProductNonNegative(w, a);
  }

  lemma SumOfThreeAtMost(x: real, y: real, z: real, p: real, q: real, t: real)
    requires x <= p && y <= q && z <= t
    ensures x + y + z <= p + q + t
  {
  }

  lemma ScaledAtMost(w: real, a: real)
    requires w >= 0.0 && a <= 1.0
    ensures w * a <= w
  {
    assert w - w * a == w * (1.0 - a);
    ProductNonNegative(w, 1.0 - a);
  }

  /** The memory branch of the score stays in [0, 1] for fractions in [0, 1] and no physical memory weight. */
  lemma MemoryBranchInUnitRange(s: ResourceStatistics, w: Weights)
    requires NonNegativeWeights(w) && w.physicalMemory == 0.0
    requires w.cpuUsage + w.memoryUsage + w.availableMemory <= 1.0
    requires HasPhysicalMemory(s) && PlausibleReadings(s)
    ensures 0.0 <= Score(s, w) <= 1.0
  {
    var p := s.totalPhysicalMemory.value as real;
    var cpu := CpuFraction(s);
    var used := s.memoryUsage.GetOr(0) as real / p;
    var notAvailable := 1.0 - s.availableMemory.GetOr(0.0) / p;
    assert 0.0 <= used <= 1.0 by {
      FractionInUnitRange(s.memoryUsage.GetOr(0) as real, p);
    }
    assert 0.0 <= notAvailable <= 1.0 by {
      FractionInUnitRange(s.availableMemory.GetOr(0.0), p);
    }
    assert Score(s, w) == w.cpuUsage * cpu + w.memoryUsage * used + w.availableMemory * notAvailable by {
      assert w.physicalMemory * (PhysicalMemoryScalingFactor * p) == 0.0;
    }
    WeightedSumInUnitRange(w, cpu, used, notAvailable);
  }

  /**
   * The documented [0, 1] range of the score holds for plausible readings
   * when the physical memory weight is 0.
   */
  lemma ScoreInUnitRangeWithoutPhysicalMemoryWeight(s: ResourceStatistics, w: Weights)
    requires NonNegativeWeights(w) && w.physicalMemory == 0.0
    requires w.cpuUsage + w.memoryUsage + w.availableMemory <= 1.0
    requires PlausibleReadings(s)
    ensures 0.0 <= Score(s, w) <= 1.0
  {
    if HasPhysicalMemory(s) {
      MemoryBranchInUnitRange(s, w);
    } else {
      WeightedSumInUnitRange(w, CpuFraction(s), 0.0, 0.0);
    }
  }

  /**
   * The physical memory term multiplies by the size in megabytes, so with a
   * positive physical memory weight an idle silo with 1 GiB already scores
   * above 1, outside the documented range.
   */
  lemma ScoreExceedsOneWithPhysicalMemoryWeight(w: Weights)
    requires NonNegativeWeights(w) && w.physicalMemory >= 0.01
    ensures Score(ResourceStatistics(Some(0.0), Some(1073741824.0), Some(0), Some(1073741824), false), w) > 1.0
  {
    var s := ResourceStatistics(Some(0.0), Some(1073741824.0), Some(0), Some(1073741824), false);
    assert PhysicalMemoryScalingFactor * 1073741824.0 == 1024.0;
    assert Score(s, w) == w.physicalMemory * 1024.0;
  }

  // ---------------------------------------------------------------------------
  // The memory-usage term as written: memory usage and total physical memory
  // are both `long`, so the quotient is an integer division.
  // ---------------------------------------------------------------------------

  function ScoreAsWritten(s: ResourceStatistics, w: Weights): (r: real)
    // the only difference from the intended score is the memory-usage fraction
    ensures HasPhysicalMemory(s) ==>
              r == ScoreWith(s, w, TruncatingDiv(s.memoryUsage.GetOr(0), s.totalPhysicalMemory.value) as real)
    ensures !HasPhysicalMemory(s) || w.memoryUsage == 0.0 ==> r == Score(s, w)
  {
    if HasPhysicalMemory(s) then
      ScoreWith(s, w, TruncatingDiv(s.memoryUsage.GetOr(0), s.totalPhysicalMemory.value) as real)
    else
      w.cpuUsage * CpuFraction(s)
  }

  /**
   * Half the memory in use contributes nothing to the as-written score, where
   * the intended score charges half the memory-usage weight.
   */
  lemma MemoryUsageTermTruncatesToZero(w: Weights)
    requires w.memoryUsage > 0.0
    ensures var s := ResourceStatistics(None, None, Some(512), Some(1024), false);
            && ScoreAsWritten(s, w) == ScoreWith(s, w, 0.0)
            && Score(s, w) == ScoreWith(s, w, 0.5)
            && ScoreAsWritten(s, w) < Score(s, w)
  {
    var s := ResourceStatistics(None, None, Some(512), Some(1024), false);
    assert TruncatingDiv(512, 1024) == 0;
    assert 512 as real / 1024 as real == 0.5;
  }

  /** For plausible readings the as-written memory term is 0 for every silo not using all its memory. */
  lemma AsWrittenIgnoresPartialMemoryUsage(s: ResourceStatistics, w: Weights)
    requires HasPhysicalMemory(s) && PlausibleReadings(s)
    requires s.memoryUsage.Some? && s.memoryUsage.value < s.totalPhysicalMemory.value
    ensures ScoreAsWritten(s, w) == ScoreWith(s, w, 0.0)
  {
    SmallerQuotientIsZero(s.memoryUsage.value, s.totalPhysicalMemory.value);
  }

  lemma SmallerQuotientIsZero(a: int, b: int)
    requires 0 <= a < b
    ensures TruncatingDiv(a, b) == 0
  {
    var q := TruncatingDiv(a, b);
    assert q * b <= a < (q + 1) * b;
    FactorBounds(q, b);
  }

  /** A multiplier `q` with `q * b < b <= (q + 1) * b`, `b > 0`, is 0. */
  lemma FactorBounds(q: int, b: int)
    requires b > 0 && q * b < b && 0 < (q + 1) * b
    ensures q == 0
  {
    MultiplierBounds(q, b);
  }

  lemma MultiplierBounds(q: int, b: int)
    requires b > 0
    ensures q >= 1 ==> q * b >= b
    ensures q <= -1 ==> (q + 1) * b <= 0
  {
    if q >= 1 {
      assert q * b == b + (q - 1) * b;
      ProductNonNegativeInt(q - 1, b);
    }
    if q <= -1 {
      assert (q + 1) * b == -(-(q + 1) * b);
      ProductNonNegativeInt(-(q + 1), b);
    }
  }

  lemma ProductNonNegativeInt(x: int, y: int)
    requires x >= 0 && y >= 0
    ensures x * y >= 0
  {
  }
}
