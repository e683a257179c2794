/**
 * The resource-optimised placement director: picks the silo for a new
 * activation among the compatible silos, using the statistics store, a
 * square-root sample of the eligible silos, a small score jitter and a
 * preference margin for the local silo. Randomness enters as `Draws`.
 */
module PlacementDirector {
  import opened Common
  import opened SiloStatistics
  import opened Scoring
  import opened PlacementOptions

  /** Jitter added to a score before comparison lies in [0, JitterBound): a unit draw divided by 100000. */
  const JitterBound: real := 0.00001

  /** The director's state: weights and margin fixed at construction, and the statistics store. */
  datatype Director = Director(weights: Weights, localSiloPreferenceMargin: real, statistics: Store)

  /** What the placement context reports about the local silo. */
  datatype PlacementContext = PlacementContext(localSilo: SiloAddress, localSiloIsActive: bool)

  /**
   * The random draws of one placement: `pick` for the cold-start choice,
   * `shuffle[i]` for the i-th swap of the prefix shuffle (reduced into the
   * range the source asks the generator for), `jitter[j]` for the j-th sampled
   * candidate's score jitter.
   */
  datatype Draws = Draws(pick: nat, shuffle: seq<nat>, jitter: seq<real>)

  /** Enough draws for `n` compatible silos, with every jitter in its range. */
  predicate ValidDraws(d: Draws, n: nat) {
    && |d.shuffle| >= n
    && |d.jitter| >= n
    && forall j :: 0 <= j < |d.jitter| ==> 0.0 <= d.jitter[j] < JitterBound
  }

  datatype PlacementError = SiloUnavailable

  datatype Placement = Placed(silo: SiloAddress) | Failed(error: PlacementError)

  /** An eligible silo: its index in the compatible list and its current statistics. */
  datatype Candidate = Candidate(index: nat, statistics: ResourceStatistics)

  /** The best candidate so far: index into the compatible list and its score without jitter. */
  datatype Pick = Pick(index: nat, score: real)

  /** Builds the director from validated options (construction normalises the weights). */
  function NewDirector(o: Options, physicalMemoryWeight: real): (d: Director)
    requires o.cpuUsageWeight + o.memoryUsageWeight + physicalMemoryWeight + o.availableMemoryWeight != 0.0
    ensures d.statistics == map[]
    ensures d.localSiloPreferenceMargin == o.localSiloPreferenceMargin
    ensures d.weights.cpuUsage + d.weights.memoryUsage + d.weights.availableMemory + d.weights.physicalMemory == 1.0
  {
    Director(NormalizeWeights(o, physicalMemoryWeight), o.localSiloPreferenceMargin, map[])
  }

  /** The request's placement hint counts only if it names a compatible silo. */
  function PlacementHint(requested: Option<SiloAddress>, compatible: seq<SiloAddress>): (r: Option<SiloAddress>)
    ensures r.Some? <==> requested.Some? && requested.value in compatible
    ensures r.Some? ==> r == requested
  {
    if requested.Some? && requested.value in compatible then requested else None
  }

  /** The silo at index `i` has statistics and is not overloaded. */
  predicate IsEligible(compatible: seq<SiloAddress>, store: Store, i: nat) {
    i < |compatible| && compatible[i] in store && !store[compatible[i]].value.isOverloaded
  }

  /** The eligible silos from index `i` on, in compatible-list order. */
  function EligibleFrom(compatible: seq<SiloAddress>, store: Store, i: nat): (r: seq<Candidate>)
    requires i <= |compatible|
    decreases |compatible| - i
    ensures |r| <= |compatible| - i
    ensures forall k :: 0 <= k < |r| ==>
              i <= r[k].index && IsEligible(compatible, store, r[k].index) &&
              r[k].statistics == store[compatible[r[k].index]].value
  {
    if i == |compatible| then []
    else if IsEligible(compatible, store, i) then
      [Candidate(i, store[compatible[i]].value)] + EligibleFrom(compatible, store, i + 1)
    else
      EligibleFrom(compatible, store, i + 1)
  }

  /** The eligible silos keep the order of the compatible list. */
  lemma {:induction false} EligibleFromIsOrdered(compatible: seq<SiloAddress>, store: Store, i: nat)
    requires i <= |compatible|
    decreases |compatible| - i
    ensures forall k, l :: 0 <= k < l < |EligibleFrom(compatible, store, i)| ==>
              EligibleFrom(compatible, store, i)[k].index < EligibleFrom(compatible, store, i)[l].index
  {
    if i < |compatible| {
      EligibleFromIsOrdered(compatible, store, i + 1);
      var rest := EligibleFrom(compatible, store, i + 1);
      var r := EligibleFrom(compatible, store, i);
      if IsEligible(compatible, store, i) {
        assert r[0].index == i;
        assert forall k :: 1 <= k < |r| ==> r[k] == rest[k - 1] && r[k].index > i;
      }
    }
  }

  /** Every eligible silo from index `i` on is among the candidates. */
  lemma {:induction false} EligibleFromIsComplete(compatible: seq<SiloAddress>, store: Store, i: nat, j: nat)
    requires i <= j < |compatible| && IsEligible(compatible, store, j)
    decreases j - i
    ensures exists k :: 0 <= k < |EligibleFrom(compatible, store, i)| && EligibleFrom(compatible, store, i)[k].index == j
  {
    var r := EligibleFrom(compatible, store, i);
    if j == i {
      assert r == [Candidate(i, store[compatible[i]].value)] + EligibleFrom(compatible, store, i + 1);
      assert |r| > 0 && r[0].index == j;
      assert exists k :: 0 <= k < |r| && r[k].index == j;
    } else {
      EligibleFromIsComplete(compatible, store, i + 1, j);
      var rest := EligibleFrom(compatible, store, i + 1);
      var k :| 0 <= k < |rest| && rest[k].index == j;
      if IsEligible(compatible, store, i) {
        assert r[k + 1] == rest[k];
      } else {
        assert r[k] == rest[k];
      }
    }
  }

  /** The smallest `k` with `k * k >= n`, searching upward from `k`. */
  function CeilSqrtFrom(n: nat, k: nat): (r: nat)
    requires k == 0 || (k - 1) * (k - 1) < n
    decreases n - k
    ensures r * r >= n
    ensures r == 0 || (r - 1) * (r - 1) < n
  {
    if k * k >= n then k
    else
      assert k <= k * k;
      CeilSqrtFrom(n, k + 1)
  }

  /** ceil(sqrt(n)) for a whole number `n`, exact. */
  function CeilSqrt(n: nat): (r: nat)
    ensures r * r >= n
    ensures r == 0 || (r - 1) * (r - 1) < n
  {
    CeilSqrtFrom(n, 0)
  }

  /** The sample size never exceeds the number of eligible silos, and is positive when any is eligible. */
  lemma {:induction false} SampleSizeBounded(n: nat)
    ensures CeilSqrt(n) <= n
    ensures n > 0 ==> CeilSqrt(n) > 0
  {
    var k := CeilSqrt(n);
    if k >= 1 {
      var m := SquareAtLeastSelf(k - 1);
      assert m < n;
    } else {
      assert k * k == 0;
    }
  }

  /** m * m >= m for a whole number m. */
  lemma SquareAtLeastSelf(m: nat) returns (square: nat)
    ensures square == m * m && square >= m
  {
    square := m * m;
    if m >= 1 {
      assert m * m == m + (m - 1) * m;
      ProductNonNegativeInt(m - 1, m);
    }
  }

  /** Exchanges the entries at `i` and `j`. */
  function Swap<T>(v: seq<T>, i: nat, j: nat): (r: seq<T>)
    requires i < |v| && j < |v|
    ensures |r| == |v|
    ensures r[i] == v[j] && r[j] == v[i]
    ensures forall k :: 0 <= k < |v| && k != i && k != j ==> r[k] == v[k]
  {
    v[i := v[j]][j := v[i]]
  }

  /** Exchanging two entries permutes the sequence. */
  lemma SwapPermutes<T>(v: seq<T>, i: nat, j: nat)
    requires i < |v| && j < |v|
    ensures multiset(Swap(v, i, j)) == multiset(v)
  {
    var u := v[i := v[j]];
    assert multiset(u) == multiset(v) - multiset{v[i]} + multiset{v[j]};
    assert multiset(u[j := v[i]]) == multiset(u) - multiset{u[j]} + multiset{v[i]};
  }

  /** Fisher–Yates steps `i` up to `prefixLength`: position `i` takes a draw from positions `i ..`. */
  function ShuffleFrom<T>(v: seq<T>, i: nat, prefixLength: nat, draws: seq<nat>): (r: seq<T>)
    requires i <= prefixLength <= |v| && |draws| >= prefixLength
    decreases prefixLength - i
    ensures |r| == |v|
    ensures r[..i] == v[..i]
  {
    if i == prefixLength then v
    else
      var chosen := i + draws[i] % (|v| - i);
      var next := if chosen != i then Swap(v, i, chosen) else v;
      assert next[..i] == v[..i];
      var r := ShuffleFrom(next, i + 1, prefixLength, draws);
      assert r[..i] == r[..i + 1][..i];
      r
  }

  /** The shuffle is a permutation: every entry is kept, none is duplicated. */
  lemma {:induction false} ShuffleFromPermutes<T>(v: seq<T>, i: nat, prefixLength: nat, draws: seq<nat>)
    requires i <= prefixLength <= |v| && |draws| >= prefixLength
    decreases prefixLength - i
    ensures multiset(ShuffleFrom(v, i, prefixLength, draws)) == multiset(v)
  {
    if i < prefixLength {
      var chosen := i + draws[i] % (|v| - i);
      var next := if chosen != i then Swap(v, i, chosen) else v;
      assert ShuffleFrom(v, i, prefixLength, draws) == ShuffleFrom(next, i + 1, prefixLength, draws);
      if chosen != i {
        SwapPermutes(v, i, chosen);
      }
      ShuffleFromPermutes(next, i + 1, prefixLength, draws);
    }
  }

  /** Shuffles only the first `prefixLength` positions. */
  function ShufflePrefix<T>(values: seq<T>, prefixLength: nat, draws: seq<nat>): (r: seq<T>)
    requires prefixLength <= |values| && |draws| >= prefixLength
    ensures |r| == |values|
  {
    ShuffleFrom(values, 0, prefixLength, draws)
  }

  /** The shuffled prefix is drawn without replacement: a sub-multiset of the entries. */
  lemma ShufflePrefixDrawsWithoutReplacement<T>(values: seq<T>, prefixLength: nat, draws: seq<nat>)
    requires prefixLength <= |values| && |draws| >= prefixLength
    ensures multiset(ShufflePrefix(values, prefixLength, draws)) == multiset(values)
    ensures multiset(ShufflePrefix(values, prefixLength, draws)[..prefixLength]) <= multiset(values)
  {
    var r := ShufflePrefix(values, prefixLength, draws);
    ShuffleFromPermutes(values, 0, prefixLength, draws);
    assert r == r[..prefixLength] + r[prefixLength..];
  }

  /**
   * Scans the sampled candidates; a candidate replaces the current pick only
   * if its score plus its jitter is strictly below the pick's score, and the
   * pick then stores the score without jitter.
   */
  function PickBest(candidates: seq<Candidate>, jitter: seq<real>, pick: Pick, w: Weights): (r: Pick)
    requires |jitter| >= |candidates|
    requires forall j :: 0 <= j < |jitter| ==> 0.0 <= jitter[j]
    decreases |candidates|
    ensures r.score <= pick.score
    // the pick changes only to a candidate whose jittered score beats the starting pick
    ensures r == pick ||
            (exists j :: 0 <= j < |candidates| &&
               r == Pick(candidates[j].index, Score(candidates[j].statistics, w)) &&
               Score(candidates[j].statistics, w) + jitter[j] < pick.score)
    // no candidate's jittered score is below the final pick's score
    ensures forall j :: 0 <= j < |candidates| ==> r.score <= Score(candidates[j].statistics, w) + jitter[j]
  {
    if |candidates| == 0 then pick
    else
      var c := candidates[0];
      var score := Score(c.statistics, w);
      var next := if score + jitter[0] < pick.score then Pick(c.index, score) else pick;
      var r := PickBest(candidates[1..], jitter[1..], next, w);
      assert forall j :: 1 <= j < |candidates| ==> candidates[j] == candidates[1..][j - 1] && jitter[j] == jitter[1..][j - 1];
      if r == next then r
      else
        var j :| 0 <= j < |candidates[1..]| &&
                 r == Pick(candidates[1..][j].index, Score(candidates[1..][j].statistics, w)) &&
                 Score(candidates[1..][j].statistics, w) + jitter[1..][j] < next.score;
        assert r == Pick(candidates[j + 1].index, Score(candidates[j + 1].statistics, w));
        r
  }

  /** Ties never displace the pick: with every jittered score at or above it, the pick stays. */
  lemma TiesKeepPick(candidates: seq<Candidate>, jitter: seq<real>, pick: Pick, w: Weights)
    requires |jitter| >= |candidates| && forall j :: 0 <= j < |jitter| ==> 0.0 <= jitter[j]
    requires forall j :: 0 <= j < |candidates| ==> Score(candidates[j].statistics, w) + jitter[j] >= pick.score
    ensures PickBest(candidates, jitter, pick, w) == pick
  {
  }

  /** The candidates that are scored: the first ceil(sqrt(n)) entries after the prefix shuffle. */
  function Sample(d: Director, compatible: seq<SiloAddress>, draws: Draws): (r: seq<Candidate>)
    requires ValidDraws(draws, |compatible|)
    ensures |r| == CeilSqrt(|EligibleFrom(compatible, d.statistics, 0)|)
    ensures |r| <= |compatible|
    ensures forall k :: 0 <= k < |r| ==>
              IsEligible(compatible, d.statistics, r[k].index) &&
              r[k].statistics == d.statistics[compatible[r[k].index]].value
  {
    var eligible := EligibleFrom(compatible, d.statistics, 0);
    var k := CeilSqrt(|eligible|);
    SampleSizeBounded(|eligible|);
    var r := ShufflePrefix(eligible, k, draws.shuffle)[..k];
    ShufflePrefixDrawsWithoutReplacement(eligible, k, draws.shuffle);
    forall i | 0 <= i < |r|
      ensures IsEligible(compatible, d.statistics, r[i].index)
      ensures r[i].statistics == d.statistics[compatible[r[i].index]].value
    {
      assert r[i] in multiset(r);
      assert r[i] in multiset(eligible);
      assert r[i] in eligible;
    }
    r
  }

  /** No eligible silo is sampled twice. */
  lemma SampleDrawsWithoutReplacement(d: Director, compatible: seq<SiloAddress>, draws: Draws)
    requires ValidDraws(draws, |compatible|)
    ensures multiset(Sample(d, compatible, draws)) <= multiset(EligibleFrom(compatible, d.statistics, 0))
  {
    var eligible := EligibleFrom(compatible, d.statistics, 0);
    SampleSizeBounded(|eligible|);
    ShufflePrefixDrawsWithoutReplacement(eligible, CeilSqrt(|eligible|), draws.shuffle);
  }

  /** A pick from eligible candidates is the default pick or an eligible silo with its unjittered score. */
  lemma PickFromEligibleSample(compatible: seq<SiloAddress>, store: Store, sample: seq<Candidate>, jitter: seq<real>, w: Weights)
    requires forall k :: 0 <= k < |sample| ==>
               IsEligible(compatible, store, sample[k].index) &&
               sample[k].statistics == store[compatible[sample[k].index]].value
    requires |jitter| >= |sample| && forall j :: 0 <= j < |jitter| ==> 0.0 <= jitter[j]
    ensures PickBest(sample, jitter, Pick(0, 1.0), w) == Pick(0, 1.0) ||
            (IsEligible(compatible, store, PickBest(sample, jitter, Pick(0, 1.0), w).index) &&
             PickBest(sample, jitter, Pick(0, 1.0), w).score ==
               Score(store[compatible[PickBest(sample, jitter, Pick(0, 1.0), w).index]].value, w))
  {
    var r := PickBest(sample, jitter, Pick(0, 1.0), w);
    if r != Pick(0, 1.0) {
      var j :| 0 <= j < |sample| && r == Pick(sample[j].index, Score(sample[j].statistics, w));
      assert IsEligible(compatible, store, sample[j].index);
    }
  }

  /**
   * The best sampled candidate, starting from (index 0, score 1): its index is
   * always valid, and unless no sampled silo beat score 1 it is an eligible
   * silo scored without jitter.
   */
  function MakePick(d: Director, compatible: seq<SiloAddress>, draws: Draws): (r: Pick)
    requires |compatible| > 0 && ValidDraws(draws, |compatible|)
    ensures r.index < |compatible|
    ensures r.score <= 1.0
    ensures r == Pick(0, 1.0) ||
            (IsEligible(compatible, d.statistics, r.index) &&
             r.score == Score(d.statistics[compatible[r.index]].value, d.weights))
    ensures forall j :: 0 <= j < |Sample(d, compatible, draws)| ==>
              r.score <= Score(Sample(d, compatible, draws)[j].statistics, d.weights) + draws.jitter[j]
  {
    var sample := Sample(d, compatible, draws);
    var jitter := draws.jitter[..|sample|];
    PickFromEligibleSample(compatible, d.statistics, sample, jitter, d.weights);
    assert forall j :: 0 <= j < |sample| ==> jitter[j] == draws.jitter[j];
    PickBest(sample, jitter, Pick(0, 1.0), d.weights)
  }

  /** Whether the local silo wins over the best candidate's score. */
  predicate IsLocalSiloPreferable(d: Director, ctx: PlacementContext, compatible: seq<SiloAddress>, bestScore: real)
    // only an active, compatible, known and not overloaded local silo is ever preferred, and only
    // when its score is within the margin of the best candidate's
    ensures IsLocalSiloPreferable(d, ctx, compatible, bestScore) ==>
              && ctx.localSiloIsActive && ctx.localSilo in compatible && ctx.localSilo in d.statistics
              && !d.statistics[ctx.localSilo].value.isOverloaded
              && Score(d.statistics[ctx.localSilo].value, d.weights) <= bestScore + d.localSiloPreferenceMargin
  {
    && ctx.localSiloIsActive
    && ctx.localSilo in compatible
    && ctx.localSilo in d.statistics
    && !d.statistics[ctx.localSilo].value.isOverloaded
    && Score(d.statistics[ctx.localSilo].value, d.weights) - d.localSiloPreferenceMargin <= bestScore
  }

  /**
   * The preference only widens with a larger margin or a worse best
   * candidate: a local silo preferred once stays preferred.
   */
  lemma LocalPreferenceWidensWithMargin(d: Director, ctx: PlacementContext, compatible: seq<SiloAddress>,
                                        bestScore: real, margin: real, worseScore: real)
    requires IsLocalSiloPreferable(d, ctx, compatible, bestScore)
    requires margin >= d.localSiloPreferenceMargin && worseScore >= bestScore
    ensures IsLocalSiloPreferable(d.(localSiloPreferenceMargin := margin), ctx, compatible, worseScore)
  {
  }

  /** Chooses the silo for a new activation. */
  function OnAddActivation(d: Director, requestedHint: Option<SiloAddress>, compatible: seq<SiloAddress>,
                           ctx: PlacementContext, draws: Draws): (r: Placement)
    requires ValidDraws(draws, |compatible|)
    // a compatible hint wins before anything else
    ensures PlacementHint(requestedHint, compatible).Some? ==> r == Placed(requestedHint.value)
    // placement fails exactly when no silo is compatible
    ensures r.Failed? <==> |compatible| == 0
    ensures r.Failed? ==> r.error == SiloUnavailable
    // whatever is chosen is compatible
    ensures r.Placed? ==> r.silo in compatible
    ensures PlacementHint(requestedHint, compatible).None? && |compatible| == 1 ==> r == Placed(compatible[0])
    // cold start: a random compatible silo
    ensures PlacementHint(requestedHint, compatible).None? && |compatible| >= 2 && d.statistics == map[] ==>
              r == Placed(compatible[draws.pick % |compatible|])
    // otherwise the local silo when it is preferable, else the best sampled pick
    ensures PlacementHint(requestedHint, compatible).None? && |compatible| >= 2 && d.statistics != map[] ==>
              var best := MakePick(d, compatible, draws);
              r == Placed(if IsLocalSiloPreferable(d, ctx, compatible, best.score) then ctx.localSilo
                          else compatible[best.index])
  {
    var hint := PlacementHint(requestedHint, compatible);
    if hint.Some? then Placed(hint.value)
    else if |compatible| == 0 then Failed(SiloUnavailable)
    else if |compatible| == 1 then Placed(compatible[0])
    else if d.statistics == map[] then Placed(compatible[draws.pick % |compatible|])
    else
      var best := MakePick(d, compatible, draws);
      if IsLocalSiloPreferable(d, ctx, compatible, best.score) then Placed(ctx.localSilo)
      else Placed(compatible[best.index])
  }

  /** Every silo in the store reports plausible readings. */
  predicate PlausibleStore(store: Store) {
    forall s :: s in store ==> PlausibleReadings(store[s].value)
  }

  /**
   * A margin of 1 or more makes the director always choose an eligible local
   * silo when scores lie in [0, 1] (physical memory weight 0, plausible readings).
   */
  lemma LargeMarginAlwaysPrefersLocal(d: Director, hint: Option<SiloAddress>, compatible: seq<SiloAddress>,
                                      ctx: PlacementContext, draws: Draws)
    requires ValidDraws(draws, |compatible|) && |compatible| >= 2 && PlacementHint(hint, compatible).None?
    requires NonNegativeWeights(d.weights) && d.weights.physicalMemory == 0.0
    requires d.weights.cpuUsage + d.weights.memoryUsage + d.weights.availableMemory <= 1.0
    requires PlausibleStore(d.statistics) && d.localSiloPreferenceMargin >= 1.0
    requires ctx.localSiloIsActive && ctx.localSilo in compatible
    requires ctx.localSilo in d.statistics && !d.statistics[ctx.localSilo].value.isOverloaded
    ensures OnAddActivation(d, hint, compatible, ctx, draws) == Placed(ctx.localSilo)
  {
    var best := MakePick(d, compatible, draws);
    if best != Pick(0, 1.0) {
      ScoreInUnitRangeWithoutPhysicalMemoryWeight(d.statistics[compatible[best.index]].value, d.weights);
    }
    ScoreInUnitRangeWithoutPhysicalMemoryWeight(d.statistics[ctx.localSilo].value, d.weights);
    assert IsLocalSiloPreferable(d, ctx, compatible, best.score);
  }

  /**
   * With margin 0 the local silo displaces the best remote pick only when its
   * own score is no worse than that pick's.
   */
  lemma ZeroMarginPrefersLocalOnlyIfNoWorse(d: Director, hint: Option<SiloAddress>, compatible: seq<SiloAddress>,
                                            ctx: PlacementContext, draws: Draws)
    requires ValidDraws(draws, |compatible|) && |compatible| >= 2 && PlacementHint(hint, compatible).None?
    requires d.statistics != map[] && d.localSiloPreferenceMargin == 0.0
    requires var best := MakePick(d, compatible, draws);
             ctx.localSilo != compatible[best.index] && ctx.localSilo in d.statistics &&
             Score(d.statistics[ctx.localSilo].value, d.weights) > best.score
    ensures OnAddActivation(d, hint, compatible, ctx, draws) == Placed(compatible[MakePick(d, compatible, draws).index])
  {
  }

  // ---------------------------------------------------------------------------
  // Concrete scenarios
  // ---------------------------------------------------------------------------

  /** Statistics carrying only a cpu reading. */
  function CpuOnly(cpu: real, overloaded: bool): ResourceStatistics {
    ResourceStatistics(Some(cpu), None, None, None, overloaded)
  }

  const EqualWeights: Weights := Weights(0.25, 0.25, 0.25, 0.25)

  /** Three silos at 80%, 20% and 50% cpu, as first reported. */
  const ThreeSilos: Store :=
    map[0 := NewEntry(CpuOnly(80.0, false)), 1 := NewEntry(CpuOnly(20.0, false)), 2 := NewEntry(CpuOnly(50.0, false))]

  const C80: Candidate := Candidate(0, CpuOnly(80.0, false))
  const C20: Candidate := Candidate(1, CpuOnly(20.0, false))
  const C50: Candidate := Candidate(2, CpuOnly(50.0, false))

  lemma ThreeSilosAllEligible()
    ensures EligibleFrom([0, 1, 2], ThreeSilos, 0) == [C80, C20, C50]
  {
    assert ThreeSilos[0].value == C80.statistics && ThreeSilos[1].value == C20.statistics;
    assert ThreeSilos[2].value == C50.statistics;
    assert EligibleFrom([0, 1, 2], ThreeSilos, 3) == [];
    assert EligibleFrom([0, 1, 2], ThreeSilos, 2) == [C50];
    assert EligibleFrom([0, 1, 2], ThreeSilos, 1) == [C20, C50];
  }

  lemma CeilSqrtOfThree()
    ensures CeilSqrt(3) == 2
  {
    assert CeilSqrtFrom(3, 2) == 2;
    assert CeilSqrtFrom(3, 1) == 2;
  }

  lemma EqualWeightScores()
    ensures Score(C80.statistics, EqualWeights) == 0.2
    ensures Score(C20.statistics, EqualWeights) == 0.05
    ensures Score(C50.statistics, EqualWeights) == 0.125
  {
  }

  /** The shuffle stops at the prefix length. */
  lemma ShuffleAtEnd<T>(v: seq<T>, prefixLength: nat, draws: seq<nat>)
    requires prefixLength <= |v| && |draws| >= prefixLength
    ensures ShuffleFrom(v, prefixLength, prefixLength, draws) == v
  {
  }

  /** A draw of zero leaves position `i` in place. */
  lemma ShuffleKeeps<T>(v: seq<T>, i: nat, prefixLength: nat, draws: seq<nat>)
    requires i < prefixLength <= |v| && |draws| >= prefixLength
    requires draws[i] % (|v| - i) == 0
    ensures ShuffleFrom(v, i, prefixLength, draws) == ShuffleFrom(v, i + 1, prefixLength, draws)
  {
  }

  /** A non-zero draw exchanges position `i` with a later one. */
  lemma ShuffleSwaps<T>(v: seq<T>, i: nat, prefixLength: nat, draws: seq<nat>, j: nat)
    requires i < prefixLength <= |v| && |draws| >= prefixLength
    requires j == i + draws[i] % (|v| - i) && j != i
    ensures ShuffleFrom(v, i, prefixLength, draws) == ShuffleFrom(Swap(v, i, j), i + 1, prefixLength, draws)
  {
  }

  lemma SwapLastTwo<T>(a: T, b: T, c: T)
    ensures Swap([a, b, c], 1, 2) == [a, c, b]
  {
  }

  lemma SwapFirstTwo<T>(a: T, b: T, c: T)
    ensures Swap([a, b, c], 0, 1) == [b, a, c]
  {
  }

  /** Draws 0 then 1 keep the first entry and exchange the other two. */
  lemma ShuffleKeepFirst<T>(a: T, b: T, c: T)
    ensures ShufflePrefix([a, b, c], 2, [0, 1, 0]) == [a, c, b]
  {
    ShuffleKeeps([a, b, c], 0, 2, [0, 1, 0]);
    ShuffleSwaps([a, b, c], 1, 2, [0, 1, 0], 2);
    SwapLastTwo(a, b, c);
    ShuffleAtEnd([a, c, b], 2, [0, 1, 0]);
  }

  /** Draws 1 then 0 exchange the first two entries. */
  lemma ShuffleSwapFirst<T>(a: T, b: T, c: T)
    ensures ShufflePrefix([a, b, c], 2, [1, 0, 0]) == [b, a, c]
  {
    var draws := [1, 0, 0];
    assert 0 + draws[0] % 3 == 1 && draws[1] % 2 == 0;
    SwapFirstTwo(a, b, c);
    calc {
      ShufflePrefix([a, b, c], 2, draws);
      ShuffleFrom([a, b, c], 0, 2, draws);
      { ShuffleSwaps([a, b, c], 0, 2, draws, 1); }
      ShuffleFrom([b, a, c], 1, 2, draws);
      { ShuffleKeeps([b, a, c], 1, 2, draws); }
      ShuffleFrom([b, a, c], 2, 2, draws);
      { ShuffleAtEnd([b, a, c], 2, draws); }
      [b, a, c];
    }
  }

  /** A sample, once the eligible silos and their shuffle are known. */
  lemma SampleIs(d: Director, compatible: seq<SiloAddress>, draws: Draws, eligible: seq<Candidate>, k: nat, shuffled: seq<Candidate>)
    requires ValidDraws(draws, |compatible|)
    requires EligibleFrom(compatible, d.statistics, 0) == eligible
    requires CeilSqrt(|eligible|) == k && k <= |eligible|
    requires ShufflePrefix(eligible, k, draws.shuffle) == shuffled
    ensures Sample(d, compatible, draws) == shuffled[..k]
  {
  }

  /** Draws whose shuffle leaves the least loaded silo out of the sample. */
  const DrawsSkippingLeastLoaded := Draws(0, [0, 1, 0], [0.0, 0.0, 0.0])

  /** Draws whose shuffle samples the least loaded silo first; jitter on the second slot. */
  const DrawsSamplingLeastLoaded := Draws(0, [1, 0, 0], [0.0, 0.000005, 0.0])

  lemma ScenarioDrawsValid()
    ensures ValidDraws(DrawsSkippingLeastLoaded, 3)
    ensures ValidDraws(DrawsSamplingLeastLoaded, 3)
  {
  }

  lemma SampleSkippingLeastLoaded()
    ensures Sample(Director(EqualWeights, 0.0, ThreeSilos), [0, 1, 2], DrawsSkippingLeastLoaded) == [C80, C50]
  {
    ScenarioDrawsValid();
    ThreeSilosAllEligible();
    CeilSqrtOfThree();
    ShuffleKeepFirst(C80, C20, C50);
    SampleIs(Director(EqualWeights, 0.0, ThreeSilos), [0, 1, 2], DrawsSkippingLeastLoaded,
             [C80, C20, C50], 2, [C80, C50, C20]);
  }

  lemma SampleIncludingLeastLoaded()
    ensures Sample(Director(EqualWeights, 0.0, ThreeSilos), [0, 1, 2], DrawsSamplingLeastLoaded) == [C20, C80]
  {
    ScenarioDrawsValid();
    ThreeSilosAllEligible();
    CeilSqrtOfThree();
    ShuffleSwapFirst(C80, C20, C50);
    SampleIs(Director(EqualWeights, 0.0, ThreeSilos), [0, 1, 2], DrawsSamplingLeastLoaded,
             [C80, C20, C50], 2, [C20, C80, C50]);
  }

  /**
   * With no hint, several compatible silos, statistics known and the local
   * silo not active, the silo of the best sampled pick is chosen.
   */
  lemma PlacedAtBestSampled(d: Director, compatible: seq<SiloAddress>, ctx: PlacementContext, draws: Draws,
                            sample: seq<Candidate>, jitter: seq<real>, best: Pick)
    requires |compatible| >= 2 && ValidDraws(draws, |compatible|) && d.statistics != map[] && !ctx.localSiloIsActive
    requires Sample(d, compatible, draws) == sample && draws.jitter[..|sample|] == jitter
    requires PickBest(sample, jitter, Pick(0, 1.0), d.weights) == best
    ensures best.index < |compatible|
    ensures OnAddActivation(d, None, compatible, ctx, draws) == Placed(compatible[best.index])
  {
  }

  /** One candidate of the scan: it replaces the pick when its jittered score is lower. */
  lemma PickBestStep(candidates: seq<Candidate>, jitter: seq<real>, pick: Pick, w: Weights, score: real)
    requires 0 < |candidates| <= |jitter|
    requires forall j :: 0 <= j < |jitter| ==> 0.0 <= jitter[j]
    requires Score(candidates[0].statistics, w) == score
    ensures PickBest(candidates, jitter, pick, w) ==
            PickBest(candidates[1..], jitter[1..],
                     if score + jitter[0] < pick.score then Pick(candidates[0].index, score) else pick, w)
  {
  }

  lemma PickBestSkipping()
    ensures PickBest([C80, C50], [0.0, 0.0], Pick(0, 1.0), EqualWeights) == Pick(2, 0.125)
  {
    EqualWeightScores();
    PickBestStep([C80, C50], [0.0, 0.0], Pick(0, 1.0), EqualWeights, 0.2);
    assert [C80, C50][1..] == [C50] && [0.0, 0.0][1..] == [0.0];
    PickBestStep([C50], [0.0], Pick(0, 0.2), EqualWeights, 0.125);
    assert PickBest([], [], Pick(2, 0.125), EqualWeights) == Pick(2, 0.125);
  }

  lemma PickBestIncluding()
    ensures PickBest([C20, C80], [0.0, 0.000005], Pick(0, 1.0), EqualWeights) == Pick(1, 0.05)
  {
    EqualWeightScores();
    PickBestStep([C20, C80], [0.0, 0.000005], Pick(0, 1.0), EqualWeights, 0.05);
    assert [C20, C80][1..] == [C80] && [0.0, 0.000005][1..] == [0.000005];
    PickBestStep([C80], [0.000005], Pick(1, 0.05), EqualWeights, 0.2);
    assert PickBest([], [], Pick(1, 0.05), EqualWeights) == Pick(1, 0.05);
  }

  /**
   * Only ceil(sqrt(3)) = 2 of three eligible silos are scored, so the least
   * loaded silo (cpu 20%) is not chosen when the shuffle leaves it out of the
   * sample: the choice is not determined by the scores alone.
   */
  lemma LeastLoadedSiloCanBeSampledOut()
    ensures ValidDraws(DrawsSkippingLeastLoaded, 3) &&
            OnAddActivation(Director(EqualWeights, 0.0, ThreeSilos), None, [0, 1, 2],
                            PlacementContext(7, false), DrawsSkippingLeastLoaded) == Placed(2)
  {
    ScenarioDrawsValid();
    SampleSkippingLeastLoaded();
    PickBestSkipping();
    assert DrawsSkippingLeastLoaded.jitter[..2] == [0.0, 0.0];
    PlacedAtBestSampled(Director(EqualWeights, 0.0, ThreeSilos), [0, 1, 2], PlacementContext(7, false),
                        DrawsSkippingLeastLoaded, [C80, C50], [0.0, 0.0], Pick(2, 0.125));
  }

  /** When the sample includes it, the least loaded silo is chosen. */
  lemma SampledLeastLoadedSiloIsChosen()
    ensures ValidDraws(DrawsSamplingLeastLoaded, 3) &&
            OnAddActivation(Director(EqualWeights, 0.0, ThreeSilos), None, [0, 1, 2],
                            PlacementContext(7, false), DrawsSamplingLeastLoaded) == Placed(1)
  {
    ScenarioDrawsValid();
    SampleIncludingLeastLoaded();
    PickBestIncluding();
    assert DrawsSamplingLeastLoaded.jitter[..2] == [0.0, 0.000005];
    PlacedAtBestSampled(Director(EqualWeights, 0.0, ThreeSilos), [0, 1, 2], PlacementContext(7, false),
                        DrawsSamplingLeastLoaded, [C20, C80], [0.0, 0.000005], Pick(1, 0.05));
  }

  /**
   * When no sampled silo scores below 1 (here: every silo is overloaded), the
   * default pick, index 0, is returned: the first compatible silo, although
   * it is overloaded.
   */
  lemma DefaultPickCanBeOverloaded()
    ensures var store := map[0 := NewEntry(CpuOnly(99.0, true)), 1 := NewEntry(CpuOnly(10.0, true))];
            var d := Director(EqualWeights, 0.0, store);
            && OnAddActivation(d, None, [0, 1], PlacementContext(7, false), Draws(0, [0, 0], [0.0, 0.0])) == Placed(0)
            && store[0].value.isOverloaded
  {
    var store := map[0 := NewEntry(CpuOnly(99.0, true)), 1 := NewEntry(CpuOnly(10.0, true))];
    var d := Director(EqualWeights, 0.0, store);
    assert EligibleFrom([0, 1], store, 0) == [];
    assert CeilSqrt(0) == 0;
    assert MakePick(d, [0, 1], Draws(0, [0, 0], [0.0, 0.0])) == Pick(0, 1.0);
  }
}
