/**
  libtorrent's `sliding_average`: an integer-only exponential moving average
  that keeps a running mean and a running mean absolute deviation, both in
  fixed point scaled by 64, and a sample count that saturates at the
  inverted gain. While the count ramps up the accumulator is a cumulative
  average with gain 1/n; once the count saturates it is a fixed-gain EMA.
 */
module Libtorrent {
  import opened CppArith

  /** The three fields of an accumulator, as a value. */
  datatype State = State(meanFp: int, deviationFp: int, numSamples: int)

  /** What the default constructor produces: every field zero. */
  const EMPTY := State(0, 0, 0)

  /**
    What holds of every state the accumulator can reach: the count stays in
    [0, gain], the deviation is never negative and is zero until a second
    sample arrives, and the mean is zero until a first sample arrives.
   */
  predicate Reachable(gain: int, a: State)
  {
    && 0 <= a.numSamples <= gain
    && a.deviationFp >= 0
    && (a.numSamples <= 1 ==> a.deviationFp == 0)
    && (a.numSamples == 0 ==> a.meanFp == 0)
  }

  /**
    One `add_sample(s)` on the state `a`. The deviation of the new sample is
    taken from the mean as it stood before the sample; the mean moves toward
    the sample by 1/n of the distance (n the already incremented count), the
    deviation toward the new deviation by 1/(n - 1), both truncated toward zero.
   */
  function Step(gain: int, a: State, s: int): (r: State)
    requires 1 <= gain && 0 <= a.numSamples <= gain
    ensures r.numSamples == Min(a.numSamples + 1, gain)
  {
    var scaled := s * 64;
    var deviation := if a.numSamples > 0 then Abs(a.meanFp - scaled) else 0;
    var n := if a.numSamples < gain then a.numSamples + 1 else a.numSamples;
    var meanFp := a.meanFp + TDiv(scaled - a.meanFp, n);
    if n > 1 then
      State(meanFp, a.deviationFp + TDiv(deviation - a.deviationFp, n - 1), n)
    else
      State(meanFp, a.deviationFp, n)
  }

  /**
    What one step does: the new mean lies between the old mean and the
    scaled sample, and equals the scaled sample when the new count is 1; the
    deviation is untouched while the count is at most 1 and otherwise lies
    between the old deviation and the distance of the sample from the old
    mean; and the step keeps every invariant of a reachable state.
   */
  lemma StepProperties(gain: int, a: State, s: int)
    requires 1 <= gain && 0 <= a.numSamples <= gain
    ensures Between(a.meanFp, Step(gain, a, s).meanFp, 64 * s)
    ensures Step(gain, a, s).numSamples == 1 ==> Step(gain, a, s).meanFp == 64 * s
    ensures Step(gain, a, s).numSamples <= 1 ==> Step(gain, a, s).deviationFp == a.deviationFp
    ensures Step(gain, a, s).numSamples > 1 ==>
              Between(a.deviationFp, Step(gain, a, s).deviationFp, Abs(a.meanFp - 64 * s))
    ensures Reachable(gain, a) ==> Reachable(gain, Step(gain, a, s))
  {
    var n := Step(gain, a, s).numSamples;
    TDivShrinks(64 * s - a.meanFp, n);
    if n > 1 {
      TDivShrinks(Abs(a.meanFp - 64 * s) - a.deviationFp, n - 1);
    }
  }

  /** The state after adding `samples` in order to a freshly constructed accumulator. */
  function Feed(gain: int, samples: seq<int>): (r: State)
    requires gain >= 1
    ensures r.numSamples == Min(|samples|, gain)
    decreases |samples|
  {
    if samples == [] then EMPTY
    else Step(gain, Feed(gain, samples[..|samples| - 1]), samples[|samples| - 1])
  }

  /** Every state the accumulator reaches satisfies the invariants. */
  lemma {:induction false} FeedReachable(gain: int, samples: seq<int>)
    requires gain >= 1
    ensures Reachable(gain, Feed(gain, samples))
    decreases |samples|
  {
    if samples != [] {
      var init := samples[..|samples| - 1];
      FeedReachable(gain, init);
      StepProperties(gain, Feed(gain, init), samples[|samples| - 1]);
    }
  }

  /** Adding one more sample is one more step. */
  lemma FeedAppend(gain: int, samples: seq<int>, s: int)
    requires gain >= 1
    ensures Feed(gain, samples + [s]) == Step(gain, Feed(gain, samples), s)
  {
    assert (samples + [s])[..|samples|] == samples;
  }

  /**
    The count never decreases, never exceeds the gain, and once it has
    reached the gain it stays there.
   */
  lemma CountMonotone(gain: int, samples: seq<int>, more: seq<int>)
    requires gain >= 1
    ensures Feed(gain, samples).numSamples <= Feed(gain, samples + more).numSamples <= gain
    ensures Feed(gain, samples).numSamples == gain ==> Feed(gain, samples + more).numSamples == gain
  {
  }

  /** The first sample sets the mean to exactly that sample and leaves the deviation at 0. */
  lemma FirstSample(gain: int, s: int)
    requires gain >= 1
    ensures Feed(gain, [s]) == State(64 * s, 0, 1)
  {
    FeedAppend(gain, [], s);
    StepProperties(gain, EMPTY, s);
  }

  /**
    After two samples x and y (gain at least 2) the fixed-point mean is
    exactly their average and the fixed-point deviation exactly their distance.
   */
  lemma TwoSamples(gain: int, x: int, y: int)
    requires gain >= 2
    ensures Feed(gain, [x, y]) == State(32 * (x + y), 64 * Abs(x - y), 2)
  {
    FirstSample(gain, x);
    FeedAppend(gain, [x], y);
    assert [x] + [y] == [x, y];
    assert TDiv(64 * y - 64 * x, 2) == 32 * (y - x);
  }

  /**
    A sample in [lo, hi] keeps a fixed-point mean that lies in
    [64 * lo, 64 * hi] inside it, and the first sample puts it there.
   */
  lemma StepInRange(gain: int, a: State, s: int, lo: int, hi: int)
    requires 1 <= gain && 0 <= a.numSamples <= gain
    requires lo <= s <= hi
    requires a.numSamples == 0 || 64 * lo <= a.meanFp <= 64 * hi
    ensures 64 * lo <= Step(gain, a, s).meanFp <= 64 * hi
  {
    StepProperties(gain, a, s);
  }

  /** Samples that all lie in [lo, hi] keep the fixed-point mean within [64 * lo, 64 * hi]. */
  lemma {:induction false} MeanBounded(gain: int, samples: seq<int>, lo: int, hi: int)
    requires gain >= 1 && |samples| >= 1
    requires forall i :: 0 <= i < |samples| ==> lo <= samples[i] <= hi
    ensures 64 * lo <= Feed(gain, samples).meanFp <= 64 * hi
  {
    var init, s := samples[..|samples| - 1], samples[|samples| - 1];
    assert init + [s] == samples;
    FeedAppend(gain, init, s);
    if |init| >= 1 {
      MeanBounded(gain, init, lo, hi);
    }
    StepInRange(gain, Feed(gain, init), s, lo, hi);
  }

  /**
    A sample that equals the current mean, once the deviation is zero and at
    least one sample has arrived, leaves mean and deviation unchanged.
   */
  lemma StepAtMean(gain: int, a: State, c: int)
    requires 1 <= gain && 1 <= a.numSamples <= gain
    requires a.meanFp == 64 * c && a.deviationFp == 0
    ensures Step(gain, a, c).meanFp == 64 * c
    ensures Step(gain, a, c).deviationFp == 0
  {
    var n := Min(a.numSamples + 1, gain);
    assert Abs(a.meanFp - c * 64) == 0;
    assert TDiv(0, n) == 0;
    assert n > 1 ==> TDiv(0, n - 1) == 0;
  }

  /** A constant sample c keeps the fixed-point mean at exactly 64 * c and the deviation at 0. */
  lemma {:induction false} ConstantSamples(gain: int, samples: seq<int>, c: int)
    requires gain >= 1 && |samples| >= 1
    requires forall i :: 0 <= i < |samples| ==> samples[i] == c
    ensures Feed(gain, samples).meanFp == 64 * c
    ensures Feed(gain, samples).deviationFp == 0
  {
    var init := samples[..|samples| - 1];
    assert init + [c] == samples;
    FeedAppend(gain, init, c);
    if |init| >= 1 {
      ConstantSamples(gain, init, c);
      StepAtMean(gain, Feed(gain, init), c);
    } else {
      FirstSample(gain, c);
    }
  }

  /**
    The accumulator object. `meanFp`, `averageDeviationFp` and `numSamples`
    are the source's `m_mean`, `m_average_deviation` and `m_num_samples`.
   */
  class SlidingAverage {
    /** The template argument `inverted_gain`. */
    const invertedGain: int
    /** Stands for `std::numeric_limits<Int>::max()` of the template argument `Int`. */
    const intMax: int

    /** Fixed point, times 64. */
    var meanFp: int
    /** Fixed point, times 64. */
    var averageDeviationFp: int
    /** Samples received so far, but no more than `invertedGain`. */
    var numSamples: int

    /** Every sample added so far, in arrival order. */
    ghost var history: seq<int>

    function Snapshot(): State
      reads this
    {
      State(meanFp, averageDeviationFp, numSamples)
    }

    /** The fields are what adding the history in order to a fresh accumulator gives. */
    ghost predicate Valid()
      reads this
    {
      invertedGain >= 1 && intMax > 0 && Snapshot() == Feed(invertedGain, history)
    }

    constructor (invertedGain: int, intMax: int)
      requires invertedGain >= 1 && intMax > 0
      ensures Valid() && history == []
      ensures this.invertedGain == invertedGain && this.intMax == intMax
      ensures meanFp == 0 && averageDeviationFp == 0 && numSamples == 0
    {
      this.invertedGain := invertedGain;
      this.intMax := intMax;
      meanFp, averageDeviationFp, numSamples := 0, 0, 0;
      history := [];
    }

    method AddSample(s: int)
      requires Valid()
      requires s < TDiv(intMax, 64)
      modifies this
      ensures Valid() && history == old(history) + [s]
      ensures Snapshot() == Step(invertedGain, old(Snapshot()), s)
      ensures Between(old(meanFp), meanFp, 64 * s)
    {
      ghost var before := Snapshot();
      var scaled := s * 64;
      var deviation := if numSamples > 0 then Abs(meanFp - scaled) else 0;

      if numSamples < invertedGain {
        numSamples := numSamples + 1;
      }

      meanFp := meanFp + TDiv(scaled - meanFp, numSamples);

      if numSamples > 1 {
        averageDeviationFp := averageDeviationFp + TDiv(deviation - averageDeviationFp, numSamples - 1);
      }

      assert Snapshot() == Step(invertedGain, before, s);
      StepProperties(invertedGain, before, s);
      FeedAppend(invertedGain, history, s);
      history := history + [s];
      assert Snapshot() == Feed(invertedGain, history);
    }

    /**
      The mean in sample units: 0 before any sample, otherwise the fixed-point
      mean plus 32, divided by 64 with truncation. That rounds to nearest with
      ties upward for a fixed-point mean of -32 or more; below that the
      truncation toward zero reads one higher, except at exact ties (see
      `ReadsVsRoundHalfUp`).
     */
    function Mean(): (r: int)
      reads this
      ensures numSamples <= 0 ==> r == 0
      ensures numSamples > 0 && meanFp >= -32 ==> 64 * r - 32 <= meanFp < 64 * r + 32
      ensures numSamples > 0 && meanFp < -32 ==> 64 * r - 96 < meanFp <= 64 * r - 32
    {
      TDivTruncates(meanFp + 32, 64);
      if numSamples > 0 then TDiv(meanFp + 32, 64) else 0
    }

    /** The mean absolute deviation in sample units: 0 until two samples have arrived. */
    function AvgDeviation(): (r: int)
      reads this
      ensures numSamples <= 1 ==> r == 0
      ensures numSamples > 1 && averageDeviationFp >= -32 ==> 64 * r - 32 <= averageDeviationFp < 64 * r + 32
      ensures numSamples > 1 && averageDeviationFp < -32 ==> 64 * r - 96 < averageDeviationFp <= 64 * r - 32
    {
      TDivTruncates(averageDeviationFp + 32, 64);
      if numSamples > 1 then TDiv(averageDeviationFp + 32, 64) else 0
    }

    /** The number of samples, capped at the inverted gain. */
    function NumSamples(): (r: int)
      reads this
      ensures Valid() ==> r == Min(|history|, invertedGain)
    {
      numSamples
    }
  }

  /** A freshly constructed accumulator reads 0 everywhere. */
  lemma ColdStart(acc: SlidingAverage)
    requires acc.Valid() && acc.history == []
    ensures acc.Mean() == 0 && acc.AvgDeviation() == 0 && acc.NumSamples() == 0
  {
  }

  /**
    A sample admitted by the precondition of `AddSample` still fits the
    integer width once scaled, at least 64 below the maximum.
   */
  lemma ScaledSampleFits(acc: SlidingAverage, s: int)
    requires acc.Valid() && s < TDiv(acc.intMax, 64)
    ensures 64 * s + 64 <= acc.intMax
  {
    TDivTruncates(acc.intMax, 64);
  }

  /**
    Rounding half up of a fixed-point value, with division that rounds down
    (Dafny's `/` by a positive divisor).
   */
  function RoundHalfUp(x: int): int
  {
    (x + 32) / 64
  }

  /**
    How the reads relate to rounding half up: they agree when the fixed-point
    value is at least -32 or is 32 more than a multiple of 64 (an exact tie);
    for every other value below -32 truncation toward zero reads one higher.
   */
  lemma ReadsVsRoundHalfUp(acc: SlidingAverage)
    ensures acc.numSamples > 0 ==>
              acc.Mean() == RoundHalfUp(acc.meanFp) +
                (if acc.meanFp < -32 && (acc.meanFp + 32) % 64 != 0 then 1 else 0)
    ensures acc.numSamples > 1 ==>
              acc.AvgDeviation() == RoundHalfUp(acc.averageDeviationFp) +
                (if acc.averageDeviationFp < -32 && (acc.averageDeviationFp + 32) % 64 != 0 then 1 else 0)
  {
    TruncatedVsFloor(acc.meanFp + 32);
    TruncatedVsFloor(acc.averageDeviationFp + 32);
  }

  /** Truncating and rounding-down division by 64 differ exactly for negative non-multiples. */
  lemma TruncatedVsFloor(x: int)
    ensures TDiv(x, 64) == x / 64 + (if x < 0 && x % 64 != 0 then 1 else 0)
  {
    TDivTruncates(x, 64);
  }

  /**
    On every reachable object the count lies in [0, invertedGain] and the
    deviation reads as a non-negative number.
   */
  lemma ReadsInRange(acc: SlidingAverage)
    requires acc.Valid()
    ensures 0 <= acc.NumSamples() <= acc.invertedGain
    ensures acc.AvgDeviation() >= 0
  {
    FeedReachable(acc.invertedGain, acc.history);
  }

  /**
    Reads after a run of one constant sample c: the mean reads back as c when
    c is not negative and as c + 1 when it is, and the deviation reads 0.
   */
  lemma ConstantReads(acc: SlidingAverage, c: int)
    requires acc.Valid() && |acc.history| >= 1
    requires forall i :: 0 <= i < |acc.history| ==> acc.history[i] == c
    ensures acc.Mean() == if c >= 0 then c else c + 1
    ensures acc.AvgDeviation() == 0
  {
    ConstantSamples(acc.invertedGain, acc.history, c);
  }

  /**
    Reads after two samples x and y: the deviation reads exactly |x - y|, so
    it is nonzero precisely when the samples differ, and for x + y >= 0 the
    mean is their average rounded half up.
   */
  lemma TwoSampleReads(acc: SlidingAverage, x: int, y: int)
    requires acc.Valid() && acc.invertedGain >= 2 && acc.history == [x, y]
    ensures acc.NumSamples() == 2
    ensures acc.AvgDeviation() == Abs(x - y)
    ensures x + y >= 0 ==> acc.Mean() == (x + y + 1) / 2
  {
    TwoSamples(acc.invertedGain, x, y);
  }

  /**
    The ramp-up example: with an inverted gain of 5, samples 10, 20 and 30
    take the fixed-point mean through 640, 960 and 1280 and the mean through
    10, 15 and 20; the deviation then reads 13.
   */
  method Example() returns (fixedPoint: seq<int>, means: seq<int>, deviation: int)
    ensures fixedPoint == [640, 960, 1280]
    ensures means == [10, 15, 20]
    ensures deviation == 13
  {
    var acc := new SlidingAverage(5, 0x7FFF_FFFF);
    fixedPoint, means := [], [];
    acc.AddSample(10);
    fixedPoint, means := fixedPoint + [acc.meanFp], means + [acc.Mean()];
    acc.AddSample(20);
    fixedPoint, means := fixedPoint + [acc.meanFp], means + [acc.Mean()];
    acc.AddSample(30);
    fixedPoint, means := fixedPoint + [acc.meanFp], means + [acc.Mean()];
    deviation := acc.AvgDeviation();
  }
}
