# libtorrent `sliding_average` in Dafny

This project models `libtorrent::sliding_average<Int, inverted_gain>`. It is an
exponential moving average accumulator that uses only integer arithmetic. It
keeps three fields:

- a running mean, in fixed point scaled by 64 (`m_mean`);
- a running mean absolute deviation, also scaled by 64 (`m_average_deviation`);
- a sample count that saturates at `inverted_gain` (`m_num_samples`).

While the count ramps up, each sample enters with gain 1/n, so the accumulator
is a cumulative average. Once the count reaches `inverted_gain`, it is a
fixed-gain EMA.

Files:

- `cpp_arith.dfy`, module `CppArith`: C++ integer division for a positive
  divisor, `TDiv`, which truncates toward zero where Dafny's `/` is Euclidean.
  It also holds `Abs`, `Min`, `Between` and the lemmas about truncation.
- `sliding_average.dfy`, module `Libtorrent`:
  - the value-level specification: `State` (the three fields), `Step` (one
    `add_sample`), `Feed` (a sequence of samples added in arrival order to a
    fresh accumulator), and `Reachable` (the invariants);
  - the class `SlidingAverage`, with the three source fields, the constants
    `invertedGain` and `intMax`, the constructor, the method `AddSample`, and
    the reads `Mean`, `AvgDeviation` and `NumSamples`;
  - lemmas about traces and reads, and a client method `Example` that runs the
    ramp-up trace on an object.

The object's invariant `Valid()` says that its fields equal `Feed` applied to a
ghost `history` of every sample added so far. `AddSample` appends to that
history and moves the fields by exactly one `Step`.

`intMax` stands for `std::numeric_limits<Int>::max()`. The precondition of
`add_sample` (line 57) becomes `requires s < TDiv(intMax, 64)`. The constructor
requires `invertedGain >= 1`: with a gain of 0 the count stays 0 and line 65
divides by zero. It also requires `intMax > 0`, which holds for every integral
type.

Three behaviours of the code that the model makes explicit:

- `mean()` adds 32 and then truncates toward zero. When the fixed-point mean is
  at least -32, this is rounding to nearest with ties upward. Below -32 the read
  is one above that rounding, except when the fixed-point mean is 32 more than a
  multiple of 64 (an exact tie), where the two agree (`ReadsVsRoundHalfUp`).
  A run of a constant negative sample `c` therefore reads back as `c + 1`,
  while a non-negative `c` reads back as `c` (`ConstantReads`).
  `avg_deviation()` rounds the same way.
- In `add_sample`, the `: 0` branch of the instantaneous deviation (line 60) is
  taken only when the old count is 0. The new count is then 1, so the
  deviation update at line 72 is skipped and that value is never used.
- Nothing in the computation depends on anything but the previous fields and
  the sample. `Feed` is a function, so the same sequence of samples always
  yields the same state.

## Model

| member | source | states |
|---|---|---|
| CppArith.TDiv | include/libtorrent/sliding_average.hpp:65-77 | C++ `/` by a positive divisor: the quotient has the sign of the dividend and is no larger in magnitude |
| CppArith.TDivTruncates | include/libtorrent/sliding_average.hpp:65-77 | C++ division by a positive divisor truncates toward zero: quotient times divisor lies between 0 and the dividend, less than one divisor away from it, for either sign of the dividend |
| CppArith.TDivShrinks | include/libtorrent/sliding_average.hpp:65-72 | a truncated quotient by a positive divisor lies between 0 and the dividend; dividing by 1 returns the dividend |
| CppArith.Abs | include/libtorrent/sliding_average.hpp:60 | `std::abs` gives a non-negative value equal to the argument or its negation |
| Libtorrent.Step | include/libtorrent/sliding_average.hpp:55-74 | one sample sets the count to min(old count + 1, inverted gain) |
| Libtorrent.StepProperties | include/libtorrent/sliding_average.hpp:59-73 | the new mean lies between the old mean and 64 * s, and equals 64 * s when the new count is 1; the deviation is unchanged while the new count is at most 1, and otherwise lies between the old deviation and abs(old mean - 64 * s); a reachable state stays reachable |
| Libtorrent.Feed | include/libtorrent/sliding_average.hpp:51-74 | after any sequence of samples on a fresh accumulator, the count is min(number of samples, inverted gain) |
| Libtorrent.FeedReachable | include/libtorrent/sliding_average.hpp:59-86 | every reachable state has a count in [0, inverted gain], a non-negative deviation that is 0 until a second sample, and a mean that is 0 until a first sample |
| Libtorrent.FeedAppend | include/libtorrent/sliding_average.hpp:55-74 | adding one more sample to a history is one more step on the state that history produced |
| Libtorrent.CountMonotone | include/libtorrent/sliding_average.hpp:62-63 | the count never decreases, never exceeds the inverted gain, and stays at the gain once it reaches it |
| Libtorrent.FirstSample | include/libtorrent/sliding_average.hpp:59-73 | the first sample s gives mean exactly 64 * s, deviation 0 and count 1 |
| Libtorrent.TwoSamples | include/libtorrent/sliding_average.hpp:59-73 | with a gain of at least 2, samples x then y give fixed-point mean 32 * (x + y), fixed-point deviation 64 * abs(x - y) and count 2 |
| Libtorrent.StepInRange | include/libtorrent/sliding_average.hpp:65 | a sample in [lo, hi] keeps a fixed-point mean in [64 * lo, 64 * hi] there, and a first sample puts it there |
| Libtorrent.MeanBounded | include/libtorrent/sliding_average.hpp:57-65 | if every sample lies in [lo, hi], the fixed-point mean lies in [64 * lo, 64 * hi] |
| Libtorrent.StepAtMean | include/libtorrent/sliding_average.hpp:60-72 | a sample equal to the current mean, with zero deviation and at least one earlier sample, changes neither mean nor deviation |
| Libtorrent.ConstantSamples | include/libtorrent/sliding_average.hpp:59-73 | a run of a constant sample c keeps the fixed-point mean at 64 * c and the deviation at 0 |
| Libtorrent.SlidingAverage.constructor | include/libtorrent/sliding_average.hpp:51 | a new accumulator has all three fields 0, an empty history, and satisfies the invariant |
| Libtorrent.SlidingAverage.AddSample | include/libtorrent/sliding_average.hpp:55-74 | under `s < max / 64`, the fields move by exactly one step, the history gains s at its end, the invariant is kept, and the new mean lies between the old mean and 64 * s |
| Libtorrent.SlidingAverage.Mean | include/libtorrent/sliding_average.hpp:76 | 0 before any sample; otherwise, for a fixed-point mean m of at least -32, the nearest whole value to m / 64 with ties upward; below -32, a value r with 64r - 96 < m <= 64r - 32 (one above that rounding except at exact ties) |
| Libtorrent.SlidingAverage.AvgDeviation | include/libtorrent/sliding_average.hpp:77 | 0 while the count is at most 1; otherwise the fixed-point deviation read with the same bounds as the mean read |
| Libtorrent.SlidingAverage.NumSamples | include/libtorrent/sliding_average.hpp:78 | on a valid object, min(number of samples added, inverted gain) |
| Libtorrent.ReadsVsRoundHalfUp | include/libtorrent/sliding_average.hpp:76-77 | with samples present, each read equals rounding half up of its fixed-point value, plus one exactly when that value is below -32 and not 32 more than a multiple of 64 |
| Libtorrent.ColdStart | include/libtorrent/sliding_average.hpp:51-78 | a fresh accumulator reads mean 0, deviation 0 and count 0 |
| Libtorrent.ScaledSampleFits | include/libtorrent/sliding_average.hpp:57-59 | a sample admitted by the precondition, scaled by 64, is at least 64 below the integer maximum |
| Libtorrent.ReadsInRange | include/libtorrent/sliding_average.hpp:76-86 | on a valid object the count read lies in [0, inverted gain] and the deviation read is non-negative |
| Libtorrent.ConstantReads | include/libtorrent/sliding_average.hpp:59-77 | after a run of a constant sample c, the mean reads c for c >= 0 and c + 1 for c < 0, and the deviation reads 0 |
| Libtorrent.TwoSampleReads | include/libtorrent/sliding_average.hpp:59-77 | after samples x then y, with a gain of at least 2, the count reads 2, the deviation reads abs(x - y), and for x + y >= 0 the mean reads (x + y + 1) / 2 |
| Libtorrent.Example | include/libtorrent/sliding_average.hpp:55-77 | with inverted gain 5 and samples 10, 20, 30, the fixed-point mean goes 640, 960, 1280, the mean reads 10, 15, 20, and the deviation then reads 13 |

## Left out

- Integer width: `Int` is modelled as unbounded `int`. The only bound that remains is the line 57 precondition against the constant `intMax`. Overflow that this precondition does not guard against is not modelled: `s * 64` for a very negative `s`, and `s - m_mean` for samples far apart. The edge case of `std::abs` at the minimum integer is not modelled either.
- `m_num_samples` and `num_samples()` are a C++ `int`, while `inverted_gain` has type `Int`. The model uses `int` for both, so an `inverted_gain` above the range of `int` is not modelled.
- `TORRENT_ASSERT` (line 57) is modelled only as a `requires` on `AddSample`. What the assertion does at run time in a debug build is not modelled.
- The template parameters: `inverted_gain` becomes the constructor argument `invertedGain`, and `Int` becomes the constant `intMax`. The `static_assert` that `Int` is integral has no counterpart.
- The defaulted copy constructor and copy assignment (lines 52-53) are left out. They copy the three fields and carry no logic.
- The include guards and includes (lines 33-40) are left out.
