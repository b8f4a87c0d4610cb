# Verification of the HdrHistogram core

This project models the vendored HdrHistogram library of the `chist` tool in Dafny and proves
what it is for. `dafny verify dfyconfig.toml` checks all of it.

- **Histogram** (`Bits`, `Layout`, `Config`, `Ranges`, `Counts`, `Stats`, `Transfers`,
  `Omission`, `Histogram`): the map between 64-bit values and counts indexes with its masks,
  shifts and leading zeros; a class that updates saturating counters, total and tracked extremes
  in place. `Valid()` holds after every operation, failed ones included; `Exact()` says that the
  tracked extremes are those of the counts, `MinKnown()` that the smallest value past index 0 is. Counters have a symbolic maximum, so one model covers
  all counter types.
- **What it promises** (`RoundTrip`, `HistogramRuns`, `Cloning`, `Accuracy`, `Limits`): subtracting
  undoes adding, every reachable state is valid, copies are faithful, extremes, sums, rank, quantile and
  range queries agree with the samples up to the promised precision, and inputs at which promises end.
- **V2 format** (`Varint`, `RunLengths`, `V2Format`, `V2Inputs`, `V2Encoder`, `V2Decoder`,
  `V2RoundTrip`): the format as functions, its bytes and what it refuses, the writers and readers as
  methods on buffers and streams proved equal to the functions, and the round trip.
- **Iteration** (`Iteration`, `LinearIteration`, `Iterators`): the engine as a state function, an
  object that refines it, and what the recorded and the linear picker yield.
- **Phase shift** (`Phases`, `PhaseProgress`, `PhaseVisibility`): recorders, lock, phase and channel as a
  machine of atomic steps, with theorems about every interleaving.

Words are natural numbers with their 64-bit limits written out; shifts and bit operators are defined
digit by digit.

Some promises are not kept by the code in all cases. Each is proved with its exact condition and an
input for which it fails:

- `subtract` refuses what `add` accepted when the source holds `u64::MAX`
  (`RoundTrips.AddThenSubtract`, `Limits.SubtractRefusesWhatAddAccepted`), and without growing `add`
  refuses that value although it has a counter (`Histograms.Histogram.Add`,
  `Limits.AddRefusesWhatIsCovered`).
- `iter_recorded` yields nothing when all samples are at index 0
  (`Iteration.RecordedYieldsNonZeros`, `Limits.RecordedSkipsZero`), `iter_linear` then reports none of
  them (`LinearIteration.LinearReportsAll`, `Limits.LinearSkipsZero`), and a corrected copy loses them
  (`Cloning.CloneCorrect`).
- `clone` panics, and so does merging a recorder’s histogram, when growing is off and `u64::MAX` has
  been recorded (`Cloning.Clone`, `Cloning.MergeRecorded`, `Limits.CloneRefuses`).
- `iter_linear` steps past the 64-bit words for some histograms and steps
  (`LinearIteration.LinearEndsIff`, `LinearIteration.LinearOverflows`, `Limits.WidestStepOverflows`).
- The comment at `sync/mod.rs:315` says that no recorder can leave while the phase is raised, but the
  lock is released at the end of line 316. A recorder that goes idle before line 319 makes the reader
  wait for a histogram that nobody owes (`Phases.BumpCovers`, `Phases.SilentDepartureStalls`).
- `min_nz` is the lowest recorded non-zero value until `subtract` takes out all samples of its class
  while index 0 has some: nothing is recomputed then (`Histograms.Histogram.Subtract`,
  `Limits.MinimumLeftBehind`).
- `highest_equivalent` is one short of the end of the topmost class
  (`Layouts.HighestEquivalentInClass`, `Limits.HighestEquivalentFallsShort`).
- The promised precision needs a unit not above the low bound, and the rounded logarithm at
  construction can exceed it (`Config.PreciseIffUnitFits`, `Config.RoundedUnitTooWide`).

## Model

| member | source | states |
|---|---|---|
| `Bits.BitLenOr` | tools/chist/HdrHistogram_rust/src/lib.rs:1552-1559 | the number of significant bits of `a \| b` is the larger of the two, which is what makes `leading_zeros` of the masked value a bucket number |
| `Layouts.Layout.BucketFor` | tools/chist/HdrHistogram_rust/src/lib.rs:1552-1559 | the bucket is the lowest one whose sub-buckets reach the value: it lies below the bucket’s power of two and, past bucket 0, not below half of it |
| `Layouts.SubBucketBounds` | tools/chist/HdrHistogram_rust/src/lib.rs:1565-1577 | the sub-bucket is in range, in the upper half past bucket 0, and brackets the value (the two debug assertions of `index_for`) |
| `Layouts.IndexNonNegative` | tools/chist/HdrHistogram_rust/src/lib.rs:367-383 | the index computation never goes negative and simplifies to level and sub-bucket |
| `Layouts.StartOfIndexFor` | tools/chist/HdrHistogram_rust/src/lib.rs:358-383 | the class of the index of a value contains the value |
| `Layouts.StartOfNext` | tools/chist/HdrHistogram_rust/src/lib.rs:1618-1620 | classes follow each other without a gap, across bucket borders as well, and widths only double |
| `Layouts.IndexGalois` | tools/chist/HdrHistogram_rust/src/lib.rs:358-383 | for every 64-bit value and every index: the index is at most that of the value iff its class starts at or below the value |
| `Layouts.IndexMonotone` | tools/chist/HdrHistogram_rust/src/lib.rs:358-383 | the index map is monotone over all 64-bit values |
| `Layouts.IndexOfValueFor` | tools/chist/HdrHistogram_rust/src/lib.rs:1513-1534 | `index_for(value_for(i)) == i` for every index of every configuration |
| `Layouts.ValueForIncreasing` | tools/chist/HdrHistogram_rust/src/lib.rs:1513-1534 | `value_for` is strictly increasing over the indexes of a histogram |
| `Layouts.ValueOfIndexFor` | tools/chist/HdrHistogram_rust/src/lib.rs:1445-1449 | `value_for(index_for(v)) == lowest_equivalent(v)`, with `v` in the half-open range of `equivalent_range` above it |
| `Layouts.EquivalentIffSameIndex` | tools/chist/HdrHistogram_rust/src/lib.rs:1287-1289 | two values are equivalent if and only if they share an index |
| `Layouts.HighestEquivalentInClass` | tools/chist/HdrHistogram_rust/src/lib.rs:1456-1463 | the highest equivalent value stays in the class and is its last value, except one short of it in the topmost class |
| `Limits.HighestEquivalentFallsShort` | tools/chist/HdrHistogram_rust/src/lib.rs:1456-1463 | in every layout, the result for the second largest word is below an equivalent value |
| `Layouts.BucketsCover` | tools/chist/HdrHistogram_rust/src/lib.rs:1618-1620 | a number of buckets has a counter for exactly the values whose bucket is among them |
| `Layouts.UnitEquivalent` | tools/chist/HdrHistogram_rust/src/lib.rs:1654-1672 | rounding up or down with the unit mask never leaves the class of a value |
| `Config.AcceptedBounds` | tools/chist/HdrHistogram_rust/src/lib.rs:719-765 | with the exact integer logarithm for the unit (what `f64` gives for low below about 2^48), parameters are accepted iff low ≥ 1, high ≥ 2·low, at most 5 digits, and the digits fit 63 bits above the unit |
| `Config.HalfCoversDigits` | tools/chist/HdrHistogram_rust/src/lib.rs:735-760 | half a bucket has room for 10^digits values and for less than twice as many |
| `Config.SubBucketCounts` | tools/chist/HdrHistogram_rust/src/lib.rs:741-760 | 2, 32, 256, 2048, 32768 and 262144 sub-buckets for 0 to 5 digits |
| `Config.RefusedBounds` | tools/chist/HdrHistogram_rust/src/lib.rs:719-765 | the condition of each of the five errors: low 0; low from 2^63 on; high < 2·low; more than 5 digits; low times the sub-bucket count not below 2^64 (with the exact integer logarithm for the unit) |
| `Config.RangeIsPrecise` | tools/chist/HdrHistogram_rust/src/lib.rs:1489-1493 | with the exact integer logarithm for the unit (what `f64` gives for low below about 2^48), the width of the class of any value is at most max(low, value/10^digits) |
| `Config.PreciseIffUnitFits` | tools/chist/HdrHistogram_rust/src/lib.rs:735-769 | however the unit magnitude was computed, the promised precision holds for all values iff 2^unit ≤ low |
| `Config.RoundedUnitTooWide` | tools/chist/HdrHistogram_rust/src/tests/init.rs:212-234 | with unit magnitude 62 for low = 2^62−1, which the rounded logarithm gives, the promise is broken |
| `Ranges.TopCovers` | tools/chist/HdrHistogram_rust/src/lib.rs:466 | the bound that `add` and `subtract` compute from the last index is right for every value but the largest word |
| `Ranges.GrowthCovers` | tools/chist/HdrHistogram_rust/src/lib.rs:907-922 | a value without a counter is above the current bound, and growing for it strictly enlarges the array |
| `Histograms.Histogram.NewWithBounds` | tools/chist/HdrHistogram_rust/src/lib.rs:719-800 | with the exact integer logarithm for the unit (what `f64` gives for low below about 2^48), fails with the same error as the parameter check, else yields an empty valid histogram with exact statistics |
| `Histograms.Histogram.BucketsToCover` | tools/chist/HdrHistogram_rust/src/lib.rs:1590-1608 | the doubling loop, including its overflow exit, returns `bucket_for(value) + 1` for every 64-bit value |
| `Histograms.Histogram.Resize` | tools/chist/HdrHistogram_rust/src/lib.rs:1627-1651 | sets bucket count, bound and array length; old counts keep their indexes |
| `Histograms.Histogram.RecordNInner` | tools/chist/HdrHistogram_rust/src/lib.rs:884-928 | fails iff not clamping, not resizing and out of range, and then changes nothing; otherwise the whole new state: a value with a counter is counted there, a clamped one at the index of `high`, and after growing the fresh slot holds the count alone; keeps `Valid` and, for count > 0, exact statistics |
| `Histograms.Histogram.RecordN` | tools/chist/HdrHistogram_rust/src/lib.rs:867-871 | the same without clamping; with auto-resize it cannot fail |
| `Histograms.Histogram.Record` | tools/chist/HdrHistogram_rust/src/lib.rs:848-850 | one sample: counter, total, maximum index and, after growing, the new bound |
| `Histograms.Histogram.SaturatingRecordN` | tools/chist/HdrHistogram_rust/src/lib.rs:880-882 | never fails and never grows; a value with a counter is counted there, any other at the index of the high bound, which becomes the maximum index if it is larger; the fallback to the low bound is unreachable |
| `Histograms.Histogram.GrowFor` | tools/chist/HdrHistogram_rust/src/lib.rs:907-922 | every old count stays at its old index and the slot that was missing is zero |
| `Histograms.Histogram.RecordNCorrect` | tools/chist/HdrHistogram_rust/src/lib.rs:950-971 | fails only if the first record does; else counts and total are those of recording every corrected value, and the bound moves only if the value had no counter |
| `Accuracy.BumpAllAt` | tools/chist/HdrHistogram_rust/src/lib.rs:950-971 | each counter grows by the count times the number of corrected values of its class, saturating |
| `Accuracy.RecordCorrectHolding` | tools/chist/HdrHistogram_rust/src/lib.rs:950-971 | on the object: what is held afterwards are the samples held before and the corrected values |
| `Omission.CorrectedShape` | tools/chist/HdrHistogram_rust/src/lib.rs:950-971 | the corrected values are value, value−interval, … down to the interval: max(1, value/interval) of them |
| `Histograms.Histogram.Clear` | tools/chist/HdrHistogram_rust/src/lib.rs:644-649 | counts and total are zero, statistics keep their bounds |
| `Histograms.Histogram.Reset` | tools/chist/HdrHistogram_rust/src/lib.rs:652-661 | counts and total are zero and the statistics exact again |
| `Histograms.Histogram.Auto` | tools/chist/HdrHistogram_rust/src/lib.rs:665-667 | switches growing on or off and changes nothing else |
| `Histograms.Histogram.Restat` | tools/chist/HdrHistogram_rust/src/lib.rs:1697-1713 | recomputes total (saturated sum) and exact extremes, the smallest index past 0 included, from the counts below the given length alone |
| `Histograms.RestatState.OnNonZeroCount` | tools/chist/HdrHistogram_rust/src/lib.rs:1737-1745 | one more count taken into the running extremes and total |
| `Histograms.RestatState.UpdateHistogram` | tools/chist/HdrHistogram_rust/src/lib.rs:1749-1761 | after all counts have been taken in, the histogram written to has exact statistics, the smallest index past 0 or `u64::MAX` as tracked minimum, and the saturated sum as total |
| `Histograms.Histogram.AddSameShape` | tools/chist/HdrHistogram_rust/src/lib.rs:476-504 | the index-by-index path has the effect of `Absorbed`: merged counts, saturated total, larger of the two maximum indexes, bound unchanged, exact statistics kept |
| `Histograms.Histogram.AddByValue` | tools/chist/HdrHistogram_rust/src/lib.rs:505-530 | the value-by-value path has the same effect `Absorbed`; none of its inner records can fail |
| `RoundTrips.BothPathsAgree` | tools/chist/HdrHistogram_rust/src/lib.rs:476-530 | from equal states both paths of `add` end with equal counts, total and maximum index |
| `Histograms.Histogram.Add` | tools/chist/HdrHistogram_rust/src/lib.rs:462-540 | with growing off, fails iff the source’s maximum has no counter or is `u64::MAX`, and then changes nothing; otherwise each count arrives at the index where its value belongs, for any two layouts, and the bound becomes the source’s maximum if that was out of range and else stays |
| `Histograms.Histogram.TakeCounts` | tools/chist/HdrHistogram_rust/src/lib.rs:587-626 | the subtraction loop: which counts were taken when it stops, when a restat is due, and that the total never underflows |
| `Histograms.Histogram.Subtract` | tools/chist/HdrHistogram_rust/src/lib.rs:575-637 | succeeds iff in range and no count is too large; the state left by either error, total included; total and extremes whether or not the restat is skipped; the smallest value past index 0 stays right iff there was a restat or its index is not emptied; the panic is unreachable |
| `RoundTrips.MergedCanBeTakenOut` | tools/chist/HdrHistogram_rust/src/lib.rs:575-609 | what was merged without saturation can be taken out again and that restores every count; the range check passes iff the source’s maximum is not the largest word |
| `RoundTrips.AddThenSubtract` | tools/chist/HdrHistogram_rust/src/lib.rs:462-637 | when nothing saturates, a following subtract succeeds iff `s.max() != u64::MAX` and restores counts and total |
| `Limits.SubtractRefusesWhatAddAccepted` | tools/chist/HdrHistogram_rust/src/lib.rs:462-582 | a run in which `add` takes in the largest word and `subtract` refuses it |
| `Limits.AddRefusesWhatIsCovered` | tools/chist/HdrHistogram_rust/src/lib.rs:466-472 | a run in which `add` refuses the largest word although the target has a counter for it |
| `Transfers.RangeCheckPasses` | tools/chist/HdrHistogram_rust/src/lib.rs:579-582 | a value with a counter passes the range check of `subtract` iff it is not the largest word |
| `Transfers.SumMerged` | tools/chist/HdrHistogram_rust/src/lib.rs:476-530 | merging never adds more than the source’s sum, and exactly that when no counter saturates |
| `Counts.ImageSame` | tools/chist/HdrHistogram_rust/src/lib.rs:476-490 | between equal layouts every count belongs at its own index |
| `Counts.BumpInParts` | tools/chist/HdrHistogram_rust/src/lib.rs:884-891 | a saturating counter ends up the same whether a group of samples is recorded at once or in parts |
| `Accuracy.MergedTallies` | tools/chist/HdrHistogram_rust/src/lib.rs:476-530 | adding the counts of another layout is recording each of its samples as the lowest value of its class there |
| `Accuracy.AddHolding` | tools/chist/HdrHistogram_rust/src/lib.rs:462-540 | on the object: after a successful unsaturated `add` the counts are those of both sets of samples, for any two precisions and units |
| `Stats.ExactStatsAreExtremes` | tools/chist/HdrHistogram_rust/src/lib.rs:1251-1282 | with exact statistics `max()` lies at the largest non-zero index and `min()` at the smallest, and `min()` is 0 when the total is |
| `Stats.ExactStatsRecord` | tools/chist/HdrHistogram_rust/src/lib.rs:1674-1681 | recording at least one sample keeps the statistics exact |
| `Stats.ExactStatsAdd` | tools/chist/HdrHistogram_rust/src/lib.rs:496-503 | comparing only the reported extremes of the two histograms keeps the statistics exact |
| `Stats.ExactStatsReduce` | tools/chist/HdrHistogram_rust/src/lib.rs:611-626 | if no sample taken out touches an extreme, skipping the restat leaves the statistics exact (the minimum only a bound while index 0 is occupied) |
| `Stats.ExactMinReduce` | tools/chist/HdrHistogram_rust/src/lib.rs:611-626 | without a restat the tracked minimum stays right iff its index is not emptied |
| `Limits.MinimumLeftBehind` | tools/chist/HdrHistogram_rust/src/lib.rs:587-632 | samples 0, 1 and 4 without the 1: `min_nz()` still reports 1 |
| `Accuracy.MaxIsOfLargest` | tools/chist/HdrHistogram_rust/src/lib.rs:1266-1272 | `max()` is the last value of the class of the largest sample, outside the first and the topmost class; in the first it is at most the unit mask, in the topmost at least `u64::MAX − 1` |
| `Accuracy.MinIsOfSmallest` | tools/chist/HdrHistogram_rust/src/lib.rs:1251-1262 | `min()` is the lowest value of the class of the smallest sample; only in the topmost class it can be `u64::MAX` instead |
| `Accuracy.MinNonZeroIsOfSmallest` | tools/chist/HdrHistogram_rust/src/lib.rs:1276-1282 | `min_nz()` is the lowest value of the class of the smallest sample past index 0, whether or not index 0 has samples |
| `HistogramRuns.Perform` | tools/chist/HdrHistogram_rust/src/lib.rs:462-971 | one arbitrary operation, succeeding or failing, keeps the invariant |
| `HistogramRuns.RunAll` | tools/chist/HdrHistogram_rust/src/lib.rs:462-971 | every state reachable by any sequence of operations, switching growth included, is valid, has exact statistics if no step gave them up, and knows its smallest value past index 0 if there was also no subtraction |
| `Cloning.NewFrom` | tools/chist/HdrHistogram_rust/src/lib.rs:809-820 | an empty histogram of the same settings and length; its parameters are always accepted |
| `Cloning.Clone` | tools/chist/HdrHistogram_rust/src/lib.rs:1766-1772 | a copy has the same counts, saturated total, maximum index and bound; cloning panics iff growing is off and the maximum is `u64::MAX` |
| `Limits.CloneRefuses` | tools/chist/HdrHistogram_rust/src/lib.rs:1766-1779 | a histogram whose clone panics |
| `Cloning.CloneCorrect` | tools/chist/HdrHistogram_rust/src/lib.rs:427-434 | no inner record can fail; index by index the counts are the numbers of corrected samples, those at each index that `iter_recorded` yields being corrected as the highest value of their class; so is the total |
| `Cloning.CorrectedByIndex` | tools/chist/HdrHistogram_rust/src/lib.rs:427-434 | each counter of a corrected copy is the saturated number of corrected values of its class |
| `Cloning.MergeRecorded` | tools/chist/HdrHistogram_rust/src/sync/mod.rs:309-346 | merging a recorder’s histogram into one of the same settings fails iff growing is off and the recorder holds `u64::MAX`, and then changes nothing; otherwise counts are added index by index, saturating, with total and maximum index |
| `Histograms.Histogram.CountBetween` | tools/chist/HdrHistogram_rust/src/lib.rs:1416-1423 | the saturated sum of the counts between the two clamped indexes, nothing if they are out of order |
| `Histograms.Histogram.ValueAtRank` | tools/chist/HdrHistogram_rust/src/lib.rs:1352-1368 | the scan returns the class bound of the index whose prefix sums bracket the rank, and 0 if the rank is beyond the sum |
| `Histograms.Histogram.ValueAtQuantile` | tools/chist/HdrHistogram_rust/src/lib.rs:1339-1368 | the quantile query with the rank computed exactly over the reals |
| `Histograms.QuantileRankInRange` | tools/chist/HdrHistogram_rust/src/lib.rs:1341-1350 | the rank is the least one that reaches the fraction of the total, and at least the first; above 1 it is that for 1 |
| `Accuracy.TallyOfPermutation` | tools/chist/HdrHistogram_rust/src/lib.rs:884-891 | the counts do not depend on the order of the samples |
| `Accuracy.RankFindsSample` | tools/chist/HdrHistogram_rust/src/lib.rs:1352-1365 | the scan for rank k stops at the class of the k-th smallest recorded sample |
| `Accuracy.RankIsAccurate` | tools/chist/HdrHistogram_rust/src/lib.rs:1352-1365 | the reported value is off by less than `equivalent_range(v)`, which is, with the exact integer logarithm for the unit (what `f64` gives for low below about 2^48), at most max(low, v/10^digits) |
| `Accuracy.SpanIsTally` | tools/chist/HdrHistogram_rust/src/lib.rs:1416-1423 | a range query counts exactly the samples of the classes in the range |
| `Accuracy.CountSamples` | tools/chist/HdrHistogram_rust/src/lib.rs:1416-1423 | `count_between` on the object is the number of recorded samples from the lowest value equivalent to the one bound to the last one equivalent to the other; a bound without a counter stands for the last index |
| `Accuracy.BetweenUpToHighest` | tools/chist/HdrHistogram_rust/src/lib.rs:1404-1414 | for all samples but the largest word, these are the values up to `highest_equivalent` |
| `Accuracy.RecordAll` | tools/chist/HdrHistogram_rust/src/lib.rs:848-850 | after any unsaturated run of records each count is the number of samples of its class; with auto-resize no record is refused |
| `Accuracy.RecordGroups` | tools/chist/HdrHistogram_rust/src/lib.rs:867-871 | after any unsaturated run of `record_n` each count is the number of samples of its class, each group standing for its copies |
| `Accuracy.KthSmallest` | tools/chist/HdrHistogram_rust/src/lib.rs:1352-1368 | end to end for an integer rank, from the object: the highest value equivalent to the k-th smallest sample, with the precision of `RankIsAccurate` |
| `Accuracy.Quantile` | tools/chist/HdrHistogram_rust/src/lib.rs:1339-1368 | end to end for a quantile, with exact arithmetic for the rank: the highest value equivalent to the sample of that rank, for quantile 0 the lowest |
| `Varint.ZigZagMeaning` | tools/chist/HdrHistogram_rust/src/serialization/v2_serializer.rs:272-275 | the shift-and-xor maps n ≥ 0 to 2n and n < 0 to −2n−1 |
| `Varint.ZigZagRoundTrip` | tools/chist/HdrHistogram_rust/src/serialization/deserializer.rs:318-320 | decoding undoes encoding on all signed 64-bit numbers |
| `Varint.ZigZagOnto` | tools/chist/HdrHistogram_rust/src/serialization/deserializer.rs:318-320 | encoding undoes decoding on all 64-bit words |
| `Varint.VarintReadBack` | tools/chist/HdrHistogram_rust/src/serialization/deserializer.rs:207-257 | reading what was written gives the number back and stops at its end, whatever follows |
| `Varint.VarintShortest` | tools/chist/HdrHistogram_rust/src/serialization/v2_serializer.rs:193-199 | no byte string that reads as a number is shorter than what is written for it |
| `Varint.VarintLength` | tools/chist/HdrHistogram_rust/src/serialization/v2_serializer.rs:193-199 | at most k ≤ 8 bytes are used iff the number is below 2^(7k) |
| `Varint.VarintByte` | tools/chist/HdrHistogram_rust/src/serialization/v2_serializer.rs:193-266 | byte i holds bits 7i to 7i+6 under a set high bit, the last byte all the bits that are left |
| `Varint.VarintCut` | tools/chist/HdrHistogram_rust/src/serialization/deserializer.rs:261-302 | part of a number is no number |
| `Varint.VarintOfLonger` | tools/chist/HdrHistogram_rust/src/serialization/deserializer.rs:207-257 | bytes after a complete number do not matter |
| `Varint.UnwrittenStep` | tools/chist/HdrHistogram_rust/src/serialization/v2_serializer.rs:248-266 | the shifts and masks of the program give the next byte of the format |
| `Varint.VarintWrite` | tools/chist/HdrHistogram_rust/src/serialization/v2_serializer.rs:199-246 | the unrolled writer writes exactly the bytes of the format at its position and touches no other byte |
| `Varint.VarintReadSlice` | tools/chist/HdrHistogram_rust/src/serialization/deserializer.rs:207-257 | the unrolled slice reader returns the number of the format and the bytes it takes |
| `Varint.VarintRead` | tools/chist/HdrHistogram_rust/src/serialization/deserializer.rs:261-302 | the stream reader returns the same number and position, and fails iff the input ends inside the number |
| `Varint.ReadersAgree` | tools/chist/HdrHistogram_rust/src/serialization/deserializer.rs:207-302 | both readers agree on every slice of nine bytes or more |
| `RunLengths.ExpandTokens` | tools/chist/HdrHistogram_rust/src/serialization/v2_serializer.rs:135-190 | token spans partition the indexes up to the limit, and expanding the tokens gives the counts back |
| `RunLengths.TokensCompressed` | tools/chist/HdrHistogram_rust/src/serialization/v2_serializer.rs:155-170 | runs of zeros are never split, and a lone zero is written as itself |
| `V2Encoder.TakeToken` | tools/chist/HdrHistogram_rust/src/serialization/v2_serializer.rs:149-181 | one token of the counts, with every index in bounds; no token iff the count exceeds the signed range |
| `V2Encoder.EncodeCounts` | tools/chist/HdrHistogram_rust/src/serialization/v2_serializer.rs:117-190 | stays in bounds, writes at most 9 bytes per index and exactly the encoded counts; fails iff a count up to the limit exceeds the signed range |
| `V2Encoder.V2Serializer.Serialize` | tools/chist/HdrHistogram_rust/src/serialization/v2_serializer.rs:70-114 | the stream receives exactly the V2 bytes, or nothing if a count cannot be represented |
| `V2Format.BigEndianReadBack` | tools/chist/HdrHistogram_rust/src/serialization/v2_serializer.rs:81-92 | big-endian fields read back as written |
| `V2Format.HeaderRoundTrip` | tools/chist/HdrHistogram_rust/src/serialization/deserializer.rs:141-163 | every header that is written is accepted and says the same |
| `V2Format.DecodedStep` | tools/chist/HdrHistogram_rust/src/serialization/deserializer.rs:174-195 | the written form of a token is decoded as that token, then decoding continues behind it |
| `V2Format.CountsRoundTrip` | tools/chist/HdrHistogram_rust/src/serialization/deserializer.rs:169-195 | a decoded payload gives back all counts iff the reader’s counters can hold them |
| `V2Format.V2RoundTrip` | tools/chist/HdrHistogram_rust/src/serialization/deserializer.rs:103-200 | decoding what was written, followed by anything, gives the same bounds, precision and counts and uses up exactly the bytes written; otherwise only the counter-type error is possible |
| `V2Inputs.NoShorterInput` | tools/chist/HdrHistogram_rust/src/serialization/deserializer.rs:103-168 | whatever input is accepted, each part of it shorter than what it takes up is refused with an I/O error |
| `V2Inputs.NoPartIsAccepted` | tools/chist/HdrHistogram_rust/src/serialization/deserializer.rs:103-168 | no proper part of a written histogram is taken for one, whatever the reader’s counters can hold |
| `V2Inputs.WrittenFields` | tools/chist/HdrHistogram_rust/src/serialization/v2_serializer.rs:81-108 | cookie 1C 84 93 13, payload length, zero offset, digits, low, high, 3F F0 and six zeros, then the payload, each at its place |
| `V2Inputs.WrittenExample` | tools/chist/HdrHistogram_rust/src/serialization/v2_serializer.rs:70-114 | the 42 bytes written for counts 0, 0, 5 |
| `V2Inputs.CookieRefused` | tools/chist/HdrHistogram_rust/src/serialization/deserializer.rs:107-114 | 1C 84 93 14 is recognised as the compressed format, any other first four bytes are an invalid cookie |
| `V2Inputs.OffsetRefused` | tools/chist/HdrHistogram_rust/src/serialization/deserializer.rs:145-148 | a non-zero normalizing offset is an unsupported feature |
| `V2Inputs.RatioRefused` | tools/chist/HdrHistogram_rust/src/serialization/deserializer.rs:155-158 | so is a ratio other than the eight bytes of 1.0 |
| `V2Inputs.ParametersRefused` | tools/chist/HdrHistogram_rust/src/serialization/deserializer.rs:149-161 | any other complete header is accepted iff its digits are a byte and its bounds are those of a histogram; else the parameters are invalid |
| `V2Inputs.PayloadMeaning` | tools/chist/HdrHistogram_rust/src/serialization/deserializer.rs:338-373 | whatever numbers a payload consists of, it is accepted iff the counters hold them, the position stays a word and nothing is counted past the last index; the counts are then the expanded numbers, padded with zeros or cut |
| `V2Inputs.FirstBadNumber` | tools/chist/HdrHistogram_rust/src/serialization/deserializer.rs:338-373 | the first number that cannot be taken in decides the error: too large for a counter, past the last index, or past the words |
| `V2Inputs.EndsInsideNumber` | tools/chist/HdrHistogram_rust/src/serialization/deserializer.rs:188-195 | a payload that ends inside a number is an I/O error |
| `V2Decoder.DecodeLoopState.OnDecodedNum` | tools/chist/HdrHistogram_rust/src/serialization/deserializer.rs:338-373 | one decoded number: skip, count, or one of the three errors |
| `V2Decoder.DecodePayload` | tools/chist/HdrHistogram_rust/src/serialization/deserializer.rs:174-195 | fast loop and leftover loop together decode the sequence that the format defines, for every payload |
| `V2Decoder.DecodeLeftovers` | tools/chist/HdrHistogram_rust/src/serialization/deserializer.rs:188-195 | the leftover loop alone does, too |
| `V2Decoder.ReadHeader` | tools/chist/HdrHistogram_rust/src/serialization/deserializer.rs:141-163 | header fields and their errors in order, and an empty histogram for them |
| `V2Decoder.Fill` | tools/chist/HdrHistogram_rust/src/serialization/deserializer.rs:169-197 | after the payload the statistics are exact and the total is the saturated sum |
| `V2Decoder.Deserializer.DeserV2` | tools/chist/HdrHistogram_rust/src/serialization/deserializer.rs:137-200 | with the exact integer logarithm for the unit (what `f64` gives for low below about 2^48), for every input: the result or error that the format defines, whatever the reused buffer held |
| `V2Decoder.Deserializer.Deserialize` | tools/chist/HdrHistogram_rust/src/serialization/deserializer.rs:103-115 | the cookie selects the format; the compressed one is recognised and reported |
| `V2RoundTrips.ArchiveAndRestore` | tools/chist/HdrHistogram_rust/src/serialization/deserializer.rs:89-115 | histograms written to one stream come back in order through one reused deserializer, with equal bounds, precision and counts, exact statistics and saturated totals |
| `V2RoundTrips.WriteAndCutOff` | tools/chist/HdrHistogram_rust/src/serialization/deserializer.rs:103-200 | serializer and deserializer on the object: a stream that ends after k bytes of a written histogram gives an I/O error unless these are all of them, then the counter-type error or the histogram |
| `Iterators.HistogramIterator.Next` | tools/chist/HdrHistogram_rust/src/iterators/mod.rs:147-255 | the loop over object fields refines the state function `Iteration.Next` |
| `Iteration.EndedForGood` | tools/chist/HdrHistogram_rust/src/iterators/mod.rs:147-160 | once ended, the iterator yields nothing any more |
| `Iteration.NothingCounted` | tools/chist/HdrHistogram_rust/src/iterators/mod.rs:155-196 | if the maximum is at index 0, no picker ever gets a sample counted |
| `Iteration.NonZerosComplete` | tools/chist/HdrHistogram_rust/src/iterators/recorded.rs:17-28 | the list of non-zero indexes contains each of them once, in increasing order |
| `Iteration.RecordedCalls` | tools/chist/HdrHistogram_rust/src/iterators/recorded.rs:17-28 | for every histogram, call number k yields the k-th non-zero index with its count as the count since the last stop, or nothing past the last one; and nothing at all if the maximum is at index 0 |
| `Iteration.RecordedYieldsNonZeros` | tools/chist/HdrHistogram_rust/src/iterators/mod.rs:147-190 | the whole sequence is that iff the maximum index is positive or index 0 is empty |
| `Limits.RecordedSkipsZero` | tools/chist/HdrHistogram_rust/src/iterators/mod.rs:147-190 | a histogram with one recorded zero over which `iter_recorded` yields nothing |
| `Iterators.CollectRecorded` | tools/chist/HdrHistogram_rust/src/lib.rs:1182-1184 | the emissions collected from the object: for each non-zero index, in order, the highest value of its class with its count twice |
| `LinearIteration.PicksFromStop` | tools/chist/HdrHistogram_rust/src/iterators/linear.rs:41-55 | the linear picker stops exactly from the index of its level on |
| `LinearIteration.StepLinear` | tools/chist/HdrHistogram_rust/src/iterators/linear.rs:41-67 | one call moves from stop k to stop k+1, or ends after the last one |
| `LinearIteration.LinearStopMeaning` | tools/chist/HdrHistogram_rust/src/lib.rs:1106-1108 | stop k reports k·step−1, and the counts reported so far sum to the count between 0 and that value, or to nothing if the maximum is at index 0 |
| `LinearIteration.LinearAtZero` | tools/chist/HdrHistogram_rust/src/iterators/linear.rs:41-67 | if the maximum is at index 0, the stops are the levels within the class of zero, each with a count of nothing |
| `LinearIteration.LinearEndsIff` | tools/chist/HdrHistogram_rust/src/iterators/linear.rs:41-67 | the iteration ends without a level overflowing iff the levels of the first stop at or past the maximum, of the stop after it, and the first level past that stop’s class are words; then the number of stops has a closed form |
| `LinearIteration.LinearOverflows` | tools/chist/HdrHistogram_rust/src/iterators/linear.rs:41-55 | otherwise the iterator reaches, with no stop being the last one, the state in which the next level overflows |
| `LinearIteration.LinearCalls` | tools/chist/HdrHistogram_rust/src/iterators/linear.rs:41-67 | whenever the levels are words: the number of stops in closed form; stop k reports k·step−1, the count of that value’s class and the samples since the stop before; nothing afterwards; and what was reported in all |
| `LinearIteration.EmissionMeaning` | tools/chist/HdrHistogram_rust/src/iterators/mod.rs:199-236 | what a stop reports: the last value of its step, the count of that value’s class, and the samples since the step before |
| `LinearIteration.LinearReportsAll` | tools/chist/HdrHistogram_rust/src/iterators/mod.rs:155-196 | the whole iteration reports all samples iff the maximum index is positive or index 0 is empty |
| `Limits.LinearSkipsZero` | tools/chist/HdrHistogram_rust/src/iterators/mod.rs:155-196 | a histogram with one recorded zero over which `iter_linear(1)` reports nothing |
| `Limits.WidestStepOverflows` | tools/chist/HdrHistogram_rust/src/iterators/linear.rs:41-55 | with step `u64::MAX` the level after the first stop overflows for every histogram |
| `Iterators.CollectLinear` | tools/chist/HdrHistogram_rust/src/lib.rs:1106-1108 | the emissions collected from the object: their number, values k·step−1, the count of each value’s class, the samples between consecutive values, and counts that sum to all samples iff the maximum index is positive or index 0 is empty |
| `Phases.InvStep` | tools/chist/HdrHistogram_rust/src/sync/mod.rs:43-205 | every atomic step of recorders and reader keeps conservation, phase order and the membership count |
| `Phases.Conservation` | tools/chist/HdrHistogram_rust/src/sync/mod.rs:43-205 | in every run each sample is merged, in the channel or held by one recorder, a dropped recorder holds none, and the count equals the active recorders |
| `Phases.CountCovers` | tools/chist/HdrHistogram_rust/src/sync/mod.rs:64-64 | no operation of a recorder whose idle guards are not leaked takes the number of recorders below zero |
| `Phases.SentIsMerged` | tools/chist/HdrHistogram_rust/src/sync/mod.rs:303-355 | with whatever step a refresh returns, after a timeout as well, everything ever sent is merged, in every run |
| `Phases.CoveredStep` | tools/chist/HdrHistogram_rust/src/sync/mod.rs:325-347 | while the reader waits, every step keeps: histograms still waited for ≤ messages in the channel + active recorders that are behind |
| `Phases.BumpCovers` | tools/chist/HdrHistogram_rust/src/sync/mod.rs:315-319 | raising the phase establishes that iff no more recorders left silently since the count was read than arrived or sent |
| `Phases.CoveredRun` | tools/chist/HdrHistogram_rust/src/sync/mod.rs:315-347 | so it holds in every state of every run whose windows satisfy that condition |
| `Phases.NeverWaitsForNothing` | tools/chist/HdrHistogram_rust/src/sync/mod.rs:315-347 | with count and phase raised in one step, a reader waiting on an empty channel is always owed a histogram by an active recorder; that it gets it is `PhaseProgress.RefreshReturns` |
| `PhaseProgress.WriteAnswers` | tools/chist/HdrHistogram_rust/src/sync/mod.rs:164-186 | the next write of a recorder that owes a histogram sends it, with what it held and the samples of that write, and it then owes and holds nothing |
| `PhaseProgress.WriteKeeps` | tools/chist/HdrHistogram_rust/src/sync/mod.rs:164-175 | a write of a recorder that owes nothing sends nothing, and the samples stay with it |
| `PhaseProgress.OvertakenWrite` | tools/chist/HdrHistogram_rust/src/sync/mod.rs:169-173 | a write that loaded the phase before it was raised sends all the same, and the recorder owes another histogram |
| `PhaseProgress.RefreshCanReturn` | tools/chist/HdrHistogram_rust/src/sync/mod.rs:303-355 | from every state within a refresh, with the departures of the window made up for, ordinary writes and steps of the reader alone let the refresh return, with no timeout, drop or clone |
| `PhaseProgress.RefreshReturns` | tools/chist/HdrHistogram_rust/src/sync/mod.rs:315-355 | so from every waiting state reached with count and phase raised in one step |
| `Phases.SilentDepartureStalls` | tools/chist/HdrHistogram_rust/src/sync/mod.rs:188-205 | as the program is written, a run in which a recorder goes idle between lines 316 and 319 leaves the reader waiting for nobody |
| `Phases.StallIsPermanent` | tools/chist/HdrHistogram_rust/src/sync/mod.rs:324-347 | no writing, leaving or returning ends that wait; only a drop, a clone or a timeout can |
| `PhaseVisibility.SteadyByReader` | tools/chist/HdrHistogram_rust/src/sync/mod.rs:303-355 | while membership is fixed from reading the number of recorders until all have answered, the reader’s steps keep: each active recorder at most one phase behind, exactly the missing histograms outstanding |
| `PhaseVisibility.SteadyByRecorder` | tools/chist/HdrHistogram_rust/src/sync/mod.rs:43-205 | writes at any time keep that, and so do changes of membership outside that window |
| `PhaseVisibility.RefreshShowsAll` | tools/chist/HdrHistogram_rust/src/sync/mod.rs:303-360 | in every run with membership fixed in that window and no timeout, when a refresh returns every copy of a sample recorded before it raised the phase is merged, or held by a recorder that is idle |
| `PhaseVisibility.OneHistogramPerPhase` | tools/chist/HdrHistogram_rust/src/sync/mod.rs:164-186 | in such runs a recorder that does not go idle sends exactly one histogram per phase |

## Left out

- Floating point: mean, standard deviation, `quantile_below`, and the quantile and logarithmic iterators.
- Histograms.Histogram.ValueAtQuantile: the rank is computed over the reals; the rounding of the `f64` product, which can shift the rank for large totals, is not modelled.
- Config.AcceptedBounds: the unit magnitude is the exact floor of the binary logarithm. For a low bound above about 2^48 the `f64` logarithm can round up to the next integer; what that does to the precision is in `Config.PreciseIffUnitFits`.
- Config.RangeIsPrecise: for the exact logarithm, as above.
- Histograms.Histogram.NewWithBounds: for the exact logarithm, as above.
- V2Decoder.Deserializer.DeserV2: for the exact logarithm, as above.
- V2Decoder.Deserializer.Deserialize: the compressed format, as zlib is not part of this model; nor are base64 and the interval log.
- `iter_all`, `add_correct` (which is `clone_correct` into an existing histogram and can be refused midway), `set_to`, `PartialEq` and operator sugar.
- `new_from_snapshot` with a counts array of another length; the shape is an invariant here and not checked there.
- `usize` narrower than 64 bits and the errors for it, except where the decoder reports it for absurd skips.
- V2Decoder.DecodeLoopState.OnDecodedNum: the negation of the least signed word wraps, as in an optimised build; a build with overflow checks stops there.
- Histograms.Histogram.ValueAtRank: the running total wraps, as in an optimised build; what the result means is stated for counts that sum to a word, which is all the documentation promises.
- Iterators.CollectLinear: levels that overflow, where the program stops or wraps; `LinearIteration.LinearOverflows` says that it then really gets there.
- LinearIteration.LinearStopMeaning: the same levels.
- LinearIteration.StepLinear: with 0 digits and the full range, asking whether more follows at the last index shifts a word by 64 places. That yields 0 here, stops a build with overflow checks, and yields 1 in an optimised one, where the answer is the same as here because every level asked about is at least 1.
- Iterators.HistogramIterator.Next: quantiles in the emitted values, which are floating point.
- I/O errors other than the end of the input.
- Phases.InvStep: a critical section under the lock is one step, histograms are multisets of samples, merging does not fail (`Cloning.MergeRecorded` says when it does: growing off and `u64::MAX` recorded), memory is sequentially consistent, and the phase does not wrap around. Because steps of different threads interleave, the protocol is a machine on values and not a class with methods.
- PhaseVisibility.RefreshShowsAll: changes of membership between reading the number of recorders and the last answer, where the extra histogram of one recorder can stand in for that of another; for the same reason a drop between the end of draining and that reading, a return while leftovers are taken in, and clones of a recorder that idled through a refresh.
- Phases.CountCovers: an idle guard that is leaked, so that its recorder can be dropped or go idle again while it is not counted, takes the number of recorders down twice.
- `Recorder::subtract` and real clocks; a timeout is a step that may happen at any time while the reader waits.
