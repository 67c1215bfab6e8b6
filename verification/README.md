# PerformanceCalculator in Dafny

A model of the scoring core of PerformanceCalculator, a tool that rates wind
power forecasts against observed production. The engine reads an
observation file and a directory of forecast files. It brings both series to
hourly resolution and pairs every forecast hour with the observation at the
same instant. Each file is scored into the calculator of the month it starts
in. Within that calculator every pair goes to a catch-all bin (-1) and to a
bin chosen by its lead time (discrete and turbine modes) or by its UTC hour
of day (continuous mode). Each bin keeps running error sums. From those sums
it derives the statistics MFE, MAE, MAPE, MSE, RMSE and RMSPE.

Underneath sits a small time library: UTC instants, time spans, resolution
classification, stepped enumeration of instants, and a time-of-day value.
There are also a bounded-value type and the pure helpers of the window
(the scope box parser, month abbreviations, the month-by-bin pivot).

The model is functional. Instants are .NET ticks (`UtcDateTimes.UtcDateTime`,
10,000 ticks per millisecond) and spans are tick counts (`TimeSpans`). Series
are `map`s from instant to `real`, or to `Option<real>` where the source
uses `double?`. Bins, ranges and calculators are immutable datatypes that
pure functions update. A call that throws in the source returns `Failure`
(see `Wrappers`). Loops over enumerated instants are recursive functions
over the sequence of instants the enumerator yields.

Modules, one per source file, plus helpers:

- `BinSkillScores` and `Skills`: the error accumulator and its statistics.
- `HourlySkillScoreCalculators`: bins and the three ways of adding a run.
- `ProductionDataHelpers`: the newer resampler in `Engine/ProductionDataHelper.cs`.
- `LegacyProductionDataHelpers`: the older resampler inside `Engine/PerformanceCalculatorEngine.cs`.
- `PerformanceCalculatorEngines`: reading files and converting to hourly resolution.
- Time library: `UtcDateTimes`, `UtcDateTimeEnumerators`, `TimeSpanExt`,
  `TimeResolutionTypeExt`, `TimeResolutions`, `Times`, `DateTimePatterns`.
- Bounded values: `RestrictedRanges`, `RestrictedRangeInts`, `RestrictedRangeDoubles`.
- `MainWindows`: only the scope parser, the month abbreviations and the pivot.
- Plain records: `MetaData`, `Turbines`.
- Helpers:
  - `Text`: .NET string routines (`Trim`, `Split`, `int.Parse`, `Convert.ToByte`).
  - `Int32`: 32-bit wrap-around and truncating division.
  - `TimeSpans`, `SeriesKeys`, `Arith`, `Wrappers`.

Inputs the model cannot compute itself are parameters:

- The .NET calendar and parsers: `DateTime.ParseExact`, `DateTime.TryParseExact`,
  `double.TryParse` and "first day of the month". They are the fields of
  `PerformanceCalculatorEngines.Platform`, and `DateTimePatterns` takes the trial
  parse as an argument.
- `Math.Sqrt` is a function argument of the metrics.
- `FormatDouble` is a function argument of `Print`.

Behaviour worth knowing:

- A repeated time stamp within one file throws, because the code uses
  `SortedDictionary.Add`.
- `Register` has no tolerance on the observed value: its guard
  `Math.Abs(actual) < 0.00` can never hold.
- Every row's value is parsed; a file is rejected only when none of its
  values is a number.
- The boundaries handed to the resamplers are not checked for order.
- The hours-ahead offset is read with `int.Parse` and may be negative. The
  discrete `Add` then reaches lead time -1, the catch-all bin's own key, and
  registers that hour's pair into the catch-all bin twice.
- The discrete `Add` walks every time of its run. The turbine and
  continuous runs can stop early: once eleven steps have passed, the turbine run stops when
  it has summed no observed value, and the continuous run stops when its
  observed sum is at most 1.

## Model

| member | source | states |
|---|---|---|
| BinSkillScores.New | PerformanceCalculator/SkillScore/BinSkillScore.cs:29-35 | a new bin holds the given id, label and capacity and starts with every sum and the count at zero |
| BinSkillScores.Residual | PerformanceCalculator/SkillScore/BinSkillScore.cs:45-52 | the normalised difference is the difference over the capacity when there is one; without a capacity it is over the observed value, and an observed 0 gives a non-finite double; when finite, its absolute value and its square times the divisor's absolute value and square give the absolute and squared difference |
| BinSkillScores.Register | PerformanceCalculator/SkillScore/BinSkillScore.cs:37-63 | the count rises by exactly one, so no sample is dropped; the raw sums grow by d, abs(d) and d squared for d = actual - forecast; with a capacity the residual and absolute residual sums grow by d and abs(d) over it; without one an observed 0 makes all residual sums non-finite; the id, label and capacity are kept (the other residual cases are `RegisterNormalises`) |
| BinSkillScores.AddResidual | PerformanceCalculator/SkillScore/BinSkillScore.cs:60 | the residual sum stays finite exactly when it was and the divisor is non-zero, and then grows by the difference over the divisor |
| BinSkillScores.AddAbsResidual | PerformanceCalculator/SkillScore/BinSkillScore.cs:61 | the absolute residual sum stays finite exactly when it was and the divisor is non-zero, and then grows by abs(d) over abs(divisor) |
| BinSkillScores.AddSqResidual | PerformanceCalculator/SkillScore/BinSkillScore.cs:62 | the squared residual sum stays finite exactly when it was and the divisor is non-zero, and then grows by d squared over the divisor squared |
| BinSkillScores.RegisterNormalises | PerformanceCalculator/SkillScore/BinSkillScore.cs:45-62 | with a capacity C the squared residual sum grows by d squared over C squared; without a capacity and with a non-zero observed value a, the three residual sums grow by d / a, abs(d) / abs(a) and d squared over a squared, each while the old sum is finite |
| BinSkillScores.RegisterAll | PerformanceCalculator/SkillScore/BinSkillScore.cs:37-63 | registering a run of samples raises the count by the run's length and keeps the bin's identity |
| BinSkillScores.RegisterAllAppend | PerformanceCalculator/SkillScore/BinSkillScore.cs:37-63 | registering two runs one after the other is registering their concatenation |
| BinSkillScores.RegisterAllSums | PerformanceCalculator/SkillScore/BinSkillScore.cs:41-43 | after a run, the raw sums are the old sums plus the run's own sums of differences, absolute differences and squared differences |
| BinSkillScores.Merge | PerformanceCalculator/SkillScore/BinSkillScore.cs:134-143 | merging adds the counts, the three raw sums and the three residual sums (a residual sum is finite exactly when both were, and then is their sum), and the bin keeps its own id, label and capacity |
| BinSkillScores.MergeFresh | PerformanceCalculator/SkillScore/BinSkillScore.cs:134-143 | merging in a fresh bin changes nothing |
| BinSkillScores.MergeOrder | PerformanceCalculator/SkillScore/BinSkillScore.cs:134-143 | the order in which two bins are merged in does not matter |
| BinSkillScores.MergeRegister | PerformanceCalculator/SkillScore/BinSkillScore.cs:37-143 | registering a sample before or after a merge gives the same bin |
| BinSkillScores.MergeRegisterAll | PerformanceCalculator/SkillScore/BinSkillScore.cs:37-143 | registering a run commutes with a merge |
| BinSkillScores.MergeOfRuns | PerformanceCalculator/SkillScore/BinSkillScore.cs:134-143 | two fresh bins of the same capacity that take two runs merge into the bin that takes both runs: a merge loses nothing and counts nothing twice |
| BinSkillScores.FreshValid | PerformanceCalculator/SkillScore/BinSkillScore.cs:29-35 | a fresh bin satisfies the bin invariant: non-negative count, non-negative absolute and squared sums, abs(sum of differences) bounded by the sum of absolute differences |
| BinSkillScores.RegisterValid | PerformanceCalculator/SkillScore/BinSkillScore.cs:57-62 | registering keeps the invariant; the absolute and squared sums never decrease, and neither do the absolute and squared residual sums while finite |
| BinSkillScores.MergeValid | PerformanceCalculator/SkillScore/BinSkillScore.cs:134-143 | merging two valid bins gives a valid bin |
| BinSkillScores.RegisterAllValid | PerformanceCalculator/SkillScore/BinSkillScore.cs:57-62 | a run keeps the invariant; the absolute and squared sums never decrease over it, and neither do the absolute and squared residual sums while finite |
| BinSkillScores.FreshScaled | PerformanceCalculator/SkillScore/BinSkillScore.cs:29-35 | a fresh bin's residual sums are its raw sums over the capacity (squares over its square) |
| BinSkillScores.RegisterScaled | PerformanceCalculator/SkillScore/BinSkillScore.cs:46-62 | with a capacity, registering keeps each residual sum equal to the matching raw sum scaled by the capacity |
| BinSkillScores.MergeScaled | PerformanceCalculator/SkillScore/BinSkillScore.cs:134-143 | merging two bins of the same capacity keeps that scaling |
| BinSkillScores.RegisterAllScaled | PerformanceCalculator/SkillScore/BinSkillScore.cs:46-62 | a run keeps that scaling |
| BinSkillScores.Mean | PerformanceCalculator/SkillScore/BinSkillScore.cs:65-78 | a statistic is a number exactly when the count is non-zero and the sum is finite; the number times the count is the sum |
| BinSkillScores.MetricsDefined | PerformanceCalculator/SkillScore/BinSkillScore.cs:65-83 | MFE, MAE, MSE and RMSE are numbers exactly when the bin holds a sample |
| BinSkillScores.Metric | PerformanceCalculator/SkillScore/BinSkillScore.cs:65-93 | no contract of its own; `MetricsDefined`, `MeanErrorBound` and `AbsoluteFromPercentage` state when each statistic is a number and how they relate |
| BinSkillScores.MeanErrorBound | PerformanceCalculator/SkillScore/BinSkillScore.cs:65-78 | for a valid bin with samples, abs(MFE) <= MAE and MSE >= 0 |
| BinSkillScores.AbsoluteFromPercentage | PerformanceCalculator/SkillScore/BinSkillScore.cs:46-88 | with a capacity C > 0 and at least one sample, MAE = C × MAPE / 100 |
| BinSkillScores.GetSkill | PerformanceCalculator/SkillScore/BinSkillScore.cs:145-148 | every field of the skill is the bin's statistic of the same name |
| BinSkillScores.GetSkillGet | PerformanceCalculator/SkillScore/BinSkillScore.cs:147 | reading a statistic from the skill by its code gives the bin's own statistic: the argument order matches the constructor |
| BinSkillScores.Print | PerformanceCalculator/SkillScore/BinSkillScore.cs:101-111 | printing by name succeeds exactly for the six codes and fails for any other string |
| BinSkillScores.PrintOne | PerformanceCalculator/SkillScore/BinSkillScore.cs:101-125 | printing one code gives the label (when asked for) and that statistic's entry, and nothing else |
| BinSkillScores.PrintFlags | PerformanceCalculator/SkillScore/BinSkillScore.cs:113-125 | no contract of its own; `PrintOne` states what it prints for a single chosen statistic |
| Skills.ParseStatMethod | PerformanceCalculator/SkillScore/Skill.cs:39-49 | a name that is accepted is the code of the statistic it names |
| Skills.ParseCode | PerformanceCalculator/SkillScore/Skill.cs:39-49 | every code reads back as its statistic |
| Skills.ParseStatMethodFails | PerformanceCalculator/SkillScore/Skill.cs:39-49 | the dispatch fails exactly on the names that are not one of the six codes |
| Skills.FromFields | PerformanceCalculator/SkillScore/Skill.cs:16-24 | the constructor stores each statistic in its own field |
| Skills.Get | PerformanceCalculator/SkillScore/Skill.cs:39-49 | reading by name succeeds exactly for a code, and then gives the field of that statistic |
| Skills.Average | PerformanceCalculator/SkillScore/Skill.cs:26-37 | averaging fails on an empty sequence; otherwise each field is that statistic's arithmetic mean over the skills |
| Skills.AverageOfCopies | PerformanceCalculator/SkillScore/Skill.cs:26-37 | the average of n copies of a skill is that skill |
| Skills.MeanOfCopies | PerformanceCalculator/SkillScore/Skill.cs:26-37 | the mean of one statistic over n copies is that statistic |
| Skills.AverageOfOne | PerformanceCalculator/SkillScore/Skill.cs:26-37 | the average of a single skill reproduces its fields |
| Skills.SumOfCopies | PerformanceCalculator/SkillScore/Skill.cs:26-37 | the sum of a statistic over n copies is n times it, and missing when the statistic is missing |
| Skills.AverageBounds | PerformanceCalculator/SkillScore/Skill.cs:26-37 | when every skill's value lies in [lo, hi] the mean lies there too |
| Skills.SumBounds | PerformanceCalculator/SkillScore/Skill.cs:26-37 | when every value lies in [lo, hi] the sum lies between n × lo and n × hi |
| HourlySkillScoreCalculators.IncreasingDistinct | PerformanceCalculator/SkillScore/HourlySkillScoreCalculator.cs:27-34 | a strictly increasing scope has no repeated entry |
| HourlySkillScoreCalculators.BuildBins | PerformanceCalculator/SkillScore/HourlySkillScoreCalculator.cs:27-34 | bins build exactly when the scope has no repeated entry; there is one fresh bin per entry, keyed by it, labelled "All" for -1 and "Hour_n" otherwise |
| HourlySkillScoreCalculators.NewCalculator | PerformanceCalculator/SkillScore/HourlySkillScoreCalculator.cs:20-35 | the constructor succeeds exactly for a scope without repeats, with nothing registered, an empty success table and one bin per scope entry |
| HourlySkillScoreCalculators.DefaultScopeBuilds | PerformanceCalculator/SkillScore/HourlySkillScoreCalculator.cs:37-41 | the default scope [-1,0,1,2,3,4,5,6,12,18,24,36,48] builds, with 13 bins including the catch-all one |
| HourlySkillScoreCalculators.RepeatedScopeFails | PerformanceCalculator/SkillScore/HourlySkillScoreCalculator.cs:33 | the scope [-1,1,2,3,2] does not build, because its bin 2 is added twice |
| HourlySkillScoreCalculators.RegisterAt | PerformanceCalculator/SkillScore/HourlySkillScoreCalculator.cs:57-60 | registering into one bin keeps the set of bins and leaves every other bin unchanged |
| HourlySkillScoreCalculators.RegisterPairContribution | PerformanceCalculator/SkillScore/HourlySkillScoreCalculator.cs:54-60 | a pair goes to the catch-all bin and to the bin of its lead time, each when present, and nowhere else |
| HourlySkillScoreCalculators.RegisterPair | PerformanceCalculator/SkillScore/HourlySkillScoreCalculator.cs:52-60 | no contract of its own; `RegisterPairContribution` states that it keeps the bins and gives each bin exactly the pair's `Contribution` |
| HourlySkillScoreCalculators.WalkDiscrete | PerformanceCalculator/SkillScore/HourlySkillScoreCalculator.cs:50-63 | the discrete loop keeps the set of bins |
| HourlySkillScoreCalculators.AddDiscrete | PerformanceCalculator/SkillScore/HourlySkillScoreCalculator.cs:43-64 | a discrete run raises the registered count by exactly one, keeps the set of bins, and leaves success, scope and turbines alone |
| HourlySkillScoreCalculators.WalkDiscreteBins | PerformanceCalculator/SkillScore/HourlySkillScoreCalculator.cs:49-62 | each bin ends up having registered exactly the pairs meant for it, in run order |
| HourlySkillScoreCalculators.LeadTimePairs | PerformanceCalculator/SkillScore/HourlySkillScoreCalculator.cs:49-62 | a lead-time bin k receives at most one pair, the one at position k - offset of the run, and only when both series hold that time |
| HourlySkillScoreCalculators.CatchAllPairs | PerformanceCalculator/SkillScore/HourlySkillScoreCalculator.cs:49-62 | for any first lead time, the catch-all bin receives every pair of the run in order, and the pair whose lead time is -1 (the catch-all key) a second time; with a first lead time of 0 or more, every pair exactly once |
| HourlySkillScoreCalculators.NegativeOffsetCountsTwice | PerformanceCalculator/SkillScore/HourlySkillScoreCalculator.cs:49-62 | with offset -1, a one-hour run registers its pair twice into the catch-all bin, whose count rises by two |
| HourlySkillScoreCalculators.AddDiscreteMeaning | PerformanceCalculator/SkillScore/HourlySkillScoreCalculator.cs:43-64 | for every offset, after a discrete run the catch-all bin has taken every pair (the one at position -1 - offset twice), the bin of lead time k the pair at position k - offset when both series hold it, and every other bin is unchanged |
| HourlySkillScoreCalculators.Advance | PerformanceCalculator/SkillScore/HourlySkillScoreCalculator.cs:160-184 | one continuous step keeps the set of bins and advances the step index by one |
| HourlySkillScoreCalculators.WalkContinuous | PerformanceCalculator/SkillScore/HourlySkillScoreCalculator.cs:153-185 | the continuous loop keeps the set of bins; it takes at most one step per time, and when it ends early it is because the abort rule held |
| HourlySkillScoreCalculators.StartContinuous | PerformanceCalculator/SkillScore/HourlySkillScoreCalculator.cs:147-152 | no contract of its own; the loop state before the first step: previous power -1, both sums 0 and both indices 0, from which `AddContinuous` and its lemmas start |
| HourlySkillScoreCalculators.AdvanceMeaning | PerformanceCalculator/SkillScore/HourlySkillScoreCalculator.cs:160-181 | one step registers its pick into the catch-all bin and into the bin of its UTC hour of day when that hour is in scope, and into no other bin |
| HourlySkillScoreCalculators.AdvanceCounts | PerformanceCalculator/SkillScore/HourlySkillScoreCalculator.cs:165-184 | one step adds its pick's observed value to the observed sum, raises regIndex only when an hour bin took the pick, and makes the observed value the previous power |
| HourlySkillScoreCalculators.WalkContinuousBins | PerformanceCalculator/SkillScore/HourlySkillScoreCalculator.cs:153-185 | over the whole loop each bin registers exactly the picks of its hour (all picks for the catch-all bin), in order |
| HourlySkillScoreCalculators.WalkContinuousCounts | PerformanceCalculator/SkillScore/HourlySkillScoreCalculator.cs:152-184 | regIndex counts the picks an hour bin took, so it never exceeds the step count timeIndex; the observed sum is the sum of the picks' observed values |
| HourlySkillScoreCalculators.CountSlottedBound | PerformanceCalculator/SkillScore/HourlySkillScoreCalculator.cs:177 | at most one regIndex increment per pick |
| HourlySkillScoreCalculators.WalkContinuousPicks | PerformanceCalculator/SkillScore/HourlySkillScoreCalculator.cs:160-163 | every pick is at a time the loop reached, held by both series, with that time's forecast and observed value |
| HourlySkillScoreCalculators.WalkContinuousNoRepeat | PerformanceCalculator/SkillScore/HourlySkillScoreCalculator.cs:150-181 | no picked forecast equals the observed value picked just before it (or -1 for the first pick): de-duplication compares against the previous observation, not the previous forecast |
| HourlySkillScoreCalculators.AddContinuous | PerformanceCalculator/SkillScore/HourlySkillScoreCalculator.cs:143-193 | a continuous run fails exactly for a scope with repeats, an empty run, or a first time that already has a success entry; otherwise it counts the run once, keeps the bins' keys and earlier success entries, and records under the first time one range from 0 whose value lies within it and whose top is at most the run length |
| HourlySkillScoreCalculators.PicksForNone | PerformanceCalculator/SkillScore/HourlySkillScoreCalculator.cs:168-179 | a bin that is neither the catch-all bin nor an hour of day in the scope takes no pick |
| HourlySkillScoreCalculators.AddContinuousMeaning | PerformanceCalculator/SkillScore/HourlySkillScoreCalculator.cs:153-185 | after a continuous run the catch-all bin has taken every pick, an hour bin in the scope the picks of its UTC hour, and every other bin is unchanged |
| HourlySkillScoreCalculators.TurbineSums | PerformanceCalculator/SkillScore/HourlySkillScoreCalculator.cs:102-118 | the number of turbines compared at one time is between 0 and the turbine count, and is 0 exactly when no turbine has an observed value |
| HourlySkillScoreCalculators.AddTo | PerformanceCalculator/SkillScore/HourlySkillScoreCalculator.cs:110-114 | adding to a sum creates the entry at 0 when missing, adds the value, and leaves the other times alone |
| HourlySkillScoreCalculators.Compared | PerformanceCalculator/SkillScore/HourlySkillScoreCalculator.cs:92-120 | the count compared at a time never exceeds the turbine count |
| HourlySkillScoreCalculators.TurbineStep | PerformanceCalculator/SkillScore/HourlySkillScoreCalculator.cs:81-123 | one turbine step fails exactly when mast data is requested and none is given; otherwise it advances the index and sets the time's entry, whose range is [0, turbine count], to the count compared |
| HourlySkillScoreCalculators.TurbineStepSums | PerformanceCalculator/SkillScore/HourlySkillScoreCalculator.cs:100-118 | a time gets both sums exactly when some turbine was compared there, other times keep theirs, and a time without observed values compares none |
| HourlySkillScoreCalculators.AddEntry | PerformanceCalculator/SkillScore/HourlySkillScoreCalculator.cs:81 | the new entry for a time is the range [0, turbine count] at 0, and nothing else changes |
| HourlySkillScoreCalculators.WalkTurbines | PerformanceCalculator/SkillScore/HourlySkillScoreCalculator.cs:79-124 | the first loop never loses a success entry it was given |
| HourlySkillScoreCalculators.WalkTurbinesKeeps | PerformanceCalculator/SkillScore/HourlySkillScoreCalculator.cs:79-124 | the entries present before the loop are kept unchanged |
| HourlySkillScoreCalculators.WalkTurbinesEntries | PerformanceCalculator/SkillScore/HourlySkillScoreCalculator.cs:81-121 | every new entry is for a time of the run, spans [0, turbine count] and holds a value inside it: the guarded setter at line 121 never throws |
| HourlySkillScoreCalculators.WalkTurbinesOutcome | PerformanceCalculator/SkillScore/HourlySkillScoreCalculator.cs:81-90 | with distinct times, the first loop fails only for want of mast data, and does fail for it when it runs a step |
| HourlySkillScoreCalculators.StepWithoutObservations | PerformanceCalculator/SkillScore/HourlySkillScoreCalculator.cs:81-104 | a step without observed values succeeds, adds its entry and sums nothing |
| HourlySkillScoreCalculators.WalkTurbinesWithoutObservations | PerformanceCalculator/SkillScore/HourlySkillScoreCalculator.cs:81-85 | a run without any observed value succeeds, sums nothing, and records an entry for each of its first twelve times (all of them when there are fewer), since the entry is added before the abort test |
| HourlySkillScoreCalculators.WalkTurbinesWithoutObservationsKeys | PerformanceCalculator/SkillScore/HourlySkillScoreCalculator.cs:81-85 | those entries are exactly the first twelve times of the run (all of them when there are fewer) |
| HourlySkillScoreCalculators.WalkTurbinesZero | PerformanceCalculator/SkillScore/HourlySkillScoreCalculator.cs:102-121 | without observed values every entry the first loop adds stays at 0 |
| HourlySkillScoreCalculators.TurbineRun | PerformanceCalculator/SkillScore/HourlySkillScoreCalculator.cs:71-124 | no contract of its own; the first loop from `StartTurbines` (no sums, previous rotation speed -1, time index 0); `AddTurbinesSuccess` and `AddTurbinesOutcome` state what it records |
| HourlySkillScoreCalculators.AddTurbines | PerformanceCalculator/SkillScore/HourlySkillScoreCalculator.cs:66-141 | a turbine run that succeeds was non-empty, counts the run once, records the success table under the first time unless it is already there, and keeps the bins' keys |
| HourlySkillScoreCalculators.AddTurbinesSuccess | PerformanceCalculator/SkillScore/HourlySkillScoreCalculator.cs:74-121 | the recorded entries are for times of the run and hold a count within [0, number of turbines] |
| HourlySkillScoreCalculators.AddTurbinesOutcome | PerformanceCalculator/SkillScore/HourlySkillScoreCalculator.cs:74-90 | for a run with distinct times, the turbine `Add` succeeds exactly when the run is non-empty and the mast data it needs is given |
| HourlySkillScoreCalculators.AddTurbinesDiscrete | PerformanceCalculator/SkillScore/HourlySkillScoreCalculator.cs:126-140 | the second loop is the discrete walk over the summed pairs with lead times starting at 0, without any offset |
| HourlySkillScoreCalculators.AddTurbinesAnyBin | PerformanceCalculator/SkillScore/HourlySkillScoreCalculator.cs:129-131 | the catch-all bin takes every time of the run that has both sums |
| HourlySkillScoreCalculators.AddTurbinesBins | PerformanceCalculator/SkillScore/HourlySkillScoreCalculator.cs:133-137 | the bin of lead time k takes the time at position k when it has both sums, and is otherwise unchanged |
| HourlySkillScoreCalculators.AddTurbinesWithoutObservations | PerformanceCalculator/SkillScore/HourlySkillScoreCalculator.cs:81-129 | with no observed turbine value (and the mast data it needs) the turbine `Add` succeeds, leaves every bin as it was and records exactly min(run length, 12) entries |
| HourlySkillScoreCalculators.NothingPaired | PerformanceCalculator/SkillScore/HourlySkillScoreCalculator.cs:52-129 | without observed sums no time is paired, so the discrete walk changes no bin |
| ProductionDataHelpers.Truncate | PerformanceCalculator/Engine/ProductionDataHelper.cs:92 | the `(int)` cast truncates toward zero: the result is within one of the value, on the side of zero |
| ProductionDataHelpers.RatioOfSpans | PerformanceCalculator/Engine/ProductionDataHelper.cs:91 | the ratio of the total minutes is the ratio of the spans |
| ProductionDataHelpers.ProperFraction | PerformanceCalculator/Engine/ProductionDataHelper.cs:93-97 | the fractional part is in [0, 1), and is 0 or one half exactly when the remainder is zero or half the data step |
| ProductionDataHelpers.StepsInResolutionCases | PerformanceCalculator/Engine/ProductionDataHelper.cs:89-101 | the step count is market/data when the data step divides the market step, 2 when half a data step is left over, and otherwise the data step in whole minutes |
| ProductionDataHelpers.StepsInResolutionExamples | PerformanceCalculator/Engine/ProductionDataHelper.cs:89-101 | hourly over ten minutes gives 6, over forty minutes 2, over twenty-five minutes 25, and over one hour 1 |
| ProductionDataHelpers.StepsInResolution | PerformanceCalculator/Engine/ProductionDataHelper.cs:89-101 | no contract of its own; `StepsInResolutionCases` states its three cases and `StepsInResolutionExamples` four values |
| ProductionDataHelpers.BelowShape | PerformanceCalculator/Engine/ProductionDataHelper.cs:17-21 | the loop appends `time` minus one, two, ... market steps, all at or after `first`, and the next one would be before it |
| ProductionDataHelpers.Below | PerformanceCalculator/Engine/ProductionDataHelper.cs:17-21 | no contract of its own; `BelowShape` states that it lists `time` minus one, two, ... market steps while they are not before `first` |
| ProductionDataHelpers.TimePoints | PerformanceCalculator/Engine/ProductionDataHelper.cs:15-21 | the boundary list exists exactly when the market step is positive or the loop stops at once, and it starts at `last` |
| ProductionDataHelpers.TimePointsShape | PerformanceCalculator/Engine/ProductionDataHelper.cs:15-21 | the boundaries step back from `last` by exactly the market step; all but `last` lie at or after `first`, and one more step would pass it |
| ProductionDataHelpers.TimePointsDescending | PerformanceCalculator/Engine/ProductionDataHelper.cs:15-21 | the boundaries are strictly descending, at least one market step apart |
| ProductionDataHelpers.TimePointsDistinct | PerformanceCalculator/Engine/ProductionDataHelper.cs:15-21 | the boundaries are one market step apart and none repeats |
| ProductionDataHelpers.DataResolution | PerformanceCalculator/Engine/ProductionDataHelper.cs:12 | the data step classifies in a unit the conversions know |
| ProductionDataHelpers.WindowGrid | PerformanceCalculator/Engine/ProductionDataHelper.cs:28-46 | with a positive enumeration step, the window of boundary p holds exactly the instants from p - market + data up to p, on whole steps from its start |
| ProductionDataHelpers.Window | PerformanceCalculator/Engine/ProductionDataHelper.cs:28-46 | no contract of its own; `WindowGrid` states that it holds exactly the grid instants from p - market + data up to p, and `WindowsDisjoint` that two windows share none |
| ProductionDataHelpers.TenMinuteGrid | PerformanceCalculator/Engine/ProductionDataHelper.cs:12-31 | ten-minute data enumerate in ten-minute steps |
| ProductionDataHelpers.WindowsDisjoint | PerformanceCalculator/Engine/ProductionDataHelper.cs:28-46 | the windows of two different boundaries share no instant, so no value is counted twice |
| ProductionDataHelpers.Present | PerformanceCalculator/Engine/ProductionDataHelper.cs:32-39 | a window collects at most one value per instant |
| ProductionDataHelpers.PresentNonEmpty | PerformanceCalculator/Engine/ProductionDataHelper.cs:34-38 | a window collects something exactly when one of its instants is a key of the series, null-valued keys included |
| ProductionDataHelpers.GatherWindows | PerformanceCalculator/Engine/ProductionDataHelper.cs:23-57 | over spaced, distinct boundaries, boundary p gets an entry exactly when its window holds a key of the series, and the entry is what that window collects |
| ProductionDataHelpers.GatherKeys | PerformanceCalculator/Engine/ProductionDataHelper.cs:23-57 | every gathered entry belongs to a boundary |
| ProductionDataHelpers.Gather | PerformanceCalculator/Engine/ProductionDataHelper.cs:23-57 | no contract of its own; `GatherWindows` and `GatherKeys` state which boundaries get an entry and what it holds |
| ProductionDataHelpers.CountPresent | PerformanceCalculator/Engine/ProductionDataHelper.cs:71-79 | the number of non-null values is at most the number of values |
| ProductionDataHelpers.NothingPresent | PerformanceCalculator/Engine/ProductionDataHelper.cs:67 | a window holding only nulls sums to 0 |
| ProductionDataHelpers.Average | PerformanceCalculator/Engine/ProductionDataHelper.cs:64-83 | observations: the sum of the non-null values over the step count; forecasts: the mean of the non-null values, null exactly when there are none |
| ProductionDataHelpers.ObservedNullsGiveZero | PerformanceCalculator/Engine/ProductionDataHelper.cs:67 | an observation window holding only nulls averages to 0, not to null |
| ProductionDataHelpers.ModesAgree | PerformanceCalculator/Engine/ProductionDataHelper.cs:67-81 | when a window holds exactly as many values as the step count, both modes give the same mean |
| ProductionDataHelpers.Averages | PerformanceCalculator/Engine/ProductionDataHelper.cs:59-86 | the averaging loop keeps exactly the gathered boundaries and gives each its window's average; observations with a zero step count fail unless nothing was gathered |
| ProductionDataHelpers.CalculateMarketResolutionAverage | PerformanceCalculator/Engine/ProductionDataHelper.cs:9-87 | a data step under a millisecond fails, and every entry of a result is a boundary of the boundary list |
| ProductionDataHelpers.MarketAverageMeaning | PerformanceCalculator/Engine/ProductionDataHelper.cs:9-87 | for a positive market step, a moving enumeration step and (for observations) a non-zero step count, the resampler succeeds; boundary p has an entry exactly when a key of the series is on its grid, and the entry is the average of its window |
| LegacyProductionDataHelpers.Lift | PerformanceCalculator/Engine/PerformanceCalculatorEngine.cs:149 | the older resampler's series is the newer one's with every value present |
| LegacyProductionDataHelpers.TimePoints | PerformanceCalculator/Engine/PerformanceCalculatorEngine.cs:155-161 | the boundary list exists exactly when the market step is positive or the loop stops at once, and it always starts with `last` and `last - market`, even below `first` |
| LegacyProductionDataHelpers.TimePointsShape | PerformanceCalculator/Engine/PerformanceCalculatorEngine.cs:155-161 | the boundaries step back from `last` by exactly the market step; from the third on they lie at or after `first`, and unless there are only the two fixed ones, one more step would pass it |
| LegacyProductionDataHelpers.TimePointsSpaced | PerformanceCalculator/Engine/PerformanceCalculatorEngine.cs:155-161 | the boundaries are one market step apart |
| LegacyProductionDataHelpers.TimePointsDistinct | PerformanceCalculator/Engine/PerformanceCalculatorEngine.cs:155-161 | no boundary is listed twice |
| LegacyProductionDataHelpers.TimePointsAgainstNewer | PerformanceCalculator/Engine/PerformanceCalculatorEngine.cs:155-161 | when `last` is at least one market step after `first` the list is the newer resampler's; otherwise it is the newer one's plus `last - market` |
| LegacyProductionDataHelpers.GatherAgainstNewer | PerformanceCalculator/Engine/PerformanceCalculatorEngine.cs:163-182 | pairing each boundary with the next collects the same windows as the newer resampler over all boundaries but the earliest |
| LegacyProductionDataHelpers.Gather | PerformanceCalculator/Engine/PerformanceCalculatorEngine.cs:163-182 | no contract of its own; `GatherAgainstNewer` and `EarliestDropped` state that it is the newer loop without the earliest boundary |
| LegacyProductionDataHelpers.GatherStepAgrees | PerformanceCalculator/Engine/PerformanceCalculatorEngine.cs:166-180 | when the two loops agree after the first boundary they agree from it |
| LegacyProductionDataHelpers.LegacyWindow | PerformanceCalculator/Engine/PerformanceCalculatorEngine.cs:168-171 | the window opened after a boundary is the newer loop's window for the same boundary |
| LegacyProductionDataHelpers.CalculateMarketResolutionAverage | PerformanceCalculator/Engine/PerformanceCalculatorEngine.cs:146-194 | a data step under a millisecond fails, and a result implies the boundary list exists |
| LegacyProductionDataHelpers.MarketAverageMeaning | PerformanceCalculator/Engine/PerformanceCalculatorEngine.cs:146-194 | for a positive market step, a moving enumeration step and a non-zero step count, a boundary other than the earliest gets an entry exactly when a key of the series is on its grid, and the entry is the sum of its window over the step count |
| LegacyProductionDataHelpers.EarliestDropped | PerformanceCalculator/Engine/PerformanceCalculatorEngine.cs:164-166 | the earliest boundary never gets an entry, whatever the series holds |
| PerformanceCalculatorEngines.ObservationLayout | PerformanceCalculator/Engine/PerformanceCalculatorEngine.cs:24-34 | observation values may use ',' as the decimal mark |
| PerformanceCalculatorEngines.ForecastLayout | PerformanceCalculator/Engine/PerformanceCalculatorEngine.cs:68-78 | forecast values are parsed as they stand |
| PerformanceCalculatorEngines.Fields | PerformanceCalculator/Engine/PerformanceCalculatorEngine.cs:25-70 | the two columns are read exactly when both indexes are within the row, and neither holds the separator |
| PerformanceCalculatorEngines.ValueText | PerformanceCalculator/Engine/PerformanceCalculatorEngine.cs:34 | observation values keep their length and have every ',' replaced, so none is left; forecast values are left as they are |
| PerformanceCalculatorEngines.Scaled | PerformanceCalculator/Engine/PerformanceCalculatorEngine.cs:38-80 | unit "MW" multiplies by 1000 and any other unit leaves the value unchanged |
| PerformanceCalculatorEngines.ReadRow | PerformanceCalculator/Engine/PerformanceCalculatorEngine.cs:25-83 | a row that reads had both columns, and the pattern in force is the one kept or inferred from its stamp; every value read before is kept, at most one is added, and a raised flag stays raised |
| PerformanceCalculatorEngines.InferOrKeep | PerformanceCalculator/Engine/PerformanceCalculatorEngine.cs:30-73 | a pattern already inferred is kept; an empty one is inferred from this stamp, and the pattern in force is never empty |
| PerformanceCalculatorEngines.ReadRowMeaning | PerformanceCalculator/Engine/PerformanceCalculatorEngine.cs:31-83 | a numeric value is added under the row's instant, scaled by the unit; a repeated instant fails; a non-numeric value leaves the series alone and raises the flag |
| PerformanceCalculatorEngines.ReadRows | PerformanceCalculator/Engine/PerformanceCalculatorEngine.cs:22-86 | reading rows keeps every value read before, adds at most one per row, keeps a pattern once set and keeps the flag once raised; checked rows all contain the separator |
| PerformanceCalculatorEngines.ReadObservations | PerformanceCalculator/Engine/PerformanceCalculatorEngine.cs:19-44 | every observation line after the heading contains the separator, or the read fails |
| PerformanceCalculatorEngines.RowsAfterHeading | PerformanceCalculator/Engine/PerformanceCalculatorEngine.cs:22 | the check applies to every line but the heading |
| PerformanceCalculatorEngines.ReadForecast | PerformanceCalculator/Engine/PerformanceCalculatorEngine.cs:58-88 | a forecast file whose heading lacks the separator fails, and a file that reads never both flagged a non-number and holds no value |
| PerformanceCalculatorEngines.ReadForecastKeepsPattern | PerformanceCalculator/Engine/PerformanceCalculatorEngine.cs:49-73 | a pattern inferred from an earlier file is reused unchanged for every later file |
| PerformanceCalculatorEngines.Span | PerformanceCalculator/Engine/PerformanceCalculatorEngine.cs:115-116 | the gap between the first two instants of a series is positive |
| PerformanceCalculatorEngines.ConvertToHourly | PerformanceCalculator/Engine/PerformanceCalculatorEngine.cs:113-141 | a series of fewer than two instants fails, and so does a first gap under a millisecond |
| PerformanceCalculatorEngines.ConvertKeepsHourly | PerformanceCalculator/Engine/PerformanceCalculatorEngine.cs:118-124 | a first gap that classifies as one hour keeps the series unchanged, whatever its later gaps |
| PerformanceCalculatorEngines.ConvertDropsOtherGaps | PerformanceCalculator/Engine/PerformanceCalculatorEngine.cs:140 | a first gap that is neither one hour nor ten minutes drops the whole series |
| PerformanceCalculatorEngines.OnGridSixSteps | PerformanceCalculator/Engine/PerformanceCalculatorEngine.cs:138-171 | where the market step is six enumeration steps, a window holds the six data steps ending at its boundary |
| PerformanceCalculatorEngines.TenMinuteOnGrid | PerformanceCalculator/Engine/PerformanceCalculatorEngine.cs:138 | for hourly boundaries over ten-minute data, an instant is on a boundary's grid exactly when it is one of the six ending at it |
| PerformanceCalculatorEngines.ConvertTenMinutesResamples | PerformanceCalculator/Engine/PerformanceCalculatorEngine.cs:125-138 | a ten-minute first gap hands the series to the older resampler from one hour after the first instant to the last instant's hour |
| PerformanceCalculatorEngines.FirstHour | PerformanceCalculator/Engine/PerformanceCalculatorEngine.cs:128 | no contract of its own; `ConvertTenMinutesResamples` states that resampling starts one hour after the first instant |
| PerformanceCalculatorEngines.LastHour | PerformanceCalculator/Engine/PerformanceCalculatorEngine.cs:129-130 | no contract of its own; `ConvertTenMinutesResamples` states that resampling ends at the last instant truncated to the hour |
| PerformanceCalculatorEngines.HourlyEntries | PerformanceCalculator/Engine/PerformanceCalculatorEngine.cs:138-182 | on ten-minute data, an hourly boundary other than the earliest gets an entry exactly when some instant lies among the six ending at it |
| PerformanceCalculatorEngines.HourlyValues | PerformanceCalculator/Engine/PerformanceCalculatorEngine.cs:184-191 | each such entry is the sum of those instants' values over six |
| PerformanceCalculatorEngines.ConvertAveragesTenMinutes | PerformanceCalculator/Engine/PerformanceCalculatorEngine.cs:125-138 | ten-minute data give every hour boundary but the earliest an entry exactly when an instant lies among its six, with value their sum over six |
| PerformanceCalculatorEngines.HourlyTimesGrid | PerformanceCalculator/Engine/PerformanceCalculatorEngine.cs:97 | the hours enumerated for a file are the whole hours from its first instant up to its last, both included |
| PerformanceCalculatorEngines.HourlyTimes | PerformanceCalculator/Engine/PerformanceCalculatorEngine.cs:97 | no contract of its own; `HourlyTimesGrid` states that it is the whole hours from the first instant up to the last |
| PerformanceCalculatorEngines.Month | PerformanceCalculator/Engine/PerformanceCalculatorEngine.cs:91-92 | no contract of its own; `Score` and `ScoreKeepsMonths` state that a file is scored into this month's calculator |
| PerformanceCalculatorEngines.NewMonth | PerformanceCalculator/Engine/PerformanceCalculatorEngine.cs:94 | a new month's calculator builds exactly for a scope without repeats, with nothing registered, the requested scope and the normalisation value truncated to `int` as capacity |
| PerformanceCalculatorEngines.MonthCalculator | PerformanceCalculator/Engine/PerformanceCalculatorEngine.cs:93-96 | an existing month's calculator is reused as it is; a missing one is created once, fresh |
| PerformanceCalculatorEngines.Scored | PerformanceCalculator/Engine/PerformanceCalculatorEngine.cs:97-98 | scoring a file counts it once and keeps the scope |
| PerformanceCalculatorEngines.Score | PerformanceCalculator/Engine/PerformanceCalculatorEngine.cs:91-98 | scoring fails exactly for an empty forecast or a new month with a repeated scope entry; otherwise only the file's month changes, its count rises by one and its scope is kept |
| PerformanceCalculatorEngines.ScoreBin | PerformanceCalculator/Engine/PerformanceCalculatorEngine.cs:91-98 | in the month's calculator, existing or newly created, lead-time bin k takes the pair at hour k - OffsetHoursAhead after the file's first hour, when both series hold it, and the catch-all bin every pair (the one at lead time -1 twice), for any offset; every hour of the file goes into that one month, even past its end |
| PerformanceCalculatorEngines.Registrations | PerformanceCalculator/Engine/PerformanceCalculatorEngine.cs:91-98 | the per-month file counts cover exactly the months present |
| PerformanceCalculatorEngines.RegistrationsUpdate | PerformanceCalculator/Engine/PerformanceCalculatorEngine.cs:96-98 | replacing one month's calculator replaces only its count |
| PerformanceCalculatorEngines.ScoreRegistersOne | PerformanceCalculator/Engine/PerformanceCalculatorEngine.cs:91-98 | each scored file raises the total count over all months by exactly one |
| PerformanceCalculatorEngines.ScoreKeepsMonths | PerformanceCalculator/Engine/PerformanceCalculatorEngine.cs:93-94 | scoring keeps every month it was given, and a new month gets the requested scope |
| PerformanceCalculatorEngines.ScoreFiles | PerformanceCalculator/Engine/PerformanceCalculatorEngine.cs:51-99 | over a run of files the months only grow, the total count rises by the number of files, and every month keeps the requested scope |
| PerformanceCalculatorEngines.Calculate | PerformanceCalculator/Engine/PerformanceCalculatorEngine.cs:13-111 | a run that succeeds has registered exactly one forecast per file, and every month has the requested scope |
| PerformanceCalculatorEngines.RepeatedScopeFails | PerformanceCalculator/Engine/PerformanceCalculatorEngine.cs:93-94 | starting with no months, a scope with a repeated entry makes any non-empty run over files fail |
| UtcDateTimes.FromDateTime | PerformanceCalculator/SimpleDateTime/UtcDateTime.cs:26-39 | wrapping succeeds exactly for a UTC-kind value, and keeps its ticks |
| UtcDateTimes.ToDateTime | PerformanceCalculator/SimpleDateTime/UtcDateTime.cs:85-182 | unwrapping gives a UTC-kind value that wraps back to the same instant |
| UtcDateTimes.FromDateTimeRoundTrip | PerformanceCalculator/SimpleDateTime/UtcDateTime.cs:26-89 | wrapping and unwrapping are inverse on UTC-kind values |
| UtcDateTimes.FromTicks | PerformanceCalculator/SimpleDateTime/UtcDateTime.cs:24 | the ticks constructor equals wrapping a UTC value with those ticks |
| UtcDateTimes.CreateFromUnspecifiedDateTime | PerformanceCalculator/SimpleDateTime/UtcDateTime.cs:41-46 | UTC and unspecified values are accepted with their ticks unchanged, and a local value is refused |
| UtcDateTimes.AddSubtract | PerformanceCalculator/SimpleDateTime/UtcDateTime.cs:48-71 | subtracting a span undoes adding it (and the reverse), and AddHours, AddMinutes and AddSeconds are `Add` of the matching span |
| UtcDateTimes.Add | PerformanceCalculator/SimpleDateTime/UtcDateTime.cs:53-56 | no contract of its own; `AddSubtract` states that `Subtract` undoes it |
| UtcDateTimes.Subtract | PerformanceCalculator/SimpleDateTime/UtcDateTime.cs:48-51 | no contract of its own; `AddSubtract` states that `Add` undoes it |
| UtcDateTimes.AddHours | PerformanceCalculator/SimpleDateTime/UtcDateTime.cs:58-61 | no contract of its own; `AddSubtract` states that it is `Add` of that many hours |
| UtcDateTimes.AddMinutes | PerformanceCalculator/SimpleDateTime/UtcDateTime.cs:63-66 | no contract of its own; `AddSubtract` states that it is `Add` of that many minutes |
| UtcDateTimes.AddSeconds | PerformanceCalculator/SimpleDateTime/UtcDateTime.cs:68-71 | no contract of its own; `AddSubtract` states that it is `Add` of that many seconds |
| UtcDateTimes.CompareTo | PerformanceCalculator/SimpleDateTime/UtcDateTime.cs:109-112 | the comparison is negative, zero or positive exactly when the instant is earlier, equal or later |
| UtcDateTimes.TotalOrder | PerformanceCalculator/SimpleDateTime/UtcDateTime.cs:104-155 | the comparison operators form one total order (reflexive, antisymmetric, transitive, total) and agree with each other and with equality |
| UtcDateTimes.Less | PerformanceCalculator/SimpleDateTime/UtcDateTime.cs:137-140 | no contract of its own; `TotalOrder` and `CompareTo` state that it is the strict part of one total order and agrees with the comparison |
| UtcDateTimes.Greater | PerformanceCalculator/SimpleDateTime/UtcDateTime.cs:142-145 | no contract of its own; `TotalOrder` states that it is `Less` with the arguments swapped |
| UtcDateTimes.GreaterEq | PerformanceCalculator/SimpleDateTime/UtcDateTime.cs:147-150 | no contract of its own; `TotalOrder` states that it is the negation of `Less` |
| UtcDateTimes.LessEq | PerformanceCalculator/SimpleDateTime/UtcDateTime.cs:152-155 | no contract of its own; `TotalOrder` states that it is reflexive, antisymmetric, transitive and total |
| UtcDateTimes.Min | PerformanceCalculator/SimpleDateTime/UtcDateTime.cs:266-270 | `Min` returns one of its arguments and is at or before both |
| UtcDateTimes.Max | PerformanceCalculator/SimpleDateTime/UtcDateTime.cs:272-276 | `Max` returns one of its arguments and is at or after both |
| UtcDateTimes.TimeOfDay | PerformanceCalculator/SimpleDateTime/UtcDateTime.cs:254 | the time of day is under one day and differs from the instant by whole days |
| UtcDateTimes.Hour | PerformanceCalculator/SimpleDateTime/UtcDateTime.cs:214 | the hour is 0..23 and the time of day lies within it |
| UtcDateTimes.Minute | PerformanceCalculator/SimpleDateTime/UtcDateTime.cs:230 | the minute is 0..59 |
| UtcDateTimes.Second | PerformanceCalculator/SimpleDateTime/UtcDateTime.cs:246 | the second is 0..59 |
| UtcDateTimes.Millisecond | PerformanceCalculator/SimpleDateTime/UtcDateTime.cs:222 | the millisecond is 0..999 |
| UtcDateTimes.TruncateToHour | PerformanceCalculator/Engine/PerformanceCalculatorEngine.cs:130 | rebuilding an instant from its year, month, day and hour gives the whole hour at or before it, with the same hour of day |
| DateTimePatterns.DateText | PerformanceCalculator/SimpleDateTime/UtcDateTime.cs:336-344 | every date pattern is ten characters long |
| DateTimePatterns.TimeText | PerformanceCalculator/SimpleDateTime/UtcDateTime.cs:326-330 | the four time patterns have lengths 2, 5, 8 and 17 |
| DateTimePatterns.ReadRender | PerformanceCalculator/SimpleDateTime/UtcDateTime.cs:320-348 | every choice of order, delimiter, separator, precision and UTC mark can be read back from the pattern string |
| DateTimePatterns.RenderInjective | PerformanceCalculator/SimpleDateTime/UtcDateTime.cs:320-348 | distinct choices give distinct pattern strings |
| DateTimePatterns.LeadingDigits | PerformanceCalculator/SimpleDateTime/UtcDateTime.cs:309-318 | the digit count is the length of the leading run of digits |
| DateTimePatterns.Delimiter | PerformanceCalculator/SimpleDateTime/UtcDateTime.cs:304-318 | the delimiter is one of `. - / _`, and any delimiter but '.' occurs in the first five characters |
| DateTimePatterns.Precision | PerformanceCalculator/SimpleDateTime/UtcDateTime.cs:326-330 | a time part under 3 characters gives HH, under 6 HH:mm, under 10 HH:mm:ss, otherwise the fraction pattern |
| DateTimePatterns.Infer | PerformanceCalculator/SimpleDateTime/UtcDateTime.cs:289-349 | inference succeeds exactly when the stamp has a time part and a date part of at least five characters; the separator is the one split at, "Z" is added exactly when the stamp ends in Z or z, and the order is year-first exactly when more than two digits lead |
| DateTimePatterns.GetDateTimePattern | PerformanceCalculator/SimpleDateTime/UtcDateTime.cs:289-349 | the pattern string is the rendering of the inferred choices |
| DateTimePatterns.SeparatorIsT | PerformanceCalculator/SimpleDateTime/UtcDateTime.cs:291-321 | the date/time separator is 'T' exactly when the trimmed stamp holds no space |
| DateTimePatterns.NeedsSeparator | PerformanceCalculator/SimpleDateTime/UtcDateTime.cs:294-301 | a stamp with neither a space nor a 'T' has no time part and fails |
| DateTimePatterns.MonthFirstOnlyAfterFailedTrial | PerformanceCalculator/SimpleDateTime/UtcDateTime.cs:338-345 | the month-first order is chosen only when the day-first trial parse fails |
| DateTimePatterns.DayFirstMinutes | PerformanceCalculator/SimpleDateTime/UtcDateTime.cs:289-349 | "01.05.2014 13:00" style stamps give "dd.MM.yyyy HH:mm" when the day-first trial accepts them |
| UtcDateTimeEnumerators.StepAsWritten | PerformanceCalculator/SimpleDateTime/UtcDateTimeEnumerator.cs:20 | the stored step exists exactly for a known unit and is always a 32-bit `int`, whatever the product |
| UtcDateTimeEnumerators.Step | PerformanceCalculator/SimpleDateTime/UtcDateTimeEnumerator.cs:20 | the exact step in milliseconds is the resolution's length |
| UtcDateTimeEnumerators.StepAgreesWhenInRange | PerformanceCalculator/SimpleDateTime/UtcDateTimeEnumerator.cs:20 | the two steps agree whenever the product fits in 32 bits |
| UtcDateTimeEnumerators.StartAsWritten | PerformanceCalculator/SimpleDateTime/UtcDateTimeEnumerator.cs:15-21 | the protected constructor stores the wrapped step and fails for an unknown unit |
| UtcDateTimeEnumerators.New | PerformanceCalculator/SimpleDateTime/UtcDateTimeEnumerator.cs:31-36 | the public constructor's choice of loop by comparer, with the step corrected to the exact product: it succeeds exactly for a known unit; the code as written stores the 32-bit wrapped step (see `StartAsWritten` and the first Finding) |
| UtcDateTimeEnumerators.NewAgreesWhenInRange | PerformanceCalculator/SimpleDateTime/UtcDateTimeEnumerator.cs:15-36 | whenever the step in milliseconds fits in 32 bits, the corrected constructor builds exactly the enumerator the code as written builds |
| UtcDateTimeEnumerators.NewWithType | PerformanceCalculator/SimpleDateTime/UtcDateTimeEnumerator.cs:23-29 | the unit-and-interval constructor is the resolution constructor on `GetResolution(unit, interval)` |
| UtcDateTimeEnumerators.EmptyEnumerator | PerformanceCalculator/SimpleDateTime/UtcDateTimeEnumerator.cs:38-85 | the empty enumerator yields nothing |
| UtcDateTimeEnumerators.Elements | PerformanceCalculator/SimpleDateTime/UtcDateTimeEnumerator.cs:38-79 | an enumerator without an inner one yields nothing; a stepping one with a positive step always finishes, and one with a non-positive step never finishes exactly when its first comparison holds |
| UtcDateTimeEnumerators.WalkShape | PerformanceCalculator/SimpleDateTime/UtcDateTimeEnumerator.cs:62-75 | the i-th instant is i steps after the start, and there are exactly `Count` of them (for LtEq with start <= end, (end - start) / step + 1) |
| UtcDateTimeEnumerators.CountStep | PerformanceCalculator/SimpleDateTime/UtcDateTimeEnumerator.cs:62-75 | one step forward leaves one instant fewer |
| UtcDateTimeEnumerators.WalkMembership | PerformanceCalculator/SimpleDateTime/UtcDateTimeEnumerator.cs:62-75 | an instant is yielded exactly when it is on the step grid from the start and passes the comparison with the end |
| UtcDateTimeEnumerators.WalkOnGrid | PerformanceCalculator/SimpleDateTime/UtcDateTimeEnumerator.cs:62-75 | a yielded instant is at or after the start, passes the comparison and is on the grid |
| UtcDateTimeEnumerators.GridInWalk | PerformanceCalculator/SimpleDateTime/UtcDateTimeEnumerator.cs:62-75 | every grid instant that passes the comparison is yielded |
| UtcDateTimeEnumerators.LastOnGrid | PerformanceCalculator/SimpleDateTime/UtcDateTimeEnumerator.cs:62-75 | every index below the count is a grid point that passes the comparison |
| UtcDateTimeEnumerators.InGrid | PerformanceCalculator/SimpleDateTime/UtcDateTimeEnumerator.cs:62-75 | every grid point that passes the comparison has an index below the count |
| UtcDateTimeEnumerators.WalkIncreasing | PerformanceCalculator/SimpleDateTime/UtcDateTimeEnumerator.cs:62-75 | the instants yielded are strictly increasing |
| UtcDateTimeEnumerators.LtDropsEnd | PerformanceCalculator/SimpleDateTime/UtcDateTimeEnumerator.cs:62-75 | Lt yields the LtEq instants except the end: nothing when start and end coincide, and never the end |
| UtcDateTimeEnumerators.ElementsOnGrid | PerformanceCalculator/SimpleDateTime/UtcDateTimeEnumerator.cs:56-79 | with a positive step an enumerator yields exactly the grid instants from its start that pass its comparison with its end |
| UtcDateTimeEnumerators.StepAsWrittenOverflows | PerformanceCalculator/SimpleDateTime/UtcDateTimeEnumerator.cs:20 | the stored steps of Month, Quarter and Season wrap to negative numbers, and that of Year to 1,471,228,928 instead of 31,536,000,000 |
| UtcDateTimeEnumerators.MonthEnumerationAsWritten | PerformanceCalculator/SimpleDateTime/UtcDateTimeEnumerator.cs:20-75 | as written, enumerating a range by Month never finishes |
| UtcDateTimeEnumerators.MonthEnumerationCorrected | PerformanceCalculator/SimpleDateTime/UtcDateTimeEnumerator.cs:20-75 | with the exact step, enumerating by Month yields exactly the instants 30 days apart from the start up to the end |
| TimeSpanExt.ToTimeResolution | PerformanceCalculator/SimpleDateTime/TimeSpanExt.cs:7-31 | classification succeeds exactly for spans of at least one millisecond, and never returns Seconds |
| TimeSpanExt.Classification | PerformanceCalculator/SimpleDateTime/TimeSpanExt.cs:9-28 | spans of a day or more give (Day, days); one hour up to a day (Hour, hour component); one minute up to an hour (Minute, minutes); below a minute (Milliseconds, span mod 1000) |
| TimeSpanExt.NinetyMinutesIsOneHour | PerformanceCalculator/SimpleDateTime/TimeSpanExt.cs:14-18 | ninety minutes give (Hour, 1): the leftover minutes are dropped |
| TimeSpanExt.TenMinutesIsMinuteTen | PerformanceCalculator/SimpleDateTime/TimeSpanExt.cs:19-23 | ten minutes give (Minute, 10) |
| TimeSpanExt.WholeSecondsGiveZeroSteps | PerformanceCalculator/SimpleDateTime/TimeSpanExt.cs:24-28 | a whole number of seconds under a minute gives (Milliseconds, 0) |
| TimeResolutionTypeExt.ToMilliseconds | PerformanceCalculator/SimpleDateTime/TimeResolutionTypeExt.cs:7-15 | a unit's length in milliseconds exists exactly for the five known units, and is positive |
| TimeResolutionTypeExt.ToTimeSpan | PerformanceCalculator/SimpleDateTime/TimeResolutionTypeExt.cs:17-25 | one unit as a span is exactly `ToMilliseconds` milliseconds long, and fails for the same units |
| TimeResolutionTypeExt.ToTimeSpanSteps | PerformanceCalculator/SimpleDateTime/TimeResolutionTypeExt.cs:27-35 | n units is n times one unit, so one step is `ToTimeSpan`; other units fail |
| TimeResolutions.ToTimeSpan | PerformanceCalculator/SimpleDateTime/TimeResolution.cs:28-32 | a resolution's length is its step count times its unit's milliseconds, for a known unit |
| TimeResolutions.FindPredefined | PerformanceCalculator/SimpleDateTime/TimeResolution.cs:80-96 | the lookup finds an entry exactly when the table holds that unit and step count, and returns it |
| TimeResolutions.GetResolution | PerformanceCalculator/SimpleDateTime/TimeResolution.cs:78-99 | the result always has the requested unit and step count |
| TimeResolutions.FromMilliseconds | PerformanceCalculator/SimpleDateTime/TimeResolution.cs:34-41 | a resolution is found exactly for a span of at least one millisecond, and it is the span's classification |
| TimeResolutions.FromMillisecondsRoundTrip | PerformanceCalculator/SimpleDateTime/TimeResolution.cs:28-41 | the resolution found is exactly as long as the span when the span is canonical, and otherwise shorter |
| TimeResolutions.BelowMinuteRoundTrip | PerformanceCalculator/SimpleDateTime/TimeResolution.cs:28-41 | the round trip for spans under a minute |
| TimeResolutions.MinutesRoundTrip | PerformanceCalculator/SimpleDateTime/TimeResolution.cs:28-41 | the round trip for spans of one minute up to an hour |
| TimeResolutions.HoursRoundTrip | PerformanceCalculator/SimpleDateTime/TimeResolution.cs:28-41 | the round trip for spans of one hour up to a day |
| TimeResolutions.DaysRoundTrip | PerformanceCalculator/SimpleDateTime/TimeResolution.cs:28-41 | the round trip for spans of a day or more |
| TimeResolutions.RoundTripBelowMinute | PerformanceCalculator/SimpleDateTime/TimeResolution.cs:34-41 | a span under a minute gives (Milliseconds, ms mod 1000) |
| TimeResolutions.RoundTripMinutes | PerformanceCalculator/SimpleDateTime/TimeResolution.cs:34-41 | a span of one minute up to an hour gives its whole minutes |
| TimeResolutions.RoundTripHours | PerformanceCalculator/SimpleDateTime/TimeResolution.cs:34-41 | a span of one hour up to a day gives its whole hours |
| TimeResolutions.RoundTripDays | PerformanceCalculator/SimpleDateTime/TimeResolution.cs:34-41 | a span of a day or more gives its whole days |
| TimeResolutions.IsValid | PerformanceCalculator/SimpleDateTime/TimeResolution.cs:101-104 | the check on a resolution's own length answers only for a known unit |
| TimeResolutions.TimeOfDayComponents | PerformanceCalculator/SimpleDateTime/TimeResolution.cs:108-139 | the components of the time of day are the instant's millisecond, second and minute |
| TimeResolutions.IsValidWithBelowMinute | PerformanceCalculator/SimpleDateTime/TimeResolution.cs:110-112 | Millisecond always holds, Second needs ms = 0, Minute needs s = 0 and ms = 0 |
| TimeResolutions.IsValidWithMinuteSteps | PerformanceCalculator/SimpleDateTime/TimeResolution.cs:113-146 | for N in {5, 6, 10, 12, 15, 20, 30} the check holds exactly when minute mod N = 0, s = 0 and ms = 0 |
| TimeResolutions.EqualMinutesMeaning | PerformanceCalculator/SimpleDateTime/TimeResolution.cs:136-146 | minute agreement with an N-minute span is divisibility of the minute by N |
| TimeResolutions.IsValidWithHour | PerformanceCalculator/SimpleDateTime/TimeResolution.cs:120-141 | for Hour the check holds exactly when minute, second and millisecond are all 0 |
| TimeResolutions.IsValidWithRefuses | PerformanceCalculator/SimpleDateTime/TimeResolution.cs:110-123 | the check answers exactly for the spans of the predefined resolutions up to one hour; any other span, such as a day or seven minutes, throws |
| TimeResolutions.IsValidWith | PerformanceCalculator/SimpleDateTime/TimeResolution.cs:106-124 | no contract of its own; `IsValidWithBelowMinute`, `IsValidWithMinuteSteps`, `IsValidWithHour` and `IsValidWithRefuses` state its answer for every span |
| TimeResolutions.EqualMilliseconds | PerformanceCalculator/SimpleDateTime/TimeResolution.cs:126-129 | no contract of its own; `IsValidWithBelowMinute` states its effect: the millisecond component must be 0 |
| TimeResolutions.EqualSeconds | PerformanceCalculator/SimpleDateTime/TimeResolution.cs:131-134 | no contract of its own; `IsValidWithBelowMinute` states its effect: the second component must be 0 |
| TimeResolutions.EqualMinutes | PerformanceCalculator/SimpleDateTime/TimeResolution.cs:136-146 | no contract of its own; `EqualMinutesMeaning` states that it is divisibility of the minute by the step |
| TimeResolutions.CustomResolution | PerformanceCalculator/SimpleDateTime/TimeResolution.cs:43-46 | no contract of its own; a resolution with exactly the given unit and step count |
| Times.NewAsWritten | PerformanceCalculator/SimpleDateTime/Time.cs:29-77 | both constructors as written (the private byte one and the public int one behave alike) accepts exactly hour 0..23, minute and second 0..59; unless on the 12-hour clock with an hour above 12, it overwrites the flag with hour < 12 |
| Times.New | PerformanceCalculator/SimpleDateTime/Time.cs:53-77 | the constructor as documented: same range check; on the 12-hour clock the caller's flag is kept and hours above 12 fold back by 12; on the 24-hour clock the flag is hour < 12 |
| Times.NewAgreement | PerformanceCalculator/SimpleDateTime/Time.cs:65-70 | the two agree exactly when not on the 12-hour clock with hour <= 12 and a flag different from hour < 12 |
| Times.ReadClock | PerformanceCalculator/SimpleDateTime/Time.cs:132-136 | a clock that reads has byte-sized fields and never keeps hour 24 |
| Times.ReadFields | PerformanceCalculator/SimpleDateTime/Time.cs:128-148 | fields that read are byte-sized and never keep hour 24 |
| Times.GetDigitString | PerformanceCalculator/SimpleDateTime/Time.cs:228-231 | the rendering is all digits, two of them below 100 |
| Times.DigitsValueOfGetDigitString | PerformanceCalculator/SimpleDateTime/Time.cs:228-231 | the rendering reads back as the number it renders |
| Times.GetDigitStringInjective | PerformanceCalculator/SimpleDateTime/Time.cs:228-231 | two numbers render alike exactly when they are equal |
| Times.LongSortableIsS | PerformanceCalculator/SimpleDateTime/Time.cs:216-222 | `ToString("S")` is the long sortable rendering |
| Times.EqualMeaning | PerformanceCalculator/SimpleDateTime/Time.cs:158-165 | two times are equal exactly when their 24-hour hour, minute and second agree |
| Times.LessMeaning | PerformanceCalculator/SimpleDateTime/Time.cs:176-242 | `<` is lexicographic on the stored hour, minute and second and ignores AM/PM |
| Times.ParseSortableRoundTrip | PerformanceCalculator/SimpleDateTime/Time.cs:120-222 | a 24-hour time printed with "S" and parsed back is the same time, under both constructors |
| Times.SortableFields | PerformanceCalculator/SimpleDateTime/Time.cs:128-222 | the "S" rendering reads back as its fields on the 24-hour clock |
| Times.SortableChars | PerformanceCalculator/SimpleDateTime/Time.cs:222 | the "S" rendering holds only digits and ':' and starts and ends with a digit |
| Times.ReadFieldsOfOneWord | PerformanceCalculator/SimpleDateTime/Time.cs:128-148 | a text without spaces that trims to itself reads as its clock on the 24-hour clock |
| Times.SortableClock | PerformanceCalculator/SimpleDateTime/Time.cs:132-222 | the "S" rendering's clock part reads as the hour, minute and second |
| Times.ReadClockOfThree | PerformanceCalculator/SimpleDateTime/Time.cs:132-136 | a clock of three byte fields reads as those bytes, with hour 24 read as 0 |
| Times.ReadDigitString | PerformanceCalculator/SimpleDateTime/Time.cs:133-230 | a two-digit rendering reads back as a byte |
| Times.PmFields | PerformanceCalculator/SimpleDateTime/Time.cs:128-148 | "hh:mm:ss PM" reads as its fields on the 12-hour clock, not AM |
| Times.PmFieldsOf | PerformanceCalculator/SimpleDateTime/Time.cs:139-143 | a clock followed by " PM" reads as that clock on the 12-hour clock, not AM |
| Times.ReadFieldsOfTwoWords | PerformanceCalculator/SimpleDateTime/Time.cs:128-143 | a text with one space reads its clock before the space and its designator after it |
| Times.PmIgnoredAsWritten | PerformanceCalculator/SimpleDateTime/Time.cs:29-150 | as written, "02:00:00 PM" (any hour 1 to 11) parses as AM and sorts as that hour in the morning |
| Times.PmKept | PerformanceCalculator/SimpleDateTime/Time.cs:139-150 | with the documented constructor "02:00:00 PM" parses as PM and sorts as 14:00:00 |
| Times.ParseOfFields | PerformanceCalculator/SimpleDateTime/Time.cs:120-151 | parsing is reading the fields and calling the constructor |
| Times.ParseAsTime | PerformanceCalculator/SimpleDateTime/Time.cs:120-151 | no contract of its own; `ParseOfFields`, `ParseSortableRoundTrip` and `PmKept` state that it reads the fields and builds them with the documented constructor, reads back every "S" rendering of a 24-hour time, and keeps PM |
| Times.ParseAsTimeAsWritten | PerformanceCalculator/SimpleDateTime/Time.cs:29-151 | no contract of its own; it ends in the private byte constructor (lines 29-48), modelled by `NewAsWritten`; `ParseOfFields`, `ParseSortableRoundTrip` and `PmIgnoredAsWritten` state that it builds the fields with the constructor as written, reads back every "S" rendering of a 24-hour time, and turns "02:00:00 PM" into a morning time |
| Times.AmPmValue | PerformanceCalculator/SimpleDateTime/Time.cs:233-237 | no contract of its own; "AM" or "PM" on the 12-hour clock and nothing on the 24-hour clock; it only appears inside the renderings |
| Times.SortableHour | PerformanceCalculator/SimpleDateTime/Time.cs:218-219 | no contract of its own; the hour on the 24-hour clock used by "s" and "S"; `EqualMeaning` and `PmKept` state its effect |
| Times.LongSortable | PerformanceCalculator/SimpleDateTime/Time.cs:222 | no contract of its own; `LongSortableIsS` states that it is `ToString("S")`, and `SortableFields` and `SortableChars` state what it holds |
| Times.ToString | PerformanceCalculator/SimpleDateTime/Time.cs:182-226 | no contract of its own; `LongSortableIsS` states the "S" case, `SortableChars` its characters, and `ParseSortableRoundTrip` that it reads back |
| Times.Equal | PerformanceCalculator/SimpleDateTime/Time.cs:158-165 | no contract of its own; `EqualMeaning` states that it holds exactly when the 24-hour hour, minute and second agree |
| Times.ToTimeSpan | PerformanceCalculator/SimpleDateTime/Time.cs:176 | no contract of its own; the span of the stored fields, through which `Less` compares |
| Times.Less | PerformanceCalculator/SimpleDateTime/Time.cs:239-242 | no contract of its own; `LessMeaning` states that it is lexicographic on the stored hour, minute and second and ignores AM/PM |
| Times.OrderOperators | PerformanceCalculator/SimpleDateTime/Time.cs:239-257 | `>` is `<` swapped, `>=` and `<=` are the negations of `<` and `>`, any two times are ordered, and two valid times are mutually `<=` exactly when their stored hour, minute and second agree |
| Times.Greater | PerformanceCalculator/SimpleDateTime/Time.cs:244-247 | no contract of its own; `OrderOperators` states that it is `<` with the arguments swapped |
| Times.GreaterEq | PerformanceCalculator/SimpleDateTime/Time.cs:249-252 | no contract of its own; `OrderOperators` states that it is the negation of `<` |
| Times.LessEq | PerformanceCalculator/SimpleDateTime/Time.cs:254-257 | no contract of its own; `OrderOperators` states that it is the negation of `>` |
| RestrictedRanges.New | PerformanceCalculator/Util/RestrictedRange.cs:17-27 | the constructor refuses exactly a minimum above the maximum, and stores the initial value without checking it |
| RestrictedRanges.NewAtMin | PerformanceCalculator/Util/RestrictedRange.cs:12-15 | the two-argument constructor starts the value at the minimum |
| RestrictedRanges.SetValue | PerformanceCalculator/Util/RestrictedRange.cs:29-40 | the setter accepts exactly a value within the bounds, then stores it and keeps the bounds |
| RestrictedRanges.SetAllKeepsBounds | PerformanceCalculator/Util/RestrictedRange.cs:9-40 | a run of setter calls succeeds exactly when every value is within the bounds, never changes the bounds, and leaves the last value set |
| RestrictedRangeInts.Compare | PerformanceCalculator/Util/RestrictedRange.cs:19-34 | the comparison is negative or positive exactly when the first is smaller or larger |
| RestrictedRangeInts.New | PerformanceCalculator/Util/RestrictedRangeInt.cs:7-15 | construction delegates to the generic range and refuses exactly min > max |
| RestrictedRangeInts.SetValue | PerformanceCalculator/Util/RestrictedRangeInt.cs:17-21 | the setter passes through: it accepts exactly a value in [min, max] and changes only the value |
| RestrictedRangeInts.ToPercent | PerformanceCalculator/Util/RestrictedRangeInt.cs:23-29 | the percentage is a number exactly when the 32-bit width is non-zero |
| RestrictedRangeInts.ToPercentBounds | PerformanceCalculator/Util/RestrictedRangeInt.cs:23-29 | for a proper range narrower than 2^31 with the value inside, the percentage is in [0, 100], 0 at min and 100 at max |
| RestrictedRangeInts.ToPercentOfWidestRange | PerformanceCalculator/Util/RestrictedRangeInt.cs:25-27 | for the bounds of `int` and the value 0 the width wraps, and the percentage is far above 100 |
| RestrictedRangeDoubles.Compare | PerformanceCalculator/Util/RestrictedRange.cs:19-34 | the comparison is negative or positive exactly when the first is smaller or larger |
| RestrictedRangeDoubles.New | PerformanceCalculator/Util/RestrictedRangeDouble.cs:7-15 | construction delegates to the generic range and refuses exactly min > max |
| RestrictedRangeDoubles.SetValue | PerformanceCalculator/Util/RestrictedRangeDouble.cs:17-21 | the setter passes through: it accepts exactly a value in [min, max] and changes only the value |
| RestrictedRangeDoubles.ToPercent | PerformanceCalculator/Util/RestrictedRangeDouble.cs:23-29 | the percentage is a number exactly for a range of non-zero width, and it is (value - min) / (max - min) × 100 |
| RestrictedRangeDoubles.ToPercentBounds | PerformanceCalculator/Util/RestrictedRangeDouble.cs:23-29 | for min < max with the value inside, the percentage is in [0, 100], 0 at min and 100 at max |
| MainWindows.Range | PerformanceCalculator/View/MainWindow.xaml.cs:241 | `Enumerable.Range` succeeds exactly for a non-negative count whose last element fits in `int`, and gives count consecutive integers from start |
| MainWindows.StepHours | PerformanceCalculator/View/MainWindow.xaml.cs:234-247 | every hour a step reads is a 32-bit int |
| MainWindows.RangeHours | PerformanceCalculator/View/MainWindow.xaml.cs:237-241 | every hour a range reads is a 32-bit int |
| MainWindows.Count | PerformanceCalculator/View/MainWindow.xaml.cs:240-241 | the count is last - first + 1, with each sum wrapped to 32 bits |
| MainWindows.GetScope | PerformanceCalculator/View/MainWindow.xaml.cs:226-250 | a scope that reads always starts with -1 |
| MainWindows.StepsHoursSucceed | PerformanceCalculator/View/MainWindow.xaml.cs:232-248 | the steps read exactly when every one of them reads on its own |
| MainWindows.StepsHours | PerformanceCalculator/View/MainWindow.xaml.cs:232-248 | no contract of its own; `StepsHoursSucceed` states when it fails and `StepsReadBack` what it gives for typed steps |
| MainWindows.GetScopeSucceeds | PerformanceCalculator/View/MainWindow.xaml.cs:226-250 | the scope reads exactly when every comma-separated step reads: one bad step fails the whole text |
| MainWindows.StepTexts | PerformanceCalculator/View/MainWindow.xaml.cs:229 | each step is typed on its own |
| MainWindows.ParseNat | PerformanceCalculator/View/MainWindow.xaml.cs:245 | a typed natural number reads back as itself |
| MainWindows.HourReadsBack | PerformanceCalculator/View/MainWindow.xaml.cs:243-247 | a token without '-' contributes exactly its integer |
| MainWindows.RangeReadsBack | PerformanceCalculator/View/MainWindow.xaml.cs:235-241 | a readable range "a-b" with b >= a contributes a, a+1, ..., b |
| MainWindows.RangeTextHours | PerformanceCalculator/View/MainWindow.xaml.cs:235-241 | a typed range reads as `Enumerable.Range` from its first hour with the count the code computes |
| MainWindows.RangeTextOf | PerformanceCalculator/View/MainWindow.xaml.cs:235-241 | two digit runs joined by '-' read as the range between the numbers they stand for |
| MainWindows.RangeTextParts | PerformanceCalculator/View/MainWindow.xaml.cs:235-237 | two digit runs joined by '-' read as the range of the two runs |
| MainWindows.RangeStep | PerformanceCalculator/View/MainWindow.xaml.cs:234-241 | a trimmed step with a '-' reads as the range of its parts |
| MainWindows.SingleStep | PerformanceCalculator/View/MainWindow.xaml.cs:243-247 | a trimmed step without a '-' reads as one number |
| MainWindows.RangeUpwards | PerformanceCalculator/View/MainWindow.xaml.cs:240-241 | an upward range holds the hours it stands for |
| MainWindows.RangeHoursOfParsed | PerformanceCalculator/View/MainWindow.xaml.cs:238-241 | the parts of a range, once read, give the hours between them |
| MainWindows.StepReadsBack | PerformanceCalculator/View/MainWindow.xaml.cs:234-247 | every readable step reads back as the hours it stands for |
| MainWindows.StepsReadBack | PerformanceCalculator/View/MainWindow.xaml.cs:232-248 | readable steps read one after another give all their hours, in input order |
| MainWindows.StepTextCommaFree | PerformanceCalculator/View/MainWindow.xaml.cs:229 | a typed step holds no comma |
| MainWindows.GetScopeOfText | PerformanceCalculator/View/MainWindow.xaml.cs:226-250 | typing readable steps separated by commas and reading them back gives -1 and then every step's hours, in order and with repeats kept |
| MainWindows.LeadingMinusFails | PerformanceCalculator/View/MainWindow.xaml.cs:235-238 | a step with a leading '-', such as "-1", never reads: its first part is empty |
| MainWindows.LeadingMinusSplit | PerformanceCalculator/View/MainWindow.xaml.cs:237 | splitting a text that starts with '-' gives an empty first part |
| MainWindows.FirstPartFails | PerformanceCalculator/View/MainWindow.xaml.cs:238 | a range whose first part is not a number fails |
| MainWindows.DownwardRange | PerformanceCalculator/View/MainWindow.xaml.cs:240-241 | a range ending one below its start gives no hours, and one running further down fails |
| MainWindows.WidestRangeFails | PerformanceCalculator/View/MainWindow.xaml.cs:240-241 | the range "0-2147483647" fails, because its count wraps |
| MainWindows.WrapPastMax | PerformanceCalculator/View/MainWindow.xaml.cs:240-241 | one past `int.MaxValue` wraps to `int.MinValue` |
| MainWindows.RepeatedHourKept | PerformanceCalculator/View/MainWindow.xaml.cs:232-248 | repeats are kept: "1-3,2" reads as -1, 1, 2, 3, 2 |
| MainWindows.RepeatedHourRejected | PerformanceCalculator/SkillScore/HourlySkillScoreCalculator.cs:27-34 | the calculator's constructor refuses the scope such a text gives |
| MainWindows.MonthAbbreviation | PerformanceCalculator/View/MainWindow.xaml.cs:318-333 | an abbreviation exists exactly for the months 1..12, and has three letters |
| MainWindows.MonthAbbreviationTable | PerformanceCalculator/View/MainWindow.xaml.cs:320-331 | month n gets the n-th of "Jan" .. "Dec" |
| MainWindows.MonthNumber | PerformanceCalculator/View/MainWindow.xaml.cs:320-331 | a name that is read is the abbreviation of the month it gives |
| MainWindows.MonthNumberOfAbbreviation | PerformanceCalculator/View/MainWindow.xaml.cs:318-333 | an abbreviation reads back as its month |
| MainWindows.MonthAbbreviationInjective | PerformanceCalculator/View/MainWindow.xaml.cs:318-333 | no two months share an abbreviation |
| MainWindows.Place | PerformanceCalculator/View/MainWindow.xaml.cs:213-216 | entering a cell keeps every earlier entry, creates the bin's row when missing, and fills its month only when the row had none |
| MainWindows.PivotHas | PerformanceCalculator/View/MainWindow.xaml.cs:205-219 | the pivot has an entry for a bin id and month exactly when some cell is for them |
| MainWindows.PivotKeepsFirst | PerformanceCalculator/View/MainWindow.xaml.cs:213-216 | the entry is the first cell for its bin id and month; later ones are ignored |
| MainWindows.Pivot | PerformanceCalculator/View/MainWindow.xaml.cs:205-219 | no contract of its own; `PivotHas` and `PivotKeepsFirst` state which entries it has and that each is the first cell met |
| MainWindows.Ascending | PerformanceCalculator/View/MainWindow.xaml.cs:213 | the keys enumerated are exactly the dictionary's keys |
| MainWindows.AscendingSorted | PerformanceCalculator/View/MainWindow.xaml.cs:213 | they come in strictly ascending order, so each key comes once |
| MainWindows.MonthCellsHold | PerformanceCalculator/View/MainWindow.xaml.cs:209-217 | a month's cells are exactly its calculator's bins |
| MainWindows.ResultCellsHold | PerformanceCalculator/View/MainWindow.xaml.cs:206-219 | a cell is met exactly when it is a bin of a month walked |
| MainWindows.ResultTable | PerformanceCalculator/View/MainWindow.xaml.cs:196-203 | when reading the worker's outcome throws, the table stays empty |
| MainWindows.ResultTableHas | PerformanceCalculator/View/MainWindow.xaml.cs:205-219 | walking all months, the table has an entry for a bin id and month exactly when that month's calculator has that bin |
| MainWindows.ResultTableValue | PerformanceCalculator/View/MainWindow.xaml.cs:205-219 | and that entry is that month's bin |
| MainWindows.FirstHitIsFiled | PerformanceCalculator/View/MainWindow.xaml.cs:213-216 | the first cell for a bin id and month holds that month's bin with that id |

## Left out

- File and directory reading, the UI, the background worker, `DisplayData`
  and column names are not modelled. A file is a sequence of lines, and the
  forecast files come in the order the directory listing gives.
- `ConcurrentDictionary` is a plain `map`, since the engine fills it
  sequentially. The pivot's null-calculator check is not needed, because a
  map has no null entries.
- The order in which `SortedDictionary` and `ConcurrentDictionary` keys are
  enumerated is a parameter of the pivot (`months`), not computed.
- Floating point: values are exact `real`s, so rounding, infinity and NaN
  are not modelled.
  - A division by a zero count is `None`, or a failure where the source
    would store an infinity.
  - `DoubleExt.AboutEqual` is exact equality.
  - The `double` to `int` cast is `Truncate`, without its out-of-range
    behaviour.
  - `Math.Sqrt` and `FormatDouble` are function parameters.
- `DateTime` range limits (years 1 to 9999) and `TimeSpan` overflow are not
  modelled: instants and spans are unbounded tick counts.
- The .NET calendar, the culture and the parsers are parameters
  (`PerformanceCalculatorEngines.Platform`). That covers `DateTime.ParseExact`,
  `TryParseExact`, `double.TryParse` and the first day of a month. The culture's
  time separator is the `sep` argument of the `Times` renderings.
- `Time.ToString()`, `ToString("T")` and `ToString("t")` are modelled only as
  text; their AM/PM designator depends on the culture.
- `Time` has two constructors: `ParseAsTime` calls the private byte one
  (Time.cs:29-48), `UtcDateTime.Time` the public int one (Time.cs:58-77).
  Their range checks and AM/PM logic are the same on 0..255, and
  `(byte)(hour - 12)` equals `hour - 12` for hours 13..23, so
  `Times.NewAsWritten` models both.
- The reporting members of the calculator are not modelled: `WriteReport`,
  `ToStringAggregate`, `GetAvgSuccessfullyCorrected` and
  `GetPeriodProcessedPercentage`. They build strings and float percentages.
  `Percent.cs`, `ToString`, `AsCsvSeperatedLine`, `ConvertToJson`,
  `ConvertFromJson`, `Now`, `MinValue`, `MaxValue`, `DayOfWeek` and `DayOfYear`
  are formatting or clock code.
- `NrOfOccurrences` is an unbounded count. Its 32-bit wrap after 2^31
  samples is not modelled.
- Where the source throws partway through a mutation, the model returns
  `Failure`. The partly updated state that the exception leaves behind is
  not modelled.
- The unused parameters `firstTimePoint` of the newer resampler and
  `dateTimePattern` of `ConvertTimeSeriesToHourlyResolution` are dropped.
- HourlySkillScoreCalculators.AddContinuous: the 32-bit wrap of `timeIndex`
  and `regIndex` is not modelled. The duplicate-key check of
  `Scope.ToDictionary` is modelled as the constructor's check, which fails
  first on the same scopes.
- HourlySkillScoreCalculators.WalkContinuous: its contract does not say
  that every reached time that qualifies is picked. The lemmas
  `WalkContinuousPicks` and `WalkContinuousBins` say what is picked and where
  it goes.
- ProductionDataHelpers.GatherWindows: stated for distinct boundaries one
  market step apart, which is what `TimePoints` produces (`TimePointsDistinct`).
- MainWindows.LeadingMinusFails: stated for trimmed text that starts with
  '-'. Other negative inputs are not characterised.
- PerformanceCalculatorEngines.ConvertToHourly: its contract gives only the
  failure cases. The three outcomes are in `ConvertKeepsHourly`,
  `ConvertTenMinutesResamples` and `ConvertDropsOtherGaps`.
- The metric getters (MFE, MAE, MSE, RMSE, MAPE, RMSPE) are one function,
  `BinSkillScores.Metric`. Its properties are the lemmas `MetricsDefined`,
  `MeanErrorBound` and `AbsoluteFromPercentage`.
- UtcDateTimeEnumerators.New: uses the exact step in milliseconds. The
  code as written stores the step wrapped to 32 bits, which differs for
  steps of 2^31 ms or more, that is for data spaced about 25 days or more
  apart (a month, quarter, season or year, or `Day` with an interval of 25
  or more). `NewAgreesWhenInRange` states that the two agree below that, and
  the first Finding records the difference.
- DateTimePatterns.LeadingDigits: counts only the ASCII digits '0' to '9'.
  `Char.IsNumber` in the code also accepts other Unicode number characters
  (digits of other scripts, superscripts, vulgar fractions), which could
  change the year-first decision for such stamps; those stamps are not
  modelled.
- The records `ObservationMetaData`, `ForecastMetaData` and `Turbine`, and
  the interface `IRestrictedRange`, have no behaviour. They are plain
  datatypes, or no type at all for the interface.

## Findings

| source | as written | input that shows it | evidently intended | confidence | as-written member | corrected member |
|---|---|---|---|---|---|---|
| PerformanceCalculator/SimpleDateTime/UtcDateTimeEnumerator.cs:20 | the step is the unit's milliseconds times the interval, stored in a 32-bit `int` without overflow checking | `TimeResolution.Month` (30 days, 2,592,000,000 ms) stores -1,702,967,296, so an `LtEq` range with start <= end never reaches its end | the exact step in milliseconds | high; not executed | UtcDateTimeEnumerators.StepAsWritten, UtcDateTimeEnumerators.MonthEnumerationAsWritten | UtcDateTimeEnumerators.Step, UtcDateTimeEnumerators.MonthEnumerationCorrected |
| PerformanceCalculator/SimpleDateTime/Time.cs:65-70 | unless the hour is above 12 on the 12-hour clock, the caller's `isAm` is overwritten with `hour < 12`, on the 12-hour clock too | `Time.ParseAsTime("02:00:00 PM")` gives `IsAm = true`, i.e. two in the morning; it reaches the same logic in the private byte constructor (Time.cs:36-41) | recompute the flag only on the 24-hour clock, as the parameter's own documentation says (Time.cs:56) | medium; not executed | Times.NewAsWritten, Times.PmIgnoredAsWritten | Times.New, Times.PmKept |
