/** `HourlySkillScoreCalculator`: a set of skill bins keyed by lead time
    (or, for continuous series, by hour of day), with the bin -1 taking
    every pair. Three ways of feeding it: one forecast run against park
    sums (discrete), per-turbine values summed per time first (turbine),
    and a continuous series (continuous). */
module HourlySkillScoreCalculators {
  import opened Wrappers
  import opened Text
  import U = UtcDateTimes
  import opened BinSkillScores
  import RR = RestrictedRanges
  import RI = RestrictedRangeInts
  import opened Turbines

  /** The bin that takes every registered pair. */
  const Any: int := -1

  type Bins = map<int, BinSkillScore>

  /** Per forecast run (keyed by its first time), per time, how many of the
      turbines were compared (turbine mode) or how many of the steps were
      registered to an hour bin (continuous mode). */
  type SuccessTable = map<U.UtcDateTime, map<U.UtcDateTime, RI.Range>>

  datatype Calculator = Calculator(
    Turbines: seq<Turbine>,
    Scope: seq<int>,
    InstalledCapacity: int,
    ForecastTimePoints: int,
    UseObservedWeatherData: bool,
    Registered: int,
    Bins: Bins,
    Success: SuccessTable)

  // ---------------------------------------------------------------------
  // Construction

  /** The label of a bin: "All" for -1, "Hour_n" otherwise. */
  function Label(hour: int): string {
    if hour == Any then "All" else "Hour_" + IntToString(hour)
  }

  predicate Distinct(s: seq<int>) {
    forall i, j :: 0 <= i < j < |s| ==> s[i] != s[j]
  }

  /** A sequence is free of repeats iff its front is and its last element
      does not occur in the front. */
  lemma DistinctSnoc(s: seq<int>)
    requires |s| > 0
    ensures Distinct(s) <==> Distinct(s[..|s| - 1]) && s[|s| - 1] !in s[..|s| - 1]
  {
    var init := s[..|s| - 1];
    if Distinct(init) && s[|s| - 1] !in init {
      forall i, j | 0 <= i < j < |s|
        ensures s[i] != s[j]
      {
        if j < |s| - 1 {
          assert s[i] == init[i] && s[j] == init[j];
        } else {
          assert s[i] == init[i];
        }
      }
    }
  }

  /** A strictly increasing sequence has no repeats. */
  lemma {:induction false} IncreasingDistinct(s: seq<int>)
    requires forall i :: 0 <= i < |s| - 1 ==> s[i] < s[i + 1]
    ensures Distinct(s)
    ensures |s| > 0 ==> forall i :: 0 <= i < |s| ==> s[i] <= s[|s| - 1]
    decreases |s|
  {
    if |s| > 0 {
      var init := s[..|s| - 1];
      IncreasingDistinct(init);
      if |init| > 0 {
        assert init[|init| - 1] < s[|s| - 1];
      }
      assert forall i :: 0 <= i < |init| ==> init[i] < s[|s| - 1];
      DistinctSnoc(s);
    }
  }

  /** One fresh bin per scope entry, added in order; adding an entry a
      second time throws. */
  function BuildBins(scope: seq<int>, capacity: int): (r: Result<Bins>)
    ensures r.Success? <==> Distinct(scope)
    ensures r.Success? ==> |r.value| == |scope|
    ensures r.Success? ==> forall k :: k in r.value <==> k in scope
    ensures r.Success? ==> forall k :: k in r.value ==> r.value[k] == New(k, Label(k), capacity)
    decreases |scope|
  {
    if |scope| == 0 then Success(map[])
    else
      var init := scope[..|scope| - 1];
      var last := scope[|scope| - 1];
      assert scope == init + [last];
      DistinctSnoc(scope);
      var bins :- BuildBins(init, capacity);
      if last in bins then Failure("An item with the same key has already been added")
      else Success(bins[last := New(last, Label(last), capacity)])
  }

  /** The constructor. */
  function NewCalculator(turbines: seq<Turbine>, scope: seq<int>, installedCapacity: int,
                         forecastTimePoints: int, useObservedWeatherData: bool): (r: Result<Calculator>)
    ensures r.Success? <==> Distinct(scope)
    ensures r.Success? ==> r.value.Registered == 0 && r.value.Success == map[]
    ensures r.Success? ==> |r.value.Bins| == |scope|
    ensures r.Success? ==> forall k :: k in r.value.Bins <==> k in scope
    ensures r.Success? ==> forall k :: k in r.value.Bins ==>
      Fresh(r.value.Bins[k]) && r.value.Bins[k].SkillId == k && r.value.Bins[k].SkillIdLabel == Label(k)
      && r.value.Bins[k].InstalledCapacity == installedCapacity
  {
    var bins :- BuildBins(scope, installedCapacity);
    Success(Calculator(turbines, scope, installedCapacity, forecastTimePoints, useObservedWeatherData, 0, bins, map[]))
  }

  /** `GetDefaultScope`. */
  const DefaultScope: seq<int> := [-1, 0, 1, 2, 3, 4, 5, 6, 12, 18, 24, 36, 48]

  /** The default scope builds: 13 bins, the catch-all one included. */
  lemma DefaultScopeBuilds(turbines: seq<Turbine>, installedCapacity: int, forecastTimePoints: int, useObserved: bool)
    ensures NewCalculator(turbines, DefaultScope, installedCapacity, forecastTimePoints, useObserved).Success?
    ensures Any in NewCalculator(turbines, DefaultScope, installedCapacity, forecastTimePoints, useObserved).value.Bins
    ensures |NewCalculator(turbines, DefaultScope, installedCapacity, forecastTimePoints, useObserved).value.Bins| == 13
  {
    IncreasingDistinct(DefaultScope);
    var bins := BuildBins(DefaultScope, installedCapacity);
    assert DefaultScope[0] == Any;
  }

  /** A scope with an entry given twice does not build: "1-3,2" from the
      scope box gives [-1, 1, 2, 3, 2]. */
  lemma RepeatedScopeFails(turbines: seq<Turbine>, installedCapacity: int, forecastTimePoints: int, useObserved: bool)
    ensures NewCalculator(turbines, [-1, 1, 2, 3, 2], installedCapacity, forecastTimePoints, useObserved).Failure?
  {
    var s := [-1, 1, 2, 3, 2];
    assert s[2] == s[4];
  }

  // ---------------------------------------------------------------------
  // Registering into bins

  /** Registers a pair into bin `key` when there is one. */
  function RegisterAt(bins: Bins, key: int, s: Sample): (r: Bins)
    ensures r.Keys == bins.Keys
    ensures forall k :: k in bins && k != key ==> r[k] == bins[k]
  {
    if key in bins then bins[key := Register(bins[key], s.actual, s.forecast)] else bins
  }

  /** A pair goes to the catch-all bin and then to the bin of its lead
      time, each when present. */
  function RegisterPair(bins: Bins, lead: int, s: Sample): Bins {
    RegisterAt(RegisterAt(bins, Any, s), lead, s)
  }

  /** What one pair contributes to bin `key`. */
  function Contribution(key: int, lead: int, s: Sample): seq<Sample> {
    (if key == Any then [s] else []) + (if lead == key then [s] else [])
  }

  lemma RegisterPairContribution(bins: Bins, lead: int, s: Sample, k: int)
    requires k in bins
    ensures RegisterPair(bins, lead, s).Keys == bins.Keys
    ensures RegisterPair(bins, lead, s)[k] == RegisterAll(bins[k], Contribution(k, lead, s))
  {
    var b := bins[k];
    assert RegisterAll(b, [s]) == Register(b, s.actual, s.forecast);
    if k == Any && lead == Any {
      assert Contribution(k, lead, s) == [s] + [s];
      RegisterAllAppend(b, [s], [s]);
    } else if k == Any {
      assert Contribution(k, lead, s) == [s];
    } else if lead == k {
      assert Contribution(k, lead, s) == [s];
    } else {
      assert Contribution(k, lead, s) == [];
    }
  }

  // ---------------------------------------------------------------------
  // Discrete mode

  predicate Paired(t: U.UtcDateTime, forecast: map<U.UtcDateTime, real>, observed: map<U.UtcDateTime, real>) {
    t in forecast && t in observed
  }

  /** `Register(observed, forecast)` takes the observed value first. */
  function SampleAt(t: U.UtcDateTime, forecast: map<U.UtcDateTime, real>, observed: map<U.UtcDateTime, real>): Sample
    requires Paired(t, forecast, observed)
  {
    Sample(observed[t], forecast[t])
  }

  /** The loop of the discrete `Add`: the time at position k of the run has
      lead time `lead + k`. */
  function WalkDiscrete(bins: Bins, times: seq<U.UtcDateTime>, forecast: map<U.UtcDateTime, real>,
                        observed: map<U.UtcDateTime, real>, lead: int): (r: Bins)
    ensures r.Keys == bins.Keys
    decreases |times|
  {
    if |times| == 0 then bins
    else
      var t := times[0];
      var next := if Paired(t, forecast, observed) then RegisterPair(bins, lead, SampleAt(t, forecast, observed)) else bins;
      WalkDiscrete(next, times[1..], forecast, observed, lead + 1)
  }

  /** The discrete `Add(enumerator, forecast sums, observed sums, offset)`;
      `times` are the enumerated times. */
  function AddDiscrete(c: Calculator, times: seq<U.UtcDateTime>, forecast: map<U.UtcDateTime, real>,
                       observed: map<U.UtcDateTime, real>, hoursAheadOffset: int): (r: Calculator)
    ensures r.Registered == c.Registered + 1
    ensures r.Bins.Keys == c.Bins.Keys
    ensures r.Success == c.Success && r.Scope == c.Scope && r.Turbines == c.Turbines
  {
    c.(Registered := c.Registered + 1,
       Bins := WalkDiscrete(c.Bins, times, forecast, observed, hoursAheadOffset))
  }

  /** The pairs that bin `key` receives from a run whose first lead time is
      `lead`, in order. */
  function PairsFor(times: seq<U.UtcDateTime>, forecast: map<U.UtcDateTime, real>,
                    observed: map<U.UtcDateTime, real>, lead: int, key: int): seq<Sample>
    decreases |times|
  {
    if |times| == 0 then []
    else
      var t := times[0];
      var here := if Paired(t, forecast, observed) then Contribution(key, lead, SampleAt(t, forecast, observed)) else [];
      here + PairsFor(times[1..], forecast, observed, lead + 1, key)
  }

  /** Each bin ends up having registered exactly its own pairs, in order. */
  lemma {:induction false} WalkDiscreteBins(bins: Bins, times: seq<U.UtcDateTime>, forecast: map<U.UtcDateTime, real>,
                                            observed: map<U.UtcDateTime, real>, lead: int, k: int)
    requires k in bins
    ensures WalkDiscrete(bins, times, forecast, observed, lead)[k]
      == RegisterAll(bins[k], PairsFor(times, forecast, observed, lead, k))
    decreases |times|
  {
    if |times| > 0 {
      var t := times[0];
      var next := if Paired(t, forecast, observed) then RegisterPair(bins, lead, SampleAt(t, forecast, observed)) else bins;
      var here := if Paired(t, forecast, observed) then Contribution(k, lead, SampleAt(t, forecast, observed)) else [];
      if Paired(t, forecast, observed) {
        RegisterPairContribution(bins, lead, SampleAt(t, forecast, observed), k);
      }
      assert next[k] == RegisterAll(bins[k], here);
      WalkDiscreteBins(next, times[1..], forecast, observed, lead + 1, k);
      RegisterAllAppend(bins[k], here, PairsFor(times[1..], forecast, observed, lead + 1, k));
    }
  }

  /** A lead-time bin receives at most one pair: the one at position
      `key - lead` of the run, when both maps hold that time. */
  lemma {:induction false} LeadTimePairs(times: seq<U.UtcDateTime>, forecast: map<U.UtcDateTime, real>,
                                         observed: map<U.UtcDateTime, real>, lead: int, key: int)
    requires key != Any
    ensures PairsFor(times, forecast, observed, lead, key) ==
      if lead <= key < lead + |times| && Paired(times[key - lead], forecast, observed)
      then [SampleAt(times[key - lead], forecast, observed)] else []
    decreases |times|
  {
    if |times| > 0 {
      LeadTimePairs(times[1..], forecast, observed, lead + 1, key);
      if lead + 1 <= key < lead + |times| {
        assert times[1..][key - (lead + 1)] == times[key - lead];
      }
    }
  }

  /** All pairs of a run in order. */
  function AllPairs(times: seq<U.UtcDateTime>, forecast: map<U.UtcDateTime, real>,
                    observed: map<U.UtcDateTime, real>): seq<Sample>
    decreases |times|
  {
    if |times| == 0 then []
    else
      var here := if Paired(times[0], forecast, observed) then [SampleAt(times[0], forecast, observed)] else [];
      here + AllPairs(times[1..], forecast, observed)
  }

  /** The pairs of a run with the one at position `i` given twice: the
      pairs up to and including position `i`, then those from position `i`
      on. Just the pairs when `i` lies outside the run. */
  function AllPairsRepeating(times: seq<U.UtcDateTime>, forecast: map<U.UtcDateTime, real>,
                             observed: map<U.UtcDateTime, real>, i: int): seq<Sample>
  {
    if 0 <= i < |times| then AllPairs(times[..i + 1], forecast, observed) + AllPairs(times[i..], forecast, observed)
    else AllPairs(times, forecast, observed)
  }

  /** The pair of the run's first time, given twice when `twice` holds;
      nothing when a series lacks that time. */
  function HeadPairs(times: seq<U.UtcDateTime>, forecast: map<U.UtcDateTime, real>,
                     observed: map<U.UtcDateTime, real>, twice: bool): seq<Sample>
    requires |times| > 0
  {
    var here := if Paired(times[0], forecast, observed) then [SampleAt(times[0], forecast, observed)] else [];
    if twice then here + here else here
  }

  /** The pairs of a run: the first time's pair, then the rest. */
  lemma AllPairsHead(times: seq<U.UtcDateTime>, forecast: map<U.UtcDateTime, real>,
                     observed: map<U.UtcDateTime, real>)
    requires |times| > 0
    ensures AllPairs(times, forecast, observed)
      == HeadPairs(times, forecast, observed, false) + AllPairs(times[1..], forecast, observed)
  {
  }

  /** Repeating the first pair: it comes twice, then the rest once. */
  lemma RepeatingAtHead(times: seq<U.UtcDateTime>, forecast: map<U.UtcDateTime, real>,
                        observed: map<U.UtcDateTime, real>)
    requires |times| > 0
    ensures AllPairsRepeating(times, forecast, observed, 0)
      == HeadPairs(times, forecast, observed, true) + AllPairs(times[1..], forecast, observed)
  {
    AllPairsHead(times[..1], forecast, observed);
    assert times[..1][0] == times[0] && times[..1][1..] == [];
    AllPairsHead(times, forecast, observed);
    assert times[0..] == times;
  }

  /** Slicing a sequence after dropping its head. */
  lemma SliceAfterHead<T>(s: seq<T>, i: int)
    requires 0 < i < |s|
    ensures s[..i + 1][0] == s[0]
    ensures s[..i + 1][1..] == s[1..][..i - 1 + 1]
    ensures s[i..] == s[1..][i - 1..]
  {
  }

  /** Repeating a later pair: the first pair once, then the rest with the
      repeat one position earlier. */
  lemma RepeatingLater(times: seq<U.UtcDateTime>, forecast: map<U.UtcDateTime, real>,
                       observed: map<U.UtcDateTime, real>, i: int)
    requires 0 < i < |times|
    ensures AllPairsRepeating(times, forecast, observed, i)
      == HeadPairs(times, forecast, observed, false) + AllPairsRepeating(times[1..], forecast, observed, i - 1)
  {
    SliceAfterHead(times, i);
    AllPairsHead(times[..i + 1], forecast, observed);
  }

  /** The pairs with a repeat, one time at a time: the first time's pair,
      given twice when it is the repeated one, then the rest. */
  lemma AllPairsRepeatingStep(times: seq<U.UtcDateTime>, forecast: map<U.UtcDateTime, real>,
                              observed: map<U.UtcDateTime, real>, i: int)
    requires |times| > 0
    ensures AllPairsRepeating(times, forecast, observed, i)
      == HeadPairs(times, forecast, observed, i == 0) + AllPairsRepeating(times[1..], forecast, observed, i - 1)
  {
    if i == 0 {
      RepeatingAtHead(times, forecast, observed);
    } else if 0 < i < |times| {
      RepeatingLater(times, forecast, observed, i);
    } else {
      AllPairsHead(times, forecast, observed);
    }
  }

  /** The first time of a run gives the catch-all bin its pair once, or
      twice when its lead time is -1. */
  lemma CatchAllHead(times: seq<U.UtcDateTime>, forecast: map<U.UtcDateTime, real>,
                     observed: map<U.UtcDateTime, real>, lead: int)
    requires |times| > 0
    ensures PairsFor(times, forecast, observed, lead, Any)
      == HeadPairs(times, forecast, observed, -1 - lead == 0) + PairsFor(times[1..], forecast, observed, lead + 1, Any)
  {
    if Paired(times[0], forecast, observed) {
      var s := SampleAt(times[0], forecast, observed);
      assert Contribution(Any, lead, s) == if lead == -1 then [s] + [s] else [s];
    }
  }

  /** One step of `CatchAllPairs`. */
  lemma CatchAllPairsStep(times: seq<U.UtcDateTime>, forecast: map<U.UtcDateTime, real>,
                          observed: map<U.UtcDateTime, real>, lead: int)
    requires |times| > 0
    requires PairsFor(times[1..], forecast, observed, lead + 1, Any)
      == AllPairsRepeating(times[1..], forecast, observed, -1 - lead - 1)
    ensures PairsFor(times, forecast, observed, lead, Any) == AllPairsRepeating(times, forecast, observed, -1 - lead)
  {
    CatchAllHead(times, forecast, observed, lead);
    AllPairsRepeatingStep(times, forecast, observed, -1 - lead);
  }

  /** The catch-all bin receives every pair of the run once, in order,
      except that the lead time -1 is also the catch-all bin's key: the
      pair at position `-1 - lead`, when the lead time reaches -1 inside
      the run, is registered there twice. */
  lemma {:induction false} CatchAllPairs(times: seq<U.UtcDateTime>, forecast: map<U.UtcDateTime, real>,
                                         observed: map<U.UtcDateTime, real>, lead: int)
    ensures PairsFor(times, forecast, observed, lead, Any) == AllPairsRepeating(times, forecast, observed, -1 - lead)
    ensures lead >= 0 ==> PairsFor(times, forecast, observed, lead, Any) == AllPairs(times, forecast, observed)
    decreases |times|
  {
    if |times| > 0 {
      CatchAllPairs(times[1..], forecast, observed, lead + 1);
      CatchAllPairsStep(times, forecast, observed, lead);
    }
  }

  /** The discrete `Add` in full: the catch-all bin takes every pair (the
      one whose lead time is -1 twice), the bin of lead time `key` takes
      the pair at position `key - offset` (when both maps hold that time),
      and every other bin is unchanged. */
  lemma AddDiscreteMeaning(c: Calculator, times: seq<U.UtcDateTime>, forecast: map<U.UtcDateTime, real>,
                           observed: map<U.UtcDateTime, real>, hoursAheadOffset: int, k: int)
    requires k in c.Bins
    ensures k == Any ==>
      AddDiscrete(c, times, forecast, observed, hoursAheadOffset).Bins[k]
        == RegisterAll(c.Bins[k], AllPairsRepeating(times, forecast, observed, -1 - hoursAheadOffset))
    ensures k == Any && hoursAheadOffset >= 0 ==>
      AddDiscrete(c, times, forecast, observed, hoursAheadOffset).Bins[k]
        == RegisterAll(c.Bins[k], AllPairs(times, forecast, observed))
    ensures k != Any ==>
      AddDiscrete(c, times, forecast, observed, hoursAheadOffset).Bins[k]
        == if hoursAheadOffset <= k < hoursAheadOffset + |times| && Paired(times[k - hoursAheadOffset], forecast, observed)
           then Register(c.Bins[k], observed[times[k - hoursAheadOffset]], forecast[times[k - hoursAheadOffset]])
           else c.Bins[k]
  {
    WalkDiscreteBins(c.Bins, times, forecast, observed, hoursAheadOffset, k);
    if k == Any {
      CatchAllPairs(times, forecast, observed, hoursAheadOffset);
    } else {
      LeadTimePairs(times, forecast, observed, hoursAheadOffset, k);
      var b := c.Bins[k];
      if hoursAheadOffset <= k < hoursAheadOffset + |times| && Paired(times[k - hoursAheadOffset], forecast, observed) {
        var s := SampleAt(times[k - hoursAheadOffset], forecast, observed);
        assert RegisterAll(b, [s]) == RegisterAll(Register(b, s.actual, s.forecast), []);
      }
    }
  }

  /** An offset of -1 on a one-hour run registers its pair twice in the
      catch-all bin: its lead time is -1, the catch-all bin's own key. */
  lemma NegativeOffsetCountsTwice(c: Calculator, t: U.UtcDateTime, forecast: map<U.UtcDateTime, real>,
                                  observed: map<U.UtcDateTime, real>)
    requires Any in c.Bins && Paired(t, forecast, observed)
    ensures AddDiscrete(c, [t], forecast, observed, -1).Bins[Any]
      == Register(Register(c.Bins[Any], observed[t], forecast[t]), observed[t], forecast[t])
    ensures AddDiscrete(c, [t], forecast, observed, -1).Bins[Any].NrOfOccurrences == c.Bins[Any].NrOfOccurrences + 2
  {
    var s := SampleAt(t, forecast, observed);
    AddDiscreteMeaning(c, [t], forecast, observed, -1, Any);
    RepeatingAtHead([t], forecast, observed);
    assert [t][1..] == [] && [t][0] == t;
    assert AllPairsRepeating([t], forecast, observed, 0) == [s, s];
    var once := Register(c.Bins[Any], s.actual, s.forecast);
    assert [s, s][1..] == [s] && [s][1..] == [];
    assert RegisterAll(once, [s]) == RegisterAll(Register(once, s.actual, s.forecast), []);
    assert RegisterAll(c.Bins[Any], [s, s]) == RegisterAll(once, [s]);
  }

  // ---------------------------------------------------------------------
  // Continuous mode

  /** A pair the continuous walk registered, with its time. */
  datatype Pick = Pick(time: U.UtcDateTime, sample: Sample)

  /** The loop variables of `AddContinousSerie`. */
  datatype ContinuousState = ContinuousState(
    bins: Bins, prevPower: real, sumPower: real, sumObsPower: real, timeIndex: int, regIndex: int)

  /** Whether the hour-of-day bin `h` takes a pair: `h` must be in the scope
      dictionary and have a bin. */
  predicate HourSlot(h: int, scope: seq<int>, bins: Bins) {
    h in scope && h in bins
  }

  /** The state before the first step. */
  function StartContinuous(bins: Bins): ContinuousState {
    ContinuousState(bins, -1.0, 0.0, 0.0, 0, 0)
  }

  /** The loop stops at a step past the tenth once at most 1 has been
      observed in total. */
  predicate Stops(st: ContinuousState) {
    st.timeIndex > 10 && st.sumObsPower <= 1.0
  }

  /** A time is registered when both maps hold it and its forecast differs
      from the observed value registered last. */
  predicate Picked(st: ContinuousState, t: U.UtcDateTime, prediction: map<U.UtcDateTime, real>,
                   production: map<U.UtcDateTime, real>) {
    Paired(t, prediction, production) && prediction[t] != st.prevPower
  }

  /** What one step registers: nothing, or the pair at `t`. */
  function PickAt(st: ContinuousState, t: U.UtcDateTime, prediction: map<U.UtcDateTime, real>,
                  production: map<U.UtcDateTime, real>): seq<Pick> {
    if Picked(st, t, prediction, production) then [Pick(t, SampleAt(t, prediction, production))] else []
  }

  /** One step of the loop that does not stop: a picked pair goes to the
      catch-all bin and to the bin of its UTC hour of day, and becomes the
      previous power; the step index always advances. */
  function Advance(st: ContinuousState, t: U.UtcDateTime, prediction: map<U.UtcDateTime, real>,
                   production: map<U.UtcDateTime, real>, scope: seq<int>): (r: ContinuousState)
    ensures r.bins.Keys == st.bins.Keys
    ensures r.timeIndex == st.timeIndex + 1
  {
    if Picked(st, t, prediction, production) then
      var s := SampleAt(t, prediction, production);
      var h := U.Hour(t);
      var bins := RegisterAt(st.bins, Any, s);
      var slot := HourSlot(h, scope, bins);
      ContinuousState(
        if slot then RegisterAt(bins, h, s) else bins,
        s.actual, st.sumPower + s.forecast, st.sumObsPower + s.actual, st.timeIndex + 1,
        if slot then st.regIndex + 1 else st.regIndex)
    else st.(timeIndex := st.timeIndex + 1)
  }

  /** The observed values of a list of picks, summed. */
  function SumObserved(picks: seq<Pick>): real {
    if |picks| == 0 then 0.0 else picks[0].sample.actual + SumObserved(picks[1..])
  }

  /** The loop of `AddContinousSerie`, with the pairs it registers. */
  function WalkContinuous(st: ContinuousState, times: seq<U.UtcDateTime>, prediction: map<U.UtcDateTime, real>,
                          production: map<U.UtcDateTime, real>, scope: seq<int>): (r: (ContinuousState, seq<Pick>))
    ensures r.0.bins.Keys == st.bins.Keys
    ensures st.timeIndex <= r.0.timeIndex <= st.timeIndex + |times|
    ensures r.0.timeIndex < st.timeIndex + |times| ==> Stops(r.0)
    ensures |r.1| <= r.0.timeIndex - st.timeIndex
    decreases |times|
  {
    if |times| == 0 || Stops(st) then (st, [])
    else
      var rest := WalkContinuous(Advance(st, times[0], prediction, production, scope), times[1..], prediction, production, scope);
      (rest.0, PickAt(st, times[0], prediction, production) + rest.1)
  }

  /** The samples bin `k` takes from a list of picks: all of them for the
      catch-all bin, those of hour of day `k` for an hour bin in the scope. */
  function PicksFor(picks: seq<Pick>, k: int, scope: seq<int>): seq<Sample> {
    if |picks| == 0 then [] else Takes(picks[0], k, scope) + PicksFor(picks[1..], k, scope)
  }

  /** What bin `k` takes from one pick. */
  function Takes(p: Pick, k: int, scope: seq<int>): seq<Sample> {
    if k == Any || (k == U.Hour(p.time) && k in scope) then [p.sample] else []
  }

  /** The number of picks whose hour has a bin in the scope. */
  function CountSlotted(picks: seq<Pick>, scope: seq<int>, bins: Bins): nat {
    if |picks| == 0 then 0
    else (if HourSlot(U.Hour(picks[0].time), scope, bins) then 1 else 0) + CountSlotted(picks[1..], scope, bins)
  }

  /** Only the keys of the bins matter to `CountSlotted`. */
  lemma {:induction false} CountSlottedSameKeys(picks: seq<Pick>, scope: seq<int>, a: Bins, b: Bins)
    requires a.Keys == b.Keys
    ensures CountSlotted(picks, scope, a) == CountSlotted(picks, scope, b)
    decreases |picks|
  {
    if |picks| > 0 {
      CountSlottedSameKeys(picks[1..], scope, a, b);
    }
  }

  /** A bin takes the picks of two runs one after the other. */
  lemma {:induction false} PicksForAppend(xs: seq<Pick>, ys: seq<Pick>, k: int, scope: seq<int>)
    ensures PicksFor(xs + ys, k, scope) == PicksFor(xs, k, scope) + PicksFor(ys, k, scope)
    decreases |xs|
  {
    if |xs| == 0 {
      assert xs + ys == ys;
    } else {
      assert (xs + ys)[0] == xs[0] && (xs + ys)[1..] == xs[1..] + ys;
      PicksForAppend(xs[1..], ys, k, scope);
      var h := Takes(xs[0], k, scope);
      assert PicksFor(xs + ys, k, scope) == h + (PicksFor(xs[1..], k, scope) + PicksFor(ys, k, scope));
    }
  }

  lemma {:induction false} CountSlottedAppend(xs: seq<Pick>, ys: seq<Pick>, scope: seq<int>, bins: Bins)
    ensures CountSlotted(xs + ys, scope, bins) == CountSlotted(xs, scope, bins) + CountSlotted(ys, scope, bins)
    decreases |xs|
  {
    if |xs| == 0 {
      assert xs + ys == ys;
    } else {
      assert (xs + ys)[1..] == xs[1..] + ys;
      CountSlottedAppend(xs[1..], ys, scope, bins);
    }
  }

  lemma {:induction false} SumObservedAppend(xs: seq<Pick>, ys: seq<Pick>)
    ensures SumObserved(xs + ys) == SumObserved(xs) + SumObserved(ys)
    decreases |xs|
  {
    if |xs| == 0 {
      assert xs + ys == ys;
    } else {
      assert (xs + ys)[1..] == xs[1..] + ys;
      SumObservedAppend(xs[1..], ys);
    }
  }

  /** One step in terms of what it picks: the bins. */
  lemma AdvanceMeaning(st: ContinuousState, t: U.UtcDateTime, prediction: map<U.UtcDateTime, real>,
                       production: map<U.UtcDateTime, real>, scope: seq<int>, k: int)
    requires k in st.bins
    ensures Advance(st, t, prediction, production, scope).bins[k]
      == RegisterAll(st.bins[k], PicksFor(PickAt(st, t, prediction, production), k, scope))
  {
    if Picked(st, t, prediction, production) {
      var s := SampleAt(t, prediction, production);
      assert PickAt(st, t, prediction, production)[1..] == [];
      assert RegisterAll(st.bins[k], [s]) == Register(st.bins[k], s.actual, s.forecast);
      assert U.Hour(t) != Any;
    }
  }

  /** One step in terms of what it picks: the counters. */
  lemma AdvanceCounts(st: ContinuousState, t: U.UtcDateTime, prediction: map<U.UtcDateTime, real>,
                      production: map<U.UtcDateTime, real>, scope: seq<int>)
    ensures Advance(st, t, prediction, production, scope).regIndex
      == st.regIndex + CountSlotted(PickAt(st, t, prediction, production), scope, st.bins)
    ensures Advance(st, t, prediction, production, scope).sumObsPower
      == st.sumObsPower + SumObserved(PickAt(st, t, prediction, production))
    ensures Advance(st, t, prediction, production, scope).prevPower
      == if Picked(st, t, prediction, production) then production[t] else st.prevPower
  {
    if Picked(st, t, prediction, production) {
      assert PickAt(st, t, prediction, production)[1..] == [];
    }
  }


  /** Each bin registers exactly the picks of its hour (all of them for the
      catch-all bin), in order. */
  lemma {:induction false} WalkContinuousBins(st: ContinuousState, times: seq<U.UtcDateTime>,
                                              prediction: map<U.UtcDateTime, real>,
                                              production: map<U.UtcDateTime, real>, scope: seq<int>, k: int)
    requires k in st.bins
    ensures var (r, picks) := WalkContinuous(st, times, prediction, production, scope);
      r.bins[k] == RegisterAll(st.bins[k], PicksFor(picks, k, scope))
    decreases |times|
  {
    if |times| > 0 && !Stops(st) {
      var next := Advance(st, times[0], prediction, production, scope);
      var here := PickAt(st, times[0], prediction, production);
      AdvanceMeaning(st, times[0], prediction, production, scope, k);
      WalkContinuousBins(next, times[1..], prediction, production, scope, k);
      var rest := WalkContinuous(next, times[1..], prediction, production, scope);
      PicksForAppend(here, rest.1, k, scope);
      RegisterAllAppend(st.bins[k], PicksFor(here, k, scope), PicksFor(rest.1, k, scope));
    }
  }

  /** `regIndex` counts the picks an hour bin took, so it never exceeds the
      number of steps; the observed sum is that of the picks. */
  lemma {:induction false} WalkContinuousCounts(st: ContinuousState, times: seq<U.UtcDateTime>,
                                                prediction: map<U.UtcDateTime, real>,
                                                production: map<U.UtcDateTime, real>, scope: seq<int>)
    ensures var (r, picks) := WalkContinuous(st, times, prediction, production, scope);
      r.regIndex == st.regIndex + CountSlotted(picks, scope, st.bins)
    ensures var (r, picks) := WalkContinuous(st, times, prediction, production, scope);
      r.sumObsPower == st.sumObsPower + SumObserved(picks)
    ensures var (r, picks) := WalkContinuous(st, times, prediction, production, scope);
      st.regIndex <= r.regIndex <= st.regIndex + |picks| <= st.regIndex + r.timeIndex - st.timeIndex
    decreases |times|
  {
    if |times| > 0 && !Stops(st) {
      var next := Advance(st, times[0], prediction, production, scope);
      var here := PickAt(st, times[0], prediction, production);
      AdvanceCounts(st, times[0], prediction, production, scope);
      WalkContinuousCounts(next, times[1..], prediction, production, scope);
      var rest := WalkContinuous(next, times[1..], prediction, production, scope);
      CountSlottedAppend(here, rest.1, scope, st.bins);
      SumObservedAppend(here, rest.1);
      CountSlottedSameKeys(rest.1, scope, next.bins, st.bins);
      CountSlottedBound(here + rest.1, scope, st.bins);
    } else {
      CountSlottedBound([], scope, st.bins);
    }
  }

  lemma {:induction false} CountSlottedBound(picks: seq<Pick>, scope: seq<int>, bins: Bins)
    ensures CountSlotted(picks, scope, bins) <= |picks|
    decreases |picks|
  {
    if |picks| > 0 {
      CountSlottedBound(picks[1..], scope, bins);
    }
  }

  /** Every pick is at one of the times `reached`, held by both maps, with
      its own forecast and observed value. */
  predicate PicksFrom(picks: seq<Pick>, reached: seq<U.UtcDateTime>, prediction: map<U.UtcDateTime, real>,
                      production: map<U.UtcDateTime, real>) {
    forall i :: 0 <= i < |picks| ==>
      picks[i].time in reached && Paired(picks[i].time, prediction, production)
      && picks[i].sample == SampleAt(picks[i].time, prediction, production)
  }

  /** What the walk registers: times of the run it reached, held by both
      maps, each with its own forecast and observed value. */
  lemma {:induction false} WalkContinuousPicks(st: ContinuousState, times: seq<U.UtcDateTime>,
                                               prediction: map<U.UtcDateTime, real>,
                                               production: map<U.UtcDateTime, real>, scope: seq<int>)
    ensures PicksFrom(WalkContinuous(st, times, prediction, production, scope).1,
                      times[..WalkContinuous(st, times, prediction, production, scope).0.timeIndex - st.timeIndex],
                      prediction, production)
    decreases |times|
  {
    if |times| > 0 && !Stops(st) {
      var t := times[0];
      var next := Advance(st, t, prediction, production, scope);
      var here := PickAt(st, t, prediction, production);
      WalkContinuousPicks(next, times[1..], prediction, production, scope);
      var rest := WalkContinuous(next, times[1..], prediction, production, scope);
      var picks := here + rest.1;
      assert WalkContinuous(st, times, prediction, production, scope) == (rest.0, picks);
      var reached := times[..rest.0.timeIndex - st.timeIndex];
      assert times[1..][..rest.0.timeIndex - next.timeIndex] == reached[1..];
      assert PicksFrom(rest.1, reached[1..], prediction, production);
      forall i | 0 <= i < |picks|
        ensures picks[i].time in reached
      {
        if i < |here| {
          assert picks[i] == Pick(t, SampleAt(t, prediction, production)) && reached[0] == t;
        } else {
          var k := i - |here|;
          assert picks[i] == rest.1[k];
          assert picks[i].time in reached[1..];
          var j :| 0 <= j < |reached[1..]| && reached[1..][j] == picks[i].time;
          assert reached[j + 1] == picks[i].time;
        }
      }
    }
  }

  /** No registered forecast equals the observed value registered just
      before it (or the starting previous power, for the first). */
  lemma {:induction false} WalkContinuousNoRepeat(st: ContinuousState, times: seq<U.UtcDateTime>,
                                                  prediction: map<U.UtcDateTime, real>,
                                                  production: map<U.UtcDateTime, real>, scope: seq<int>)
    ensures var picks := WalkContinuous(st, times, prediction, production, scope).1;
      |picks| > 0 ==> picks[0].sample.forecast != st.prevPower
    ensures var picks := WalkContinuous(st, times, prediction, production, scope).1;
      forall i :: 0 < i < |picks| ==> picks[i].sample.forecast != picks[i - 1].sample.actual
    decreases |times|
  {
    if |times| > 0 && !Stops(st) {
      var t := times[0];
      var next := Advance(st, t, prediction, production, scope);
      var here := PickAt(st, t, prediction, production);
      AdvanceCounts(st, t, prediction, production, scope);
      WalkContinuousNoRepeat(next, times[1..], prediction, production, scope);
      var rest := WalkContinuous(next, times[1..], prediction, production, scope);
      var picks := here + rest.1;
      if Picked(st, t, prediction, production) {
        forall i | 0 < i < |picks|
          ensures picks[i].sample.forecast != picks[i - 1].sample.actual
        {
          assert picks[i] == rest.1[i - 1];
          if i > 1 {
            assert picks[i - 1] == rest.1[i - 2];
          }
        }
      } else {
        assert picks == rest.1;
      }
    }
  }

  /** `AddContinousSerie`: fails where the code throws (a scope with a
      repeated entry, an empty run, a first time already in `Success`);
      otherwise it counts the run, updates the bins and records
      `Success[first] = [0, timeIndex]` holding `regIndex`. */
  function AddContinuous(c: Calculator, times: seq<U.UtcDateTime>, prediction: map<U.UtcDateTime, real>,
                         production: map<U.UtcDateTime, real>): (r: Result<Calculator>)
    ensures r.Success? <==> Distinct(c.Scope) && |times| > 0 && times[0] !in c.Success
    ensures r.Success? ==> r.value.Registered == c.Registered + 1
    ensures r.Success? ==> r.value.Bins.Keys == c.Bins.Keys
    ensures r.Success? ==> r.value.Success.Keys == c.Success.Keys + {times[0]}
    ensures r.Success? ==> forall t :: t in c.Success ==> r.value.Success[t] == c.Success[t]
    ensures r.Success? ==> r.value.Success[times[0]].Keys == {times[0]}
    ensures r.Success? ==>
      var range := r.value.Success[times[0]][times[0]];
      range.MinValue == 0 && 0 <= range.Value <= range.MaxValue <= |times|
  {
    if !Distinct(c.Scope) then Failure("An item with the same key has already been added")
    else
      var (st, picks) := WalkContinuous(StartContinuous(c.Bins), times, prediction, production, c.Scope);
      if |times| == 0 then Failure("Sequence contains no elements")
      else if times[0] in c.Success then Failure("An item with the same key has already been added")
      else
        // the constructor's bound check 0 <= timeIndex always passes
        var range := RR.RestrictedRange(0, st.timeIndex, st.regIndex);
        WalkContinuousCounts(StartContinuous(c.Bins), times, prediction, production, c.Scope);
        Success(c.(Registered := c.Registered + 1, Bins := st.bins,
                   Success := c.Success[times[0] := map[times[0] := range]]))
  }

  /** The pairs a continuous run registers, in order. */
  function ContinuousPicks(c: Calculator, times: seq<U.UtcDateTime>, prediction: map<U.UtcDateTime, real>,
                           production: map<U.UtcDateTime, real>): seq<Pick> {
    WalkContinuous(StartContinuous(c.Bins), times, prediction, production, c.Scope).1
  }

  /** A bin that is neither the catch-all one nor an hour of day in the
      scope takes nothing. */
  lemma {:induction false} PicksForNone(picks: seq<Pick>, k: int, scope: seq<int>)
    requires k != Any && (k !in scope || k < 0 || k >= 24)
    ensures PicksFor(picks, k, scope) == []
    decreases |picks|
  {
    if |picks| > 0 {
      PicksForNone(picks[1..], k, scope);
    }
  }

  /** `AddContinousSerie` in full: the catch-all bin takes every pick, an
      hour bin in the scope takes the picks of its UTC hour of day, and every
      other bin is unchanged. */
  lemma AddContinuousMeaning(c: Calculator, times: seq<U.UtcDateTime>, prediction: map<U.UtcDateTime, real>,
                             production: map<U.UtcDateTime, real>, k: int)
    requires AddContinuous(c, times, prediction, production).Success? && k in c.Bins
    ensures AddContinuous(c, times, prediction, production).value.Bins[k]
      == RegisterAll(c.Bins[k], PicksFor(ContinuousPicks(c, times, prediction, production), k, c.Scope))
    ensures k != Any && (k !in c.Scope || k < 0 || k >= 24) ==>
      AddContinuous(c, times, prediction, production).value.Bins[k] == c.Bins[k]
  {
    WalkContinuousBins(StartContinuous(c.Bins), times, prediction, production, c.Scope, k);
    if k != Any && (k !in c.Scope || k < 0 || k >= 24) {
      PicksForNone(ContinuousPicks(c, times, prediction, production), k, c.Scope);
    }
  }

  // ---------------------------------------------------------------------
  // Turbine mode

  /** One time's per-turbine comparison: every turbine with an observed
      value (by its SCADA id) adds that value and its forecast (by its
      reference id, 0 when missing) to the sums. */
  function TurbineSums(turbines: seq<Turbine>, power: map<int, real>, observed: map<int, real>): (r: (real, real, int))
    ensures 0 <= r.2 <= |turbines|
    ensures r.2 == 0 <==> forall i :: 0 <= i < |turbines| ==> turbines[i].ScadaId !in observed
    decreases |turbines|
  {
    if |turbines| == 0 then (0.0, 0.0, 0)
    else
      var rest := TurbineSums(turbines[1..], power, observed);
      var u := turbines[0];
      if u.ScadaId in observed then
        var p := if u.ReferenceId in power then power[u.ReferenceId] else 0.0;
        (p + rest.0, observed[u.ScadaId] + rest.1, rest.2 + 1)
      else
        assert forall i :: 1 <= i < |turbines| ==> turbines[i] == turbines[1..][i - 1];
        rest
  }

  /** Adds `v` to the entry of `t`, starting from 0. */
  function AddTo(m: map<U.UtcDateTime, real>, t: U.UtcDateTime, v: real): (r: map<U.UtcDateTime, real>)
    ensures r.Keys == m.Keys + {t}
    ensures r[t] == (if t in m then m[t] else 0.0) + v
    ensures forall u :: u in m && u != t ==> r[u] == m[u]
  {
    m[t := (if t in m then m[t] else 0.0) + v]
  }

  /** The loop variables of the first loop of the turbine `Add`. */
  datatype TurbineState = TurbineState(
    sumPower: map<U.UtcDateTime, real>, sumObsPower: map<U.UtcDateTime, real>,
    success: map<U.UtcDateTime, RI.Range>, prevRotSpeed: real, timeIndex: int)

  /** What the turbine `Add` reads besides the run's times: the
      calculator's turbines and mast flag, the forecast and observed values
      per time and turbine, and the mast values per time. */
  datatype TurbineInputs = TurbineInputs(
    turbines: seq<Turbine>, power: map<U.UtcDateTime, map<int, real>>,
    observed: map<U.UtcDateTime, map<int, real>>, mast: map<U.UtcDateTime, Option<real>>, useObserved: bool)

  /** The measured mast value at `t`, when there is one. */
  predicate HasMast(t: U.UtcDateTime, d: TurbineInputs) {
    t in d.mast && d.mast[t].Some?
  }

  /** A time is skipped when mast data is used and its mast value repeats
      the previous one. */
  predicate RepeatedMast(st: TurbineState, t: U.UtcDateTime, d: TurbineInputs) {
    d.useObserved && HasMast(t, d) && d.mast[t].value - st.prevRotSpeed == 0.0
  }

  /** The sums and count of one time: nothing for a skipped time or one
      without forecast values. */
  function Compared(st: TurbineState, t: U.UtcDateTime, d: TurbineInputs): (r: (real, real, int))
    ensures 0 <= r.2 <= |d.turbines|
  {
    if !RepeatedMast(st, t, d) && t in d.power
    then TurbineSums(d.turbines, d.power[t], if t in d.observed then d.observed[t] else map[])
    else (0.0, 0.0, 0)
  }

  /** The body of the first loop for a time `t` when the loop does not stop
      there: with mast data requested but none given it throws; otherwise
      the time's entry [0, turbine count] is set, through the guarded
      setter, to the number of turbines compared, whose sums are added. */
  function TurbineStep(st: TurbineState, t: U.UtcDateTime, d: TurbineInputs): (r: Result<TurbineState>)
    ensures r.Failure? <==> d.useObserved && |d.mast| == 0
    ensures r.Success? ==> r.value.timeIndex == st.timeIndex + 1
    ensures r.Success? ==> t in r.value.success && r.value.success[t] == RR.RestrictedRange(0, |d.turbines|, Compared(st, t, d).2)
    ensures r.Success? ==> r.value.success == st.success[t := r.value.success[t]]
  {
    if d.useObserved && |d.mast| == 0 then Failure("No MetMast Data provided")
    else
      var prevRotSpeed := if !RepeatedMast(st, t, d) && d.useObserved && HasMast(t, d) then d.mast[t].value else st.prevRotSpeed;
      var sums := Compared(st, t, d);
      var sumPower := if sums.2 > 0 then AddTo(st.sumPower, t, sums.0) else st.sumPower;
      var sumObsPower := if sums.2 > 0 then AddTo(st.sumObsPower, t, sums.1) else st.sumObsPower;
      var stored := RI.SetValue(RR.RestrictedRange(0, |d.turbines|, 0), sums.2);
      if stored.Failure? then Failure("Value out of range")
      else Success(TurbineState(sumPower, sumObsPower, st.success[t := stored.value], prevRotSpeed, st.timeIndex + 1))
  }

  /** The sums of a step: a time gets both sums exactly when some turbine
      was compared at it, other times keep theirs, and a time without
      observed values compares none. */
  lemma TurbineStepSums(st: TurbineState, t: U.UtcDateTime, d: TurbineInputs)
    requires TurbineStep(st, t, d).Success?
    requires st.sumPower.Keys == st.sumObsPower.Keys && t !in st.sumObsPower
    ensures var r := TurbineStep(st, t, d).value;
      r.sumPower.Keys == r.sumObsPower.Keys == st.sumObsPower.Keys + (if Compared(st, t, d).2 > 0 then {t} else {})
    ensures var r := TurbineStep(st, t, d).value;
      forall u :: u in st.sumObsPower ==> r.sumObsPower[u] == st.sumObsPower[u] && r.sumPower[u] == st.sumPower[u]
    ensures t !in d.observed ==> Compared(st, t, d).2 == 0 && TurbineStep(st, t, d).value.sumObsPower == st.sumObsPower
  {
    if t !in d.observed && !RepeatedMast(st, t, d) && t in d.power {
      var sums := TurbineSums(d.turbines, d.power[t], map[]);
      assert sums.2 == 0;
    }
  }

  /** A new success entry [0, turbine count] at 0 for `t`. */
  function AddEntry(st: TurbineState, t: U.UtcDateTime, d: TurbineInputs): (r: TurbineState)
    ensures r.success == st.success[t := RR.RestrictedRange(0, |d.turbines|, 0)]
    ensures r.sumPower == st.sumPower && r.sumObsPower == st.sumObsPower && r.timeIndex == st.timeIndex
  {
    st.(success := st.success[t := RR.RestrictedRange(0, |d.turbines|, 0)])
  }

  /** The loop stops past the tenth step while no time has an observed sum. */
  predicate TurbineStops(st: TurbineState) {
    st.timeIndex > 10 && |st.sumObsPower| == 0
  }

  /** The first loop of the turbine `Add`. Each time first gets a success
      entry (a time seen twice throws); a stopping step keeps that entry at
      0 and ends the loop. */
  function WalkTurbines(st: TurbineState, times: seq<U.UtcDateTime>, d: TurbineInputs): (r: Result<TurbineState>)
    ensures r.Success? ==> st.success.Keys <= r.value.success.Keys
    decreases |times|
  {
    if |times| == 0 then Success(st)
    else if times[0] in st.success then Failure("An item with the same key has already been added")
    else if TurbineStops(st) then Success(AddEntry(st, times[0], d))
    else
      var next :- TurbineStep(st, times[0], d);
      WalkTurbines(next, times[1..], d)
  }

  /** The entries already present before the loop are kept. */
  lemma {:induction false} WalkTurbinesKeeps(st: TurbineState, times: seq<U.UtcDateTime>, d: TurbineInputs)
    requires WalkTurbines(st, times, d).Success?
    ensures var r := WalkTurbines(st, times, d).value;
      forall u :: u in st.success ==> r.success[u] == st.success[u]
    decreases |times|
  {
    if |times| > 0 && times[0] !in st.success && !TurbineStops(st) {
      WalkTurbinesKeeps(TurbineStep(st, times[0], d).value, times[1..], d);
    }
  }

  /** Every entry the loop adds is for a time of the run, spans
      [0, turbine count] and holds a count inside it: the guarded setter
      never rejects a value. */
  lemma {:induction false} WalkTurbinesEntries(st: TurbineState, times: seq<U.UtcDateTime>, d: TurbineInputs)
    requires WalkTurbines(st, times, d).Success?
    ensures var r := WalkTurbines(st, times, d).value;
      forall u :: u in r.success && u !in st.success ==>
        u in times && r.success[u].MinValue == 0 && 0 <= r.success[u].Value <= r.success[u].MaxValue == |d.turbines|
    decreases |times|
  {
    if |times| > 0 && times[0] !in st.success && !TurbineStops(st) {
      var next := TurbineStep(st, times[0], d).value;
      WalkTurbinesEntries(next, times[1..], d);
      WalkTurbinesKeeps(next, times[1..], d);
      var r := WalkTurbines(st, times, d).value;
      forall u | u in r.success && u !in st.success
        ensures u in times
      {
        if u != times[0] {
          assert u in times[1..];
        }
      }
    }
  }

  predicate NoRepeats(times: seq<U.UtcDateTime>) {
    forall i, j :: 0 <= i < j < |times| ==> times[i] != times[j]
  }

  /** The rest of a run with distinct times holds none of the first. */
  lemma RestFresh(st: TurbineState, next: TurbineState, times: seq<U.UtcDateTime>)
    requires |times| > 0 && NoRepeats(times) && forall i :: 0 <= i < |times| ==> times[i] !in st.success
    requires next.success.Keys == st.success.Keys + {times[0]}
    ensures NoRepeats(times[1..]) && forall i :: 0 <= i < |times[1..]| ==> times[1..][i] !in next.success
  {
    forall i | 0 <= i < |times[1..]|
      ensures times[1..][i] !in next.success
    {
      assert times[1..][i] == times[i + 1] != times[0];
    }
  }

  /** With distinct times, the first loop fails only for want of mast data,
      and it does fail for that when it gets to run a step. */
  lemma {:induction false} WalkTurbinesOutcome(st: TurbineState, times: seq<U.UtcDateTime>, d: TurbineInputs)
    requires NoRepeats(times) && forall i :: 0 <= i < |times| ==> times[i] !in st.success
    ensures !(d.useObserved && |d.mast| == 0) ==> WalkTurbines(st, times, d).Success?
    ensures d.useObserved && |d.mast| == 0 && |times| > 0 && !TurbineStops(st) ==> WalkTurbines(st, times, d).Failure?
    decreases |times|
  {
    if |times| > 0 && !(d.useObserved && |d.mast| == 0) && !TurbineStops(st) {
      var next := TurbineStep(st, times[0], d).value;
      RestFresh(st, next, times);
      WalkTurbinesOutcome(next, times[1..], d);
    }
  }

  function Min(a: int, b: int): int {
    if a < b then a else b
  }

  /** One step without observed values: it succeeds, adds the time's entry
      and sums nothing. */
  lemma StepWithoutObservations(st: TurbineState, t: U.UtcDateTime, d: TurbineInputs)
    requires d.observed == map[] && !(d.useObserved && |d.mast| == 0)
    requires st.sumObsPower == map[] && st.sumPower == map[] && t !in st.success
    ensures TurbineStep(st, t, d).Success?
    ensures var next := TurbineStep(st, t, d).value;
      next.sumObsPower == map[] && next.sumPower == map[] && next.timeIndex == st.timeIndex + 1
    ensures var next := TurbineStep(st, t, d).value;
      next.success.Keys == st.success.Keys + {t} && |next.success| == |st.success| + 1
  {
    TurbineStepSums(st, t, d);
  }

  /** A run without any observed turbine value gives up after its twelfth
      time: it records a success entry for each of the first twelve times
      (all of them when there are fewer) and sums nothing. */
  lemma {:induction false} WalkTurbinesWithoutObservations(st: TurbineState, times: seq<U.UtcDateTime>, d: TurbineInputs)
    requires d.observed == map[] && !(d.useObserved && |d.mast| == 0)
    requires st.sumObsPower == map[] && st.sumPower == map[] && 0 <= st.timeIndex <= 11
    requires NoRepeats(times) && forall i :: 0 <= i < |times| ==> times[i] !in st.success
    ensures WalkTurbines(st, times, d).Success?
    ensures WalkTurbines(st, times, d).value.sumObsPower == map[]
    ensures |WalkTurbines(st, times, d).value.success| == |st.success| + Min(|times|, 12 - st.timeIndex)
    decreases |times|
  {
    if |times| > 0 && !TurbineStops(st) {
      StepWithoutObservations(st, times[0], d);
      var next := TurbineStep(st, times[0], d).value;
      RestFresh(st, next, times);
      WalkTurbinesWithoutObservations(next, times[1..], d);
    }
  }

  /** The entries recorded without observed values are those of the first
      twelve times. */
  lemma {:induction false} WalkTurbinesWithoutObservationsKeys(st: TurbineState, times: seq<U.UtcDateTime>, d: TurbineInputs)
    requires d.observed == map[] && !(d.useObserved && |d.mast| == 0)
    requires st.sumObsPower == map[] && st.sumPower == map[] && 0 <= st.timeIndex <= 11
    requires WalkTurbines(st, times, d).Success?
    ensures var r := WalkTurbines(st, times, d).value;
      forall i :: 0 <= i < Min(|times|, 12 - st.timeIndex) ==> times[i] in r.success
    decreases |times|
  {
    if |times| > 0 && times[0] !in st.success && !TurbineStops(st) {
      StepWithoutObservations(st, times[0], d);
      var next := TurbineStep(st, times[0], d).value;
      WalkTurbinesWithoutObservationsKeys(next, times[1..], d);
      forall i | 1 <= i < Min(|times|, 12 - st.timeIndex)
        ensures times[i] in WalkTurbines(st, times, d).value.success
      {
        assert times[i] == times[1..][i - 1];
      }
    }
  }

  /** Without observed values no turbine is ever compared: every entry the
      first loop adds stays at 0. */
  lemma {:induction false} WalkTurbinesZero(st: TurbineState, times: seq<U.UtcDateTime>, d: TurbineInputs)
    requires d.observed == map[] && WalkTurbines(st, times, d).Success?
    ensures var r := WalkTurbines(st, times, d).value;
      forall u :: u in r.success && u !in st.success ==> r.success[u].Value == 0
    decreases |times|
  {
    if |times| > 0 && times[0] !in st.success && !TurbineStops(st) {
      var next := TurbineStep(st, times[0], d).value;
      assert Compared(st, times[0], d).2 == 0;
      WalkTurbinesZero(next, times[1..], d);
      WalkTurbinesKeeps(next, times[1..], d);
    }
  }

  /** The state before the first step of the turbine `Add`. */
  const StartTurbines: TurbineState := TurbineState(map[], map[], map[], -1.0, 0)

  /** The inputs of a turbine run on calculator `c`. */
  function Inputs(c: Calculator, power: map<U.UtcDateTime, map<int, real>>,
                  observed: map<U.UtcDateTime, map<int, real>>, mast: map<U.UtcDateTime, Option<real>>): TurbineInputs {
    TurbineInputs(c.Turbines, power, observed, mast, c.UseObservedWeatherData)
  }

  /** The first loop of the turbine `Add` from its start. */
  function TurbineRun(c: Calculator, times: seq<U.UtcDateTime>, power: map<U.UtcDateTime, map<int, real>>,
                      observed: map<U.UtcDateTime, map<int, real>>, mast: map<U.UtcDateTime, Option<real>>): Result<TurbineState> {
    WalkTurbines(StartTurbines, times, Inputs(c, power, observed, mast))
  }

  /** The turbine `Add`: fails where the code throws (an empty run, a time
      seen twice, mast data requested but none given); otherwise it counts
      the run, records the per-time success entries under the run's first
      time unless that time already has some, and registers the summed
      pairs with lead times counted from 0. */
  function AddTurbines(c: Calculator, times: seq<U.UtcDateTime>, power: map<U.UtcDateTime, map<int, real>>,
                       observed: map<U.UtcDateTime, map<int, real>>, mast: map<U.UtcDateTime, Option<real>>): (r: Result<Calculator>)
    ensures r.Success? ==> |times| > 0 && TurbineRun(c, times, power, observed, mast).Success?
    ensures r.Success? ==> r.value.Registered == c.Registered + 1
    ensures r.Success? ==> r.value.Bins.Keys == c.Bins.Keys
    ensures r.Success? ==> r.value.Success.Keys == c.Success.Keys + {times[0]}
    ensures r.Success? && times[0] in c.Success ==> r.value.Success == c.Success
    ensures r.Success? && times[0] !in c.Success ==>
      r.value.Success == c.Success[times[0] := TurbineRun(c, times, power, observed, mast).value.success]
  {
    if |times| == 0 then Failure("Sequence contains no elements")
    else
      var run :- TurbineRun(c, times, power, observed, mast);
      var start := times[0];
      Success(c.(Registered := c.Registered + 1,
                 Bins := WalkDiscrete(c.Bins, times, run.sumPower, run.sumObsPower, 0),
                 Success := if start in c.Success then c.Success else c.Success[start := run.success]))
  }

  /** The entries the turbine `Add` records are for times of the run and
      hold a turbine count within [0, number of turbines]. */
  lemma AddTurbinesSuccess(c: Calculator, times: seq<U.UtcDateTime>, power: map<U.UtcDateTime, map<int, real>>,
                           observed: map<U.UtcDateTime, map<int, real>>, mast: map<U.UtcDateTime, Option<real>>)
    requires AddTurbines(c, times, power, observed, mast).Success? && times[0] !in c.Success
    ensures var e := AddTurbines(c, times, power, observed, mast).value.Success[times[0]];
      forall u :: u in e ==> u in times && e[u].MinValue == 0 && 0 <= e[u].Value <= e[u].MaxValue == |c.Turbines|
  {
    WalkTurbinesEntries(StartTurbines, times, Inputs(c, power, observed, mast));
  }

  /** For a run with distinct times, the turbine `Add` fails exactly when the
      run is empty or mast data is requested but none given. */
  lemma AddTurbinesOutcome(c: Calculator, times: seq<U.UtcDateTime>, power: map<U.UtcDateTime, map<int, real>>,
                           observed: map<U.UtcDateTime, map<int, real>>, mast: map<U.UtcDateTime, Option<real>>)
    requires NoRepeats(times)
    ensures AddTurbines(c, times, power, observed, mast).Success?
      <==> |times| > 0 && !(c.UseObservedWeatherData && |mast| == 0)
  {
    WalkTurbinesOutcome(StartTurbines, times, Inputs(c, power, observed, mast));
  }

  /** The bins after the turbine `Add` are those of a discrete run over the
      summed pairs whose lead times start at 0. */
  lemma AddTurbinesDiscrete(c: Calculator, times: seq<U.UtcDateTime>, power: map<U.UtcDateTime, map<int, real>>,
                            observed: map<U.UtcDateTime, map<int, real>>, mast: map<U.UtcDateTime, Option<real>>)
    requires AddTurbines(c, times, power, observed, mast).Success?
    ensures var run := TurbineRun(c, times, power, observed, mast).value;
      AddTurbines(c, times, power, observed, mast).value.Bins
        == AddDiscrete(c, times, run.sumPower, run.sumObsPower, 0).Bins
  {
  }

  /** The turbine `Add` on the catch-all bin: it takes every time of the
      run with both sums. */
  lemma AddTurbinesAnyBin(c: Calculator, times: seq<U.UtcDateTime>, power: map<U.UtcDateTime, map<int, real>>,
                          observed: map<U.UtcDateTime, map<int, real>>, mast: map<U.UtcDateTime, Option<real>>)
    requires AddTurbines(c, times, power, observed, mast).Success? && Any in c.Bins
    ensures var run := TurbineRun(c, times, power, observed, mast).value;
      AddTurbines(c, times, power, observed, mast).value.Bins[Any]
        == RegisterAll(c.Bins[Any], AllPairs(times, run.sumPower, run.sumObsPower))
  {
    var run := TurbineRun(c, times, power, observed, mast).value;
    AddTurbinesDiscrete(c, times, power, observed, mast);
    AddDiscreteMeaning(c, times, run.sumPower, run.sumObsPower, 0, Any);
  }

  /** The turbine `Add` on any other bin: the bin of lead time `k` takes
      the time at position `k` (lead times start at 0) when it has both
      sums, and is otherwise unchanged. */
  lemma AddTurbinesBins(c: Calculator, times: seq<U.UtcDateTime>, power: map<U.UtcDateTime, map<int, real>>,
                        observed: map<U.UtcDateTime, map<int, real>>, mast: map<U.UtcDateTime, Option<real>>, k: int)
    requires AddTurbines(c, times, power, observed, mast).Success? && k in c.Bins && k != Any
    ensures var run := TurbineRun(c, times, power, observed, mast).value;
      AddTurbines(c, times, power, observed, mast).value.Bins[k]
        == if 0 <= k < |times| && Paired(times[k], run.sumPower, run.sumObsPower)
           then Register(c.Bins[k], run.sumObsPower[times[k]], run.sumPower[times[k]])
           else c.Bins[k]
  {
    var run := TurbineRun(c, times, power, observed, mast).value;
    AddTurbinesDiscrete(c, times, power, observed, mast);
    AddDiscreteMeaning(c, times, run.sumPower, run.sumObsPower, 0, k);
    if 0 <= k < |times| {
      assert times[k - 0] == times[k];
    }
  }

  /** With no observed turbine value the turbine `Add` succeeds (given its
      mast data), leaves every bin as it was, and records entries for the
      first twelve times of the run. */
  lemma AddTurbinesWithoutObservations(c: Calculator, times: seq<U.UtcDateTime>,
                                       power: map<U.UtcDateTime, map<int, real>>,
                                       mast: map<U.UtcDateTime, Option<real>>)
    requires NoRepeats(times) && |times| > 0 && !(c.UseObservedWeatherData && |mast| == 0)
    ensures AddTurbines(c, times, power, map[], mast).Success?
    ensures AddTurbines(c, times, power, map[], mast).value.Bins == c.Bins
    ensures |TurbineRun(c, times, power, map[], mast).value.success| == Min(|times|, 12)
  {
    WalkTurbinesWithoutObservations(StartTurbines, times, Inputs(c, power, map[], mast));
    var run := TurbineRun(c, times, power, map[], mast).value;
    NothingPaired(c.Bins, times, run.sumPower, 0);
  }

  /** Without observed sums no time of a run is paired, so the discrete walk
      changes no bin. */
  lemma {:induction false} NothingPaired(bins: Bins, times: seq<U.UtcDateTime>, forecast: map<U.UtcDateTime, real>, lead: int)
    ensures WalkDiscrete(bins, times, forecast, map[], lead) == bins
    decreases |times|
  {
    if |times| > 0 {
      NothingPaired(bins, times[1..], forecast, lead + 1);
    }
  }
}
