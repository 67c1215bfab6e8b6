/** `Engine.ProductionDataHelper`: resampling a series of nullable values
    onto a coarser "market" resolution. The boundaries run back from the
    last instant one market step at a time; each boundary collects the
    values on the data grid of the market step ending at it and averages
    them, as observations (sum over the expected number of steps) or as
    forecasts (mean of the values present). */
module ProductionDataHelpers {
  import opened Wrappers
  import opened TimeSpans
  import Arith
  import U = UtcDateTimes
  import E = UtcDateTimeEnumerators
  import R = TimeResolutions
  import RT = TimeResolutionTypeExt
  import TimeSpanExt

  /** A series keyed by instant whose values may be null. */
  type Series = map<U.UtcDateTime, Option<real>>

  // ---------------------------------------------------------------------
  // Steps in resolution

  /** The `(int)` cast of a double: truncation toward zero. */
  function Truncate(x: real): (n: int)
    ensures 0.0 <= x ==> n as real <= x < n as real + 1.0
    ensures x < 0.0 ==> n as real - 1.0 < x <= n as real
  {
    if x >= 0.0 then x.Floor else -((-x).Floor)
  }

  /** `CalculateProductionStepsInResolution`: how many data steps make up a
      market step. A whole ratio is returned as it is, a ratio ending in a
      half gives 2, and any other ratio gives the data step in whole
      minutes. `AboutEqual` is taken as exact equality. */
  function StepsInResolution(market: TimeSpan, data: TimeSpan): int
    requires data != 0
  {
    var ratio := TotalMinutes(market) / TotalMinutes(data);
    var n := Truncate(ratio);
    var fraction := ratio - n as real;
    if fraction == 0.0 then n
    else if fraction == 0.5 then 2
    else Truncate(TotalMinutes(data))
  }

  /** The minutes cancel: the ratio is that of the two spans. */
  lemma RatioOfSpans(market: TimeSpan, data: TimeSpan)
    requires data != 0
    ensures TotalMinutes(market) / TotalMinutes(data) == market as real / data as real
  {
    var m := TicksPerMinute as real;
    assert TotalMinutes(market) == market as real / m;
    assert TotalMinutes(data) == data as real / m;
    assert (market as real / m) / (data as real / m) == market as real / data as real;
  }

  /** A remainder over its divisor is a proper fraction; it is zero or one
      half exactly when the remainder is zero or half the divisor. */
  lemma ProperFraction(rem: int, d: int)
    requires 0 <= rem < d
    ensures 0.0 <= rem as real / d as real < 1.0
    ensures rem as real / d as real == 0.0 <==> rem == 0
    ensures rem as real / d as real == 0.5 <==> 2 * rem == d
  {
    var f := rem as real / d as real;
    assert f * d as real == rem as real;
    var g := (d - rem) as real / d as real;
    assert g * d as real == (d - rem) as real;
    assert f + g == 1.0;
    assert g > 0.0;
    if f == 0.5 {
      assert rem as real == 0.5 * d as real;
    }
  }

  /** For spans that are not negative the step count is decided by integer
      division: the quotient when the market step is a whole number of data
      steps, 2 when half a data step is left over, and otherwise the data
      step in whole minutes. */
  lemma StepsInResolutionCases(market: TimeSpan, data: TimeSpan)
    requires market >= 0 && data > 0
    ensures StepsInResolution(market, data) ==
      if market % data == 0 then market / data
      else if 2 * (market % data) == data then 2
      else data / TicksPerMinute
  {
    RatioOfSpans(market, data);
    var q := market / data;
    var rem := market % data;
    var d := data as real;
    var ratio := market as real / d;
    assert market as real == q as real * d + rem as real;
    assert ratio == q as real + rem as real / d;
    ProperFraction(rem, data);
    assert Truncate(ratio) == q;
    var fraction := ratio - q as real;
    assert fraction == rem as real / d;
    var minutes := TotalMinutes(data);
    var w := data / TicksPerMinute;
    assert data == w * TicksPerMinute + data % TicksPerMinute;
    assert minutes == w as real + (data % TicksPerMinute) as real / TicksPerMinute as real;
    ProperFraction(data % TicksPerMinute, TicksPerMinute);
    assert Truncate(minutes) == w;
  }

  /** Hourly market steps over ten-minute data take six steps; forty-minute
      data leaves half a step over and takes 2; twenty-five-minute data
      takes 25. */
  lemma StepsInResolutionExamples()
    ensures StepsInResolution(FromHours(1), FromMinutes(10)) == 6
    ensures StepsInResolution(FromHours(1), FromMinutes(40)) == 2
    ensures StepsInResolution(FromHours(1), FromMinutes(25)) == 25
    ensures StepsInResolution(FromHours(1), FromHours(1)) == 1
  {
    StepsInResolutionCases(FromHours(1), FromMinutes(10));
    StepsInResolutionCases(FromHours(1), FromMinutes(40));
    StepsInResolutionCases(FromHours(1), FromMinutes(25));
    StepsInResolutionCases(FromHours(1), FromHours(1));
  }

  // ---------------------------------------------------------------------
  // Boundaries

  /** What the do-while loop appends after `time`: one market step earlier
      each round, as long as that is not before `first`. */
  function Below(time: U.UtcDateTime, first: U.UtcDateTime, market: TimeSpan): seq<U.UtcDateTime>
    requires market > 0
    decreases time.Ticks - first.Ticks
  {
    var next := U.Subtract(time, market);
    if U.GreaterEq(next, first) then [next] + Below(next, first, market) else []
  }

  /** The appended instants are `time` minus one, two, ... market steps,
      all of them at or after `first`, and the next one would be before it. */
  lemma {:induction false} BelowShape(time: U.UtcDateTime, first: U.UtcDateTime, market: TimeSpan)
    requires market > 0
    ensures forall i :: 0 <= i < |Below(time, first, market)| ==>
      Below(time, first, market)[i].Ticks == time.Ticks - (i + 1) * market
    ensures forall i :: 0 <= i < |Below(time, first, market)| ==> first.Ticks <= Below(time, first, market)[i].Ticks
    ensures time.Ticks - (|Below(time, first, market)| + 1) * market < first.Ticks
    decreases time.Ticks - first.Ticks
  {
    var next := U.Subtract(time, market);
    if U.GreaterEq(next, first) {
      var rest := Below(next, first, market);
      BelowShape(next, first, market);
      var b := Below(time, first, market);
      assert b == [next] + rest;
      forall i | 0 <= i < |b|
        ensures b[i].Ticks == time.Ticks - (i + 1) * market
      {
        if i > 0 {
          assert b[i] == rest[i - 1];
          assert rest[i - 1].Ticks == next.Ticks - i * market;
        }
      }
      assert time.Ticks - (|b| + 1) * market == next.Ticks - (|rest| + 1) * market;
    }
  }

  /** The boundary list: `last`, then the loop's instants. A market step
      that is not positive never moves the loop past `first` once it has
      started there: the source then loops until it runs out of memory or
      leaves the `DateTime` range, reported here as a failure. */
  function TimePoints(first: U.UtcDateTime, last: U.UtcDateTime, market: TimeSpan): (r: Result<seq<U.UtcDateTime>>)
    ensures r.Success? <==> market > 0 || last.Ticks - market < first.Ticks
    ensures r.Success? ==> |r.value| >= 1 && r.value[0] == last
  {
    if market > 0 then Success([last] + Below(last, first, market))
    else if last.Ticks - market >= first.Ticks then Failure("the boundary loop never ends")
    else Success([last])
  }

  /** The boundaries start at `last` and step back by exactly the market
      step; all but `last` itself lie at or after `first`, and one more
      step would pass it. */
  lemma TimePointsShape(first: U.UtcDateTime, last: U.UtcDateTime, market: TimeSpan)
    requires market > 0
    ensures var b := TimePoints(first, last, market).value;
      forall i :: 0 <= i < |b| ==> b[i].Ticks == last.Ticks - i * market
    ensures var b := TimePoints(first, last, market).value;
      forall i :: 1 <= i < |b| ==> first.Ticks <= b[i].Ticks
    ensures var b := TimePoints(first, last, market).value;
      last.Ticks - |b| * market < first.Ticks
  {
    var below := Below(last, first, market);
    BelowShape(last, first, market);
    var b := [last] + below;
    forall i | 1 <= i < |b|
      ensures b[i].Ticks == last.Ticks - i * market && first.Ticks <= b[i].Ticks
    {
      assert b[i] == below[i - 1];
    }
  }

  /** The boundaries are strictly descending: later ones lie at least one
      market step before earlier ones. */
  lemma TimePointsDescending(first: U.UtcDateTime, last: U.UtcDateTime, market: TimeSpan, i: int, j: int)
    requires market > 0
    requires 0 <= i < j < |TimePoints(first, last, market).value|
    ensures TimePoints(first, last, market).value[j].Ticks <= TimePoints(first, last, market).value[i].Ticks - market
  {
    TimePointsShape(first, last, market);
    assert j * market - i * market == (j - i) * market;
    Arith.MulAtLeast(market, j - i);
  }

  // ---------------------------------------------------------------------
  // Windows

  /** The resolution the data step is classified as; windows are
      enumerated in its steps. */
  function DataResolution(data: TimeSpan): (res: R.TimeResolution)
    requires data >= TicksPerMillisecond
    ensures RT.Known(res.Type)
  {
    var c := TimeSpanExt.ToTimeResolution(data).value;
    R.GetResolution(c.0, c.1)
  }

  /** The enumeration step in ticks. It can differ from the data step, as
      the classification keeps only one component of the span: ninety
      minutes enumerate hourly, and whole seconds give a step of 0. */
  function GridStep(data: TimeSpan): int
    requires data >= TicksPerMillisecond
  {
    E.Step(DataResolution(data)).value * TicksPerMillisecond
  }

  /** The first instant of the window that ends at `p`. */
  function WindowStart(p: U.UtcDateTime, market: TimeSpan, data: TimeSpan): int {
    p.Ticks - market + data
  }

  /** The instants boundary `p` enumerates: from one market step before it,
      plus one data step, up to `p` itself. */
  function Window(p: U.UtcDateTime, market: TimeSpan, data: TimeSpan): Result<seq<U.UtcDateTime>>
    requires data >= TicksPerMillisecond
  {
    E.Elements(E.New(U.Add(U.Subtract(p, market), data), p, DataResolution(data), E.LtEq).value)
  }

  /** An instant is on the grid of boundary `p` when it lies in its window
      on a whole number of enumeration steps from the window's start. */
  predicate OnGrid(t: U.UtcDateTime, p: U.UtcDateTime, market: TimeSpan, data: TimeSpan)
    requires data >= TicksPerMillisecond && GridStep(data) > 0
  {
    WindowStart(p, market, data) <= t.Ticks <= p.Ticks && (t.Ticks - WindowStart(p, market, data)) % GridStep(data) == 0
  }

  /** With a positive enumeration step the window is enumerated, and it
      holds exactly the instants on the boundary's grid. */
  lemma WindowGrid(p: U.UtcDateTime, market: TimeSpan, data: TimeSpan, t: U.UtcDateTime)
    requires data >= TicksPerMillisecond && GridStep(data) > 0
    ensures Window(p, market, data).Success?
    ensures t in Window(p, market, data).value <==> OnGrid(t, p, market, data)
  {
    E.ElementsOnGrid(E.New(U.Add(U.Subtract(p, market), data), p, DataResolution(data), E.LtEq).value, t);
  }

  /** Ten-minute data enumerate in ten-minute steps. */
  lemma TenMinuteGrid()
    ensures GridStep(FromMinutes(10)) == FromMinutes(10)
  {
    TimeSpanExt.TenMinutesIsMinuteTen();
  }

  /** The windows of two different boundaries share no instant, so no value
      is counted twice. */
  lemma WindowsDisjoint(first: U.UtcDateTime, last: U.UtcDateTime, market: TimeSpan, data: TimeSpan,
                        i: int, j: int, t: U.UtcDateTime)
    requires market > 0 && data >= TicksPerMillisecond && GridStep(data) > 0
    requires 0 <= i < j < |TimePoints(first, last, market).value|
    ensures !(OnGrid(t, TimePoints(first, last, market).value[i], market, data)
              && OnGrid(t, TimePoints(first, last, market).value[j], market, data))
  {
    TimePointsDescending(first, last, market, i, j);
  }

  /** The values `prod` holds at the instants of `window`, in order, nulls
      included. */
  function Present(window: seq<U.UtcDateTime>, prod: Series): (r: seq<Option<real>>)
    ensures |r| <= |window|
  {
    if |window| == 0 then []
    else (if window[0] in prod then [prod[window[0]]] else []) + Present(window[1..], prod)
  }

  /** A window collects something exactly when one of its instants is a key
      of `prod`, whether its value is null or not. */
  lemma {:induction false} PresentNonEmpty(window: seq<U.UtcDateTime>, prod: Series)
    ensures |Present(window, prod)| > 0 <==> exists t :: t in window && t in prod
    decreases |window|
  {
    if |window| > 0 {
      PresentNonEmpty(window[1..], prod);
      if exists t :: t in window && t in prod {
        var t :| t in window && t in prod;
        if t != window[0] {
          assert t in window[1..];
        }
      }
    }
  }

  /** The first loop: boundary `points[0]` collects its window, whose start
      is one data step after the next boundary, or for the earliest
      boundary one market step before it plus one data step. A boundary
      whose window holds no key of `prod` gets no entry. */
  function Gather(points: seq<U.UtcDateTime>, market: TimeSpan, data: TimeSpan, prod: Series)
    : (r: Result<map<U.UtcDateTime, seq<Option<real>>>>)
    requires data >= TicksPerMillisecond
    decreases |points|
  {
    if |points| == 0 then Success(map[])
    else
      var point := points[0];
      var start := if |points| > 1 then U.Add(points[1], data) else U.Add(U.Subtract(point, market), data);
      var window :- E.Elements(E.New(start, point, DataResolution(data), E.LtEq).value);
      var rest :- Gather(points[1..], market, data, prod);
      var samples := Present(window, prod);
      Success(if |samples| > 0 then rest[point := samples] else rest)
  }

  /** Boundaries one market step apart. */
  predicate Spaced(points: seq<U.UtcDateTime>, market: TimeSpan) {
    forall i :: 0 <= i < |points| - 1 ==> points[i + 1].Ticks == points[i].Ticks - market
  }

  predicate Distinct(points: seq<U.UtcDateTime>) {
    forall i, j :: 0 <= i < j < |points| ==> points[i] != points[j]
  }

  /** Over distinct boundaries one market step apart, every boundary's
      window is the one ending at it, and boundary `p` gets an entry exactly
      when its window holds a key of `prod`; the entry is what the window
      collects. */
  lemma {:induction false} GatherWindows(points: seq<U.UtcDateTime>, market: TimeSpan, data: TimeSpan,
                                         prod: Series, p: U.UtcDateTime)
    requires data >= TicksPerMillisecond && GridStep(data) > 0
    requires Spaced(points, market) && Distinct(points)
    ensures Gather(points, market, data, prod).Success?
    ensures p in Gather(points, market, data, prod).value <==>
      p in points && |Present(Window(p, market, data).value, prod)| > 0
    ensures p in Gather(points, market, data, prod).value ==>
      Gather(points, market, data, prod).value[p] == Present(Window(p, market, data).value, prod)
    decreases |points|
  {
    if |points| > 0 {
      var point := points[0];
      assert |points| > 1 ==> U.Add(points[1], data) == U.Add(U.Subtract(point, market), data);
      WindowGrid(point, market, data, point);
      assert Spaced(points[1..], market) && Distinct(points[1..]);
      GatherWindows(points[1..], market, data, prod, p);
      assert p in points <==> p == point || p in points[1..];
    }
  }

  /** The boundary list has no repeats. */
  lemma TimePointsDistinct(first: U.UtcDateTime, last: U.UtcDateTime, market: TimeSpan)
    requires market > 0
    ensures Spaced(TimePoints(first, last, market).value, market)
    ensures Distinct(TimePoints(first, last, market).value)
  {
    var points := TimePoints(first, last, market).value;
    TimePointsShape(first, last, market);
    forall i, j | 0 <= i < j < |points|
      ensures points[i] != points[j]
    {
      TimePointsDescending(first, last, market, i, j);
    }
  }

  // ---------------------------------------------------------------------
  // Averages

  function SumPresent(xs: seq<Option<real>>): real {
    if |xs| == 0 then 0.0 else (if xs[0].Some? then xs[0].value else 0.0) + SumPresent(xs[1..])
  }

  function CountPresent(xs: seq<Option<real>>): (n: nat)
    ensures n <= |xs|
  {
    if |xs| == 0 then 0 else (if xs[0].Some? then 1 else 0) + CountPresent(xs[1..])
  }

  /** Nothing present sums to 0. */
  lemma {:induction false} NothingPresent(xs: seq<Option<real>>)
    requires CountPresent(xs) == 0
    ensures SumPresent(xs) == 0.0
    decreases |xs|
  {
    if |xs| > 0 {
      NothingPresent(xs[1..]);
    }
  }

  /** The average of one boundary. Observations: the values present summed
      and divided by the expected number of steps, so missing values count
      as 0 and an all-null window gives 0. Forecasts: the mean of the values
      present, and null when there are none. */
  function Average(xs: seq<Option<real>>, steps: int, isForecast: bool): (r: Option<real>)
    requires isForecast || steps != 0
    ensures !isForecast ==> r.Some? && r.value * steps as real == SumPresent(xs)
    ensures isForecast ==> (r.None? <==> CountPresent(xs) == 0)
    ensures isForecast && r.Some? ==> r.value * CountPresent(xs) as real == SumPresent(xs)
  {
    if !isForecast then Some(SumPresent(xs) / steps as real)
    else if CountPresent(xs) > 0 then Some(SumPresent(xs) / CountPresent(xs) as real)
    else None
  }

  /** An observation window holding only nulls averages to 0, not null. */
  lemma ObservedNullsGiveZero(xs: seq<Option<real>>, steps: int)
    requires steps != 0 && CountPresent(xs) == 0
    ensures Average(xs, steps, false) == Some(0.0)
  {
    NothingPresent(xs);
  }

  /** When a window holds as many values as the expected number of steps,
      both modes give the same mean. */
  lemma ModesAgree(xs: seq<Option<real>>, steps: int)
    requires steps > 0 && CountPresent(xs) == steps
    ensures Average(xs, steps, false) == Average(xs, steps, true)
  {
  }

  /** The second loop. Dividing by a zero step count gives an infinity or
      NaN in the source, which `real` cannot hold: reported as a failure. */
  function Averages(samples: map<U.UtcDateTime, seq<Option<real>>>, steps: int, isForecast: bool): (r: Result<Series>)
    ensures r.Success? <==> isForecast || steps != 0 || |samples| == 0
    ensures r.Success? ==> r.value.Keys == samples.Keys
    ensures r.Success? && (isForecast || steps != 0) ==>
      forall p :: p in samples ==> r.value[p] == Average(samples[p], steps, isForecast)
  {
    if !isForecast && steps == 0 && |samples| > 0 then Failure("average over zero steps")
    else if !isForecast && steps == 0 then Success(map[])
    else Success(map p | p in samples :: Average(samples[p], steps, isForecast))
  }

  // ---------------------------------------------------------------------
  // The whole

  /** `CalculateMarketResolutionAverage(firstTimePoint, first, last, market,
      data, prod, isForecast)`. `firstTimePoint` is never read and is left
      out. It fails where the source throws (a data step under a
      millisecond) or never finishes (see `TimePoints`, `Window`). */
  function CalculateMarketResolutionAverage(first: U.UtcDateTime, last: U.UtcDateTime, market: TimeSpan,
                                            data: TimeSpan, prod: Series, isForecast: bool): (r: Result<Series>)
    ensures data < TicksPerMillisecond ==> r.Failure?
    ensures r.Success? ==> TimePoints(first, last, market).Success?
    ensures r.Success? ==> forall p :: p in r.value ==> p in TimePoints(first, last, market).value
  {
    var c :- TimeSpanExt.ToTimeResolution(data);
    var points :- TimePoints(first, last, market);
    var samples :- Gather(points, market, data, prod);
    GatherKeys(points, market, data, prod);
    Averages(samples, StepsInResolution(market, data), isForecast)
  }

  /** Every entry gathered belongs to a boundary. */
  lemma {:induction false} GatherKeys(points: seq<U.UtcDateTime>, market: TimeSpan, data: TimeSpan, prod: Series)
    requires data >= TicksPerMillisecond
    ensures Gather(points, market, data, prod).Success? ==>
      forall p :: p in Gather(points, market, data, prod).value ==> p in points
    decreases |points|
  {
    if |points| > 0 {
      GatherKeys(points[1..], market, data, prod);
    }
  }

  /** The resampler in full, for a positive market step and an enumeration
      step that moves: it succeeds (observations need a non-zero step
      count), a boundary gets an entry exactly when some key of `prod` is on
      its grid, null-valued keys included, and the entry is the average of
      what its window collects. */
  lemma MarketAverageMeaning(first: U.UtcDateTime, last: U.UtcDateTime, market: TimeSpan, data: TimeSpan,
                             prod: Series, isForecast: bool, p: U.UtcDateTime)
    requires market > 0 && data >= TicksPerMillisecond && GridStep(data) > 0
    requires isForecast || StepsInResolution(market, data) != 0
    ensures CalculateMarketResolutionAverage(first, last, market, data, prod, isForecast).Success?
    ensures p in CalculateMarketResolutionAverage(first, last, market, data, prod, isForecast).value <==>
      p in TimePoints(first, last, market).value && exists t :: t in prod && OnGrid(t, p, market, data)
    ensures p in CalculateMarketResolutionAverage(first, last, market, data, prod, isForecast).value ==>
      CalculateMarketResolutionAverage(first, last, market, data, prod, isForecast).value[p]
        == Average(Present(Window(p, market, data).value, prod), StepsInResolution(market, data), isForecast)
  {
    var points := TimePoints(first, last, market).value;
    TimePointsDistinct(first, last, market);
    GatherWindows(points, market, data, prod, p);
    var window := Window(p, market, data).value;
    PresentNonEmpty(window, prod);
    if exists t :: t in prod && OnGrid(t, p, market, data) {
      var t :| t in prod && OnGrid(t, p, market, data);
      WindowGrid(p, market, data, t);
    }
    if exists t :: t in window && t in prod {
      var t :| t in window && t in prod;
      WindowGrid(p, market, data, t);
    }
  }
}
