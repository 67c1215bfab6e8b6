/** The `ProductionDataHelper` kept next to the engine: an older resampler
    the engine uses to turn ten-minute data into hourly averages. It differs
    from the one in `ProductionDataHelpers` in three ways: its values are
    never null, the boundary one market step before `last` is always
    listed (even before `first`), and the earliest boundary only closes the
    window of the one after it and never gets an entry of its own. */
module LegacyProductionDataHelpers {
  import opened Wrappers
  import opened TimeSpans
  import Arith
  import U = UtcDateTimes
  import E = UtcDateTimeEnumerators
  import TimeSpanExt
  import R = TimeResolutions
  import RT = TimeResolutionTypeExt
  import P = ProductionDataHelpers

  /** A series of plain values. */
  type Values = map<U.UtcDateTime, real>

  /** The same series with every value present, for the shared helpers. */
  function Lift(prod: Values): (r: P.Series)
    ensures r.Keys == prod.Keys
    ensures forall t :: t in r ==> r[t] == Some(prod[t])
  {
    map t | t in prod :: Some(prod[t])
  }

  // ---------------------------------------------------------------------
  // Boundaries

  /** `last`, one market step before it, and then what the do-while loop
      adds. A market step that is not positive makes the loop run forever
      once its first candidate is at or after `first`, reported here as a
      failure. */
  function TimePoints(first: U.UtcDateTime, last: U.UtcDateTime, market: TimeSpan): (r: Result<seq<U.UtcDateTime>>)
    ensures r.Success? <==> market > 0 || last.Ticks - 2 * market < first.Ticks
    ensures r.Success? ==> |r.value| >= 2 && r.value[0] == last && r.value[1] == U.Subtract(last, market)
  {
    var second := U.Subtract(last, market);
    if market > 0 then Success([last, second] + P.Below(second, first, market))
    else if last.Ticks - 2 * market >= first.Ticks then Failure("the boundary loop never ends")
    else Success([last, second])
  }

  /** The boundaries step back from `last` by exactly the market step; from
      the third on they lie at or after `first`, and one more step would
      pass it. */
  lemma TimePointsShape(first: U.UtcDateTime, last: U.UtcDateTime, market: TimeSpan)
    requires market > 0
    ensures var b := TimePoints(first, last, market).value;
      forall i :: 0 <= i < |b| ==> b[i].Ticks == last.Ticks - i * market
    ensures var b := TimePoints(first, last, market).value;
      forall i :: 2 <= i < |b| ==> first.Ticks <= b[i].Ticks
    ensures var b := TimePoints(first, last, market).value;
      last.Ticks - |b| * market < first.Ticks || |b| == 2
  {
    var second := U.Subtract(last, market);
    var below := P.Below(second, first, market);
    P.BelowShape(second, first, market);
    var b := [last, second] + below;
    forall i | 2 <= i < |b|
      ensures b[i].Ticks == last.Ticks - i * market && first.Ticks <= b[i].Ticks
    {
      assert b[i] == below[i - 2];
    }
  }

  /** The boundaries are one market step apart. */
  lemma TimePointsSpaced(first: U.UtcDateTime, last: U.UtcDateTime, market: TimeSpan)
    requires market > 0
    ensures P.Spaced(TimePoints(first, last, market).value, market)
  {
    var b := TimePoints(first, last, market).value;
    TimePointsShape(first, last, market);
    forall i | 0 <= i < |b| - 1
      ensures b[i + 1].Ticks == b[i].Ticks - market
    {
      assert b[i + 1].Ticks == last.Ticks - (i + 1) * market;
    }
  }

  /** No boundary is listed twice. */
  lemma TimePointsDistinct(first: U.UtcDateTime, last: U.UtcDateTime, market: TimeSpan)
    requires market > 0
    ensures P.Distinct(TimePoints(first, last, market).value)
  {
    var b := TimePoints(first, last, market).value;
    TimePointsShape(first, last, market);
    forall i, j | 0 <= i < j < |b|
      ensures b[i] != b[j]
    {
      assert b[i].Ticks == last.Ticks - i * market;
      assert b[j].Ticks == last.Ticks - j * market;
      assert j * market - i * market == (j - i) * market;
      Arith.MulAtLeast(market, j - i);
    }
  }

  /** When `last` is at least one market step after `first`, the list is
      the newer resampler's; otherwise it is the newer one's plus the
      instant one market step before `last`. */
  lemma TimePointsAgainstNewer(first: U.UtcDateTime, last: U.UtcDateTime, market: TimeSpan)
    requires market > 0
    ensures last.Ticks - market >= first.Ticks ==>
      TimePoints(first, last, market) == P.TimePoints(first, last, market)
    ensures last.Ticks - market < first.Ticks ==>
      TimePoints(first, last, market).value == P.TimePoints(first, last, market).value + [U.Subtract(last, market)]
  {
    var second := U.Subtract(last, market);
    if last.Ticks - market < first.Ticks {
      assert P.Below(second, first, market) == [];
    } else {
      var below := P.Below(second, first, market);
      assert P.Below(last, first, market) == [second] + below;
      assert [last, second] + below == [last] + ([second] + below);
    }
  }

  // ---------------------------------------------------------------------
  // Windows

  /** The first loop: each boundary but the earliest collects the values
      of `prod` met when enumerating from one data step after the next
      boundary up to itself, in the resolution `c` the data step is
      classified as; a boundary whose enumeration meets no key of `prod`
      gets no entry. */
  function Gather(points: seq<U.UtcDateTime>, data: TimeSpan, c: (RT.TimeResolutionType, int), prod: P.Series)
    : (r: Result<map<U.UtcDateTime, seq<Option<real>>>>)
    decreases |points|
  {
    if |points| < 2 then Success(map[])
    else
      var point := points[0];
      var e :- E.NewWithType(U.Add(points[1], data), point, c.0, c.1, E.LtEq);
      var window :- E.Elements(e);
      var rest :- Gather(points[1..], data, c, prod);
      var samples := P.Present(window, prod);
      Success(if |samples| > 0 then rest[point := samples] else rest)
  }

  /** Over boundaries one market step apart, pairing each boundary with the
      next one collects the same windows as the newer resampler does over
      all boundaries but the earliest. */
  lemma {:induction false} GatherAgainstNewer(points: seq<U.UtcDateTime>, market: TimeSpan, data: TimeSpan,
                                              prod: P.Series)
    requires |points| >= 1 && P.Spaced(points, market)
    requires data >= TicksPerMillisecond
    ensures Gather(points, data, TimeSpanExt.ToTimeResolution(data).value, prod)
         == P.Gather(points[..|points| - 1], market, data, prod)
    decreases |points|
  {
    if |points| >= 2 {
      var q := points[..|points| - 1];
      assert P.Spaced(points[1..], market);
      GatherAgainstNewer(points[1..], market, data, prod);
      assert points[1..][..|points| - 2] == q[1..];
      GatherStepAgrees(points, market, data, prod);
    }
  }

  /** When the two loops agree after the first boundary, they agree from
      it. */
  lemma GatherStepAgrees(points: seq<U.UtcDateTime>, market: TimeSpan, data: TimeSpan, prod: P.Series)
    requires |points| >= 2 && P.Spaced(points, market)
    requires data >= TicksPerMillisecond
    requires Gather(points[1..], data, TimeSpanExt.ToTimeResolution(data).value, prod)
          == P.Gather(points[..|points| - 1][1..], market, data, prod)
    ensures Gather(points, data, TimeSpanExt.ToTimeResolution(data).value, prod)
         == P.Gather(points[..|points| - 1], market, data, prod)
  {
    LegacyWindow(points, market, data);
  }

  /** The window the older loop opens after a boundary is the one the newer
      loop opens for the same boundary. */
  lemma LegacyWindow(points: seq<U.UtcDateTime>, market: TimeSpan, data: TimeSpan)
    requires |points| >= 2 && P.Spaced(points, market)
    requires data >= TicksPerMillisecond
    ensures var c := TimeSpanExt.ToTimeResolution(data).value;
      var q := points[..|points| - 1];
      var start := if |q| > 1 then U.Add(q[1], data) else U.Add(U.Subtract(q[0], market), data);
      q[0] == points[0] &&
      E.NewWithType(U.Add(points[1], data), points[0], c.0, c.1, E.LtEq) == E.New(start, q[0], P.DataResolution(data), E.LtEq)
  {
    var q := points[..|points| - 1];
    assert q[0] == points[0];
    if |q| > 1 {
      assert q[1] == points[1];
    } else {
      assert points[1].Ticks == points[0].Ticks - market;
    }
  }

  // ---------------------------------------------------------------------
  // The whole

  /** `CalculateMarketResolutionAverage(first, last, market, data, prod)`:
      each entry is the sum of the values met in its window over the number
      of data steps per market step. It fails where the source throws (a
      data step under a millisecond) or never finishes (see `TimePoints`).
      Dividing by a zero step count gives an infinity in the source, which
      `real` cannot hold: reported as a failure. */
  function CalculateMarketResolutionAverage(first: U.UtcDateTime, last: U.UtcDateTime, market: TimeSpan,
                                            data: TimeSpan, prod: Values): (r: Result<Values>)
    ensures data < TicksPerMillisecond ==> r.Failure?
    ensures r.Success? ==> TimePoints(first, last, market).Success?
  {
    var c :- TimeSpanExt.ToTimeResolution(data);
    var points :- TimePoints(first, last, market);
    var samples :- Gather(points, data, c, Lift(prod));
    var averages :- P.Averages(samples, P.StepsInResolution(market, data), false);
    Success(map p | p in averages :: averages[p].value)
  }

  /** The resampler in full, for a positive market step, an enumeration
      step that moves and a non-zero step count: it succeeds, a boundary
      other than the earliest gets an entry exactly when a key of `prod`
      is on its grid, and the entry is the sum of its window's values over
      the step count. */
  lemma MarketAverageMeaning(first: U.UtcDateTime, last: U.UtcDateTime, market: TimeSpan, data: TimeSpan,
                             prod: Values, p: U.UtcDateTime)
    requires market > 0 && data >= TicksPerMillisecond && P.GridStep(data) > 0
    requires P.StepsInResolution(market, data) != 0
    ensures CalculateMarketResolutionAverage(first, last, market, data, prod).Success?
    ensures var points := TimePoints(first, last, market).value;
      p in CalculateMarketResolutionAverage(first, last, market, data, prod).value <==>
      p in points[..|points| - 1] && exists t :: t in prod && P.OnGrid(t, p, market, data)
    ensures p in CalculateMarketResolutionAverage(first, last, market, data, prod).value ==>
      CalculateMarketResolutionAverage(first, last, market, data, prod).value[p]
        == P.SumPresent(P.Present(P.Window(p, market, data).value, Lift(prod))) / P.StepsInResolution(market, data) as real
  {
    var points := TimePoints(first, last, market).value;
    var q := points[..|points| - 1];
    TimePointsSpaced(first, last, market);
    TimePointsDistinct(first, last, market);
    GatherAgainstNewer(points, market, data, Lift(prod));
    assert P.Spaced(q, market) && P.Distinct(q);
    P.GatherWindows(q, market, data, Lift(prod), p);
    var window := P.Window(p, market, data).value;
    P.PresentNonEmpty(window, Lift(prod));
    if exists t :: t in prod && P.OnGrid(t, p, market, data) {
      var t :| t in prod && P.OnGrid(t, p, market, data);
      P.WindowGrid(p, market, data, t);
    }
    if exists t :: t in window && t in Lift(prod) {
      var t :| t in window && t in Lift(prod);
      P.WindowGrid(p, market, data, t);
    }
  }

  /** The earliest boundary never gets an entry, whatever `prod` holds. */
  lemma EarliestDropped(first: U.UtcDateTime, last: U.UtcDateTime, market: TimeSpan, data: TimeSpan, prod: Values)
    requires market > 0 && data >= TicksPerMillisecond && P.GridStep(data) > 0
    requires P.StepsInResolution(market, data) != 0
    ensures CalculateMarketResolutionAverage(first, last, market, data, prod).Success?
    ensures var points := TimePoints(first, last, market).value;
      points[|points| - 1] !in CalculateMarketResolutionAverage(first, last, market, data, prod).value
  {
    var points := TimePoints(first, last, market).value;
    var earliest := points[|points| - 1];
    TimePointsDistinct(first, last, market);
    MarketAverageMeaning(first, last, market, data, prod, earliest);
  }
}
