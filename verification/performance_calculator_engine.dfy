/** `PerformanceCalculatorEngine`: reads the observation file and the
    forecast files, brings every series to hourly resolution and scores
    each forecast file against the observations in the calculator of the
    month its first hour falls in.

    The file system is replaced by the files' lines; .NET's parsing and
    calendar routines are parameters (`Platform`). */
module PerformanceCalculatorEngines {
  import opened Wrappers
  import opened Text
  import opened TimeSpans
  import opened MetaData
  import U = UtcDateTimes
  import E = UtcDateTimeEnumerators
  import R = TimeResolutions
  import RT = TimeResolutionTypeExt
  import TimeSpanExt
  import Arith
  import DateTimePatterns
  import Keys = SeriesKeys
  import P = ProductionDataHelpers
  import L = LegacyProductionDataHelpers
  import H = HourlySkillScoreCalculators
  import B = BinSkillScores

  /** The routines of the .NET platform the engine calls. */
  datatype Platform = Platform(
    // `DateTime.TryParseExact(stamp, pattern)` with the invariant culture
    tryParseExact: (string, string) -> bool,
    // `DateTime.ParseExact(stamp, pattern)`: `None` where it throws
    parseExact: (string, string) -> Option<U.DateTime>,
    // `double.TryParse(text, NumberStyles.Float)` with the invariant culture
    parseDouble: string -> Option<real>,
    // `new UtcDateTime(t.Year, t.Month, 1)`
    monthStart: U.UtcDateTime -> U.UtcDateTime)

  type Values = map<U.UtcDateTime, real>

  // ---------------------------------------------------------------------
  // Reading rows

  /** Where a file keeps its columns. Observation values may use ',' as
      the decimal mark; forecast values may not. */
  datatype Layout = Layout(sep: char, timeIndex: int, valueIndex: int, unit: string, decimalComma: bool)

  function ObservationLayout(omd: ObservationMetaData): (l: Layout)
    ensures l.decimalComma
  {
    Layout(omd.ObservationSep, omd.ObservationTimeIndex, omd.ObservationValueIndex, omd.ObservationUnitType, true)
  }

  function ForecastLayout(fmd: ForecastMetaData): (l: Layout)
    ensures !l.decimalComma
  {
    Layout(fmd.ForecastSep, fmd.ForecastTimeIndex, fmd.ForecastValueIndex, fmd.ForecastUnitType, false)
  }

  /** The state the reading loop carries: the time pattern once inferred,
      the values read, and whether some value was not a number. */
  datatype ReadState = ReadState(pattern: string, series: Values, notANumber: bool)

  /** The time stamp and value columns of a row; an index past the row's
      columns throws. */
  function Fields(line: string, layout: Layout): (r: Result<(string, string)>)
    ensures r.Success? <==>
      0 <= layout.timeIndex < |Split(line, layout.sep)| && 0 <= layout.valueIndex < |Split(line, layout.sep)|
    ensures r.Success? ==> layout.sep !in r.value.0 && layout.sep !in r.value.1
  {
    var cols := Split(line, layout.sep);
    if 0 <= layout.timeIndex < |cols| && 0 <= layout.valueIndex < |cols| then
      Success((cols[layout.timeIndex], cols[layout.valueIndex]))
    else Failure("Index was outside the bounds of the array.")
  }

  /** The value column as it is handed to the number parser. */
  function ValueText(text: string, layout: Layout): (s: string)
    ensures |s| == |text|
    ensures layout.decimalComma ==> ',' !in s
    ensures !layout.decimalComma ==> s == text
  {
    if layout.decimalComma then Replace(text, ',', '.') else text
  }

  /** A value in megawatts is stored in kilowatts. */
  function Scaled(v: real, unit: string): (w: real)
    ensures unit == "MW" ==> w == 1000.0 * v
    ensures unit != "MW" ==> w == v
  {
    if unit == "MW" then v * 1000.0 else v
  }

  /** One data row: the pattern is inferred from the first stamp read
      (see `InferOrKeep`) and kept, the stamp is parsed with it and taken
      as UTC; a numeric value is added (a repeated instant throws), a
      non-numeric one only raises the flag. */
  function ReadRow(st: ReadState, line: string, layout: Layout, env: Platform): (r: Result<ReadState>)
    ensures r.Success? ==> Fields(line, layout).Success?
    ensures r.Success? ==> InferOrKeep(st.pattern, Fields(line, layout).value.0, env) == Success(r.value.pattern)
    ensures r.Success? ==> forall t :: t in st.series ==> t in r.value.series && r.value.series[t] == st.series[t]
    ensures r.Success? ==> |r.value.series| <= |st.series| + 1
    ensures r.Success? && st.notANumber ==> r.value.notANumber
  {
    var (timeText, valueText) :- Fields(line, layout);
    var pattern :- InferOrKeep(st.pattern, timeText, env);
    var stamp :- if env.parseExact(timeText, pattern).Some? then Success(env.parseExact(timeText, pattern).value)
                 else Failure("String was not recognized as a valid DateTime.");
    var time :- U.CreateFromUnspecifiedDateTime(stamp);
    match env.parseDouble(ValueText(valueText, layout))
    case None => Success(st.(pattern := pattern, notANumber := true))
    case Some(v) =>
      if time in st.series then Failure("An item with the same key has already been added.")
      else Success(st.(pattern := pattern, series := st.series[time := Scaled(v, layout.unit)]))
  }

  /** The pattern in force: the one already inferred, or the one inferred
      from this stamp. */
  function InferOrKeep(pattern: string, timeText: string, env: Platform): (r: Result<string>)
    ensures pattern != "" ==> r == Success(pattern)
    ensures pattern == "" ==> r == DateTimePatterns.GetDateTimePattern(timeText, env.tryParseExact)
    ensures r.Success? ==> r.value != ""
  {
    if pattern != "" then Success(pattern)
    else
      var p :- DateTimePatterns.GetDateTimePattern(timeText, env.tryParseExact);
      assert |p| >= 13 by {
        assert DateTimePatterns.ReadPattern(p).Some?;
      }
      Success(p)
  }

  /** The instant a row's stamp stands for under `pattern`, if it parses. */
  function RowTime(timeText: string, pattern: string, env: Platform): Option<U.UtcDateTime> {
    match env.parseExact(timeText, pattern)
    case None => None
    case Some(d) => if d.Kind.Local? then None else Some(U.UtcDateTime(d.Ticks))
  }

  /** What a row does to the state, once its columns and stamp are read: a
      number is added under the row's instant, scaled by the unit; anything
      else leaves the values alone and raises the flag; a repeated instant
      fails. The pattern, once set, never changes. */
  lemma ReadRowMeaning(st: ReadState, line: string, layout: Layout, env: Platform)
    requires Fields(line, layout).Success?
    requires st.pattern != ""
    requires RowTime(Fields(line, layout).value.0, st.pattern, env).Some?
    ensures var time := RowTime(Fields(line, layout).value.0, st.pattern, env).value;
      var number := env.parseDouble(ValueText(Fields(line, layout).value.1, layout));
      ReadRow(st, line, layout, env) ==
        if number.None? then Success(st.(notANumber := true))
        else if time in st.series then Failure("An item with the same key has already been added.")
        else Success(st.(series := st.series[time := Scaled(number.value, layout.unit)]))
  {
  }

  /** The rows of a file after its heading, in order. Observation rows must
      each contain the separator; forecast rows are not checked. */
  function ReadRows(st: ReadState, lines: seq<string>, layout: Layout, checkSep: bool, env: Platform)
    : (r: Result<ReadState>)
    ensures r.Success? && checkSep ==> forall i :: 0 <= i < |lines| ==> layout.sep in lines[i]
    ensures r.Success? && |lines| > 0 ==> r.value.pattern != ""
    ensures r.Success? && st.pattern != "" ==> r.value.pattern == st.pattern
    ensures r.Success? ==> forall t :: t in st.series ==> t in r.value.series && r.value.series[t] == st.series[t]
    ensures r.Success? ==> |r.value.series| <= |st.series| + |lines|
    ensures r.Success? && st.notANumber ==> r.value.notANumber
    decreases |lines|
  {
    if |lines| == 0 then Success(st)
    else if checkSep && layout.sep !in lines[0] then Failure("Observations series does not contain the separator char.")
    else
      var next :- ReadRow(st, lines[0], layout, env);
      ReadRows(next, lines[1..], layout, checkSep, env)
  }

  /** The observation file: a heading, then rows that must all contain the
      separator. A file whose rows read but none of whose values is a
      number throws. */
  function ReadObservations(lines: seq<string>, omd: ObservationMetaData, env: Platform): (r: Result<Values>)
    ensures r.Success? ==> forall i :: 1 <= i < |lines| ==> omd.ObservationSep in lines[i]
  {
    var rows := if |lines| == 0 then [] else lines[1..];
    var st :- ReadRows(ReadState("", map[], false), rows, ObservationLayout(omd), true, env);
    if st.notANumber && |st.series| == 0 then
      Failure("The Observation Column Index Value is not pointing to a column which contains a double value.")
    else
      if |lines| == 0 then Success(st.series)
      else
        RowsAfterHeading(lines, omd.ObservationSep);
        Success(st.series)
  }

  /** What holds for every row after the heading holds for every line but
      the first. */
  lemma RowsAfterHeading(lines: seq<string>, sep: char)
    requires |lines| > 0 && forall i :: 0 <= i < |lines[1..]| ==> sep in lines[1..][i]
    ensures forall i :: 1 <= i < |lines| ==> sep in lines[i]
  {
    forall i | 1 <= i < |lines|
      ensures sep in lines[i]
    {
      assert lines[i] == lines[1..][i - 1];
    }
  }

  /** One forecast file, read with the pattern carried over from the files
      before it: only the heading must contain the separator. */
  function ReadForecast(pattern: string, lines: seq<string>, fmd: ForecastMetaData, env: Platform)
    : (r: Result<ReadState>)
    ensures |lines| > 0 && fmd.ForecastSep !in lines[0] ==> r.Failure?
    ensures r.Success? ==> !(r.value.notANumber && |r.value.series| == 0)
  {
    if |lines| == 0 then Success(ReadState(pattern, map[], false))
    else if fmd.ForecastSep !in lines[0] then Failure("Forecast series does not contain the separator char.")
    else
      var st :- ReadRows(ReadState(pattern, map[], false), lines[1..], ForecastLayout(fmd), false, env);
      if st.notANumber && |st.series| == 0 then
        Failure("The Forecast Column Index Value is not pointing to a column which contains a double value.")
      else Success(st)
  }

  /** A non-empty pattern passes through every forecast file unchanged: it
      is inferred once, from the first data row of the first file with
      one. */
  lemma ReadForecastKeepsPattern(pattern: string, lines: seq<string>, fmd: ForecastMetaData, env: Platform)
    requires pattern != ""
    requires ReadForecast(pattern, lines, fmd, env).Success?
    ensures ReadForecast(pattern, lines, fmd, env).value.pattern == pattern
  {
  }

  // ---------------------------------------------------------------------
  // Hourly resolution

  /** The gap between the first two instants of a series. */
  function Span(series: Values): (span: TimeSpan)
    requires |series| >= 2
    ensures span > 0
  {
    Keys.Second(series.Keys).Ticks - Keys.Earliest(series.Keys).Ticks
  }

  /** The first hour a ten-minute series is averaged into. */
  function FirstHour(series: Values): U.UtcDateTime
    requires |series| >= 1
  {
    U.AddHours(Keys.Earliest(series.Keys), 1)
  }

  /** The last instant, truncated to the whole hour. */
  function LastHour(series: Values): U.UtcDateTime
    requires |series| >= 1
  {
    U.TruncateToHour(Keys.Latest(series.Keys))
  }

  /** `ConvertTimeSeriesToHourlyResolution`: the resolution is judged from
      the gap between the first two instants alone. An hourly gap keeps the
      series, a ten-minute gap averages it into hours with the resampler
      kept next to the engine, and any other gap gives an empty series. A
      series with fewer than two instants throws. */
  function ConvertToHourly(series: Values): (r: Result<Values>)
    ensures |series| < 2 ==> r.Failure?
    ensures |series| >= 2 && Span(series) < TicksPerMillisecond ==> r.Failure?
  {
    if |series| < 2 then Failure("Index was outside the bounds of the array.")
    else
      var span := Span(series);
      var c :- TimeSpanExt.ToTimeResolution(span);
      if c == (RT.Hour, 1) then Success(series)
      else if c == (RT.Minute, 10) then
        L.CalculateMarketResolutionAverage(FirstHour(series), LastHour(series), FromHours(1), span, series)
      else Success(map[])
  }

  /** A first gap of one hour or more, but under two, counts as hourly: the
      series is kept as it is, whatever its later gaps. */
  lemma ConvertKeepsHourly(series: Values)
    requires |series| >= 2 && TicksPerHour <= Span(series) < 2 * TicksPerHour
    ensures ConvertToHourly(series) == Success(series)
  {
  }

  /** A first gap that classifies as neither one hour nor ten minutes drops
      the whole series. */
  lemma ConvertDropsOtherGaps(series: Values)
    requires |series| >= 2
    requires TicksPerMillisecond <= Span(series) < FromMinutes(10)
          || FromMinutes(11) <= Span(series) < TicksPerHour
          || 2 * TicksPerHour <= Span(series)
    ensures ConvertToHourly(series) == Success(map[])
  {
    TimeSpanExt.Classification(Span(series));
  }

  /** On the ten-minute grid ending at `p`: the six instants from fifty
      minutes before it up to `p`. */
  predicate InHour(t: U.UtcDateTime, p: U.UtcDateTime) {
    p.Ticks - FromMinutes(50) <= t.Ticks <= p.Ticks && (p.Ticks - t.Ticks) % FromMinutes(10) == 0
  }

  /** Counted from five steps before `p`, or back from `p`, the same
      instants are whole steps away: whatever is equivalent to the one is
      equivalent to the other. */
  lemma MultipleShift(onGrid: bool, t: int, p: int, d: int, start: int)
    requires d > 0 && start == p - 5 * d
    requires onGrid <==> start <= t <= p && (t - start) % d == 0
    ensures onGrid <==> p - 5 * d <= t <= p && (p - t) % d == 0
  {
    var y := t - p;
    Arith.DivModAddMultiple(y, d, 5);
    assert d * 5 + y == t - (p - 5 * d);
    if y % d == 0 {
      Arith.DivModUnique(p - t, d, -(y / d), 0);
    }
    if (p - t) % d == 0 {
      Arith.DivModUnique(y, d, -((p - t) / d), 0);
    }
  }

  /** Where the enumeration step equals the data step and the market
      step is six of them, a window holds the six data steps ending at its
      boundary. */
  lemma OnGridSixSteps(t: U.UtcDateTime, p: U.UtcDateTime, market: TimeSpan, data: TimeSpan)
    requires data >= TicksPerMillisecond && P.GridStep(data) == data && market == 6 * data
    ensures P.OnGrid(t, p, market, data) <==>
      p.Ticks - 5 * data <= t.Ticks <= p.Ticks && (p.Ticks - t.Ticks) % data == 0
  {
    var start := P.WindowStart(p, market, data);
    assert start == p.Ticks - 5 * data;
    MultipleShift(P.OnGrid(t, p, market, data), t.Ticks, p.Ticks, data, start);
  }

  lemma TenMinuteOnGrid(t: U.UtcDateTime, p: U.UtcDateTime)
    ensures P.GridStep(FromMinutes(10)) > 0
    ensures P.OnGrid(t, p, FromHours(1), FromMinutes(10)) <==> InHour(t, p)
  {
    P.TenMinuteGrid();
    OnGridSixSteps(t, p, FromHours(1), FromMinutes(10));
  }

  /** A ten-minute first gap hands the series to the older resampler,
      from one hour after the first instant to the last instant's hour. */
  lemma ConvertTenMinutesResamples(series: Values)
    requires |series| >= 2 && Span(series) == FromMinutes(10)
    ensures ConvertToHourly(series)
         == L.CalculateMarketResolutionAverage(FirstHour(series), LastHour(series), FromHours(1), FromMinutes(10), series)
  {
    TimeSpanExt.TenMinutesIsMinuteTen();
  }

  /** The older resampler on ten-minute data and hourly boundaries: a
      boundary other than the earliest gets an entry exactly when some
      instant of `prod` lies among the six ending at it. */
  lemma HourlyEntries(first: U.UtcDateTime, last: U.UtcDateTime, prod: Values, p: U.UtcDateTime)
    ensures L.CalculateMarketResolutionAverage(first, last, FromHours(1), FromMinutes(10), prod).Success?
    ensures var points := L.TimePoints(first, last, FromHours(1)).value;
      p in L.CalculateMarketResolutionAverage(first, last, FromHours(1), FromMinutes(10), prod).value <==>
      p in points[..|points| - 1] && exists t :: t in prod && InHour(t, p)
  {
    var hour, tenMinutes := FromHours(1), FromMinutes(10);
    P.StepsInResolutionExamples();
    P.TenMinuteGrid();
    L.MarketAverageMeaning(first, last, hour, tenMinutes, prod, p);
    forall t ensures P.OnGrid(t, p, hour, tenMinutes) <==> InHour(t, p) {
      TenMinuteOnGrid(t, p);
    }
  }

  /** ... and the entry is the sum of those instants' values over six. */
  lemma HourlyValues(first: U.UtcDateTime, last: U.UtcDateTime, prod: Values, p: U.UtcDateTime)
    ensures var r := L.CalculateMarketResolutionAverage(first, last, FromHours(1), FromMinutes(10), prod);
      r.Success? && p in r.value ==>
        r.value[p] == P.SumPresent(P.Present(P.Window(p, FromHours(1), FromMinutes(10)).value, L.Lift(prod))) / 6.0
  {
    var hour, tenMinutes := FromHours(1), FromMinutes(10);
    var c := L.CalculateMarketResolutionAverage(first, last, hour, tenMinutes, prod);
    if c.Success? && p in c.value {
      var sum := P.SumPresent(P.Present(P.Window(p, hour, tenMinutes).value, L.Lift(prod)));
      var steps := P.StepsInResolution(hour, tenMinutes);
      assert steps == 6 by {
        P.StepsInResolutionExamples();
      }
      assert c.value[p] == sum / steps as real by {
        P.StepsInResolutionExamples();
        P.TenMinuteGrid();
        L.MarketAverageMeaning(first, last, hour, tenMinutes, prod, p);
      }
      OverSix(sum, steps, c.value[p]);
    }
  }

  lemma OverSix(sum: real, steps: int, average: real)
    requires steps == 6 && average == sum / steps as real
    ensures average == sum / 6.0
  {
  }

  /** Ten-minute data: every hour from one hour after the first instant up
      to the last instant's hour, and the hour before it, bounds a window;
      each but the earliest gets an entry exactly when some instant of the
      series lies among the six ending at it, and the entry is their sum
      over six, so a missing instant counts as zero. */
  lemma ConvertAveragesTenMinutes(series: Values, p: U.UtcDateTime)
    requires |series| >= 2 && Span(series) == FromMinutes(10)
    ensures ConvertToHourly(series).Success?
    ensures var points := L.TimePoints(FirstHour(series), LastHour(series), FromHours(1)).value;
      p in ConvertToHourly(series).value <==>
      p in points[..|points| - 1] && exists t :: t in series && InHour(t, p)
    ensures p in ConvertToHourly(series).value ==>
      ConvertToHourly(series).value[p]
        == P.SumPresent(P.Present(P.Window(p, FromHours(1), FromMinutes(10)).value, L.Lift(series))) / 6.0
  {
    ConvertTenMinutesResamples(series);
    HourlyEntries(FirstHour(series), LastHour(series), series, p);
    HourlyValues(FirstHour(series), LastHour(series), series, p);
  }

  // ---------------------------------------------------------------------
  // Month bucketing

  type Results = map<U.UtcDateTime, H.Calculator>

  /** The hours from `first` to `last`, both included. */
  function HourlyTimes(first: U.UtcDateTime, last: U.UtcDateTime): seq<U.UtcDateTime> {
    E.Elements(E.New(first, last, R.Hour, E.LtEq).value).value
  }

  /** The hours enumerated are the whole hours after `first` up to `last`. */
  lemma HourlyTimesGrid(first: U.UtcDateTime, last: U.UtcDateTime, t: U.UtcDateTime)
    ensures t in HourlyTimes(first, last) <==>
      first.Ticks <= t.Ticks <= last.Ticks && (t.Ticks - first.Ticks) % TicksPerHour == 0
  {
    E.ElementsOnGrid(E.New(first, last, R.Hour, E.LtEq).value, t);
  }

  /** The month a forecast belongs to: the start of the month of its first
      hour. */
  function Month(forecast: Values, env: Platform): U.UtcDateTime
    requires |forecast| > 0
  {
    env.monthStart(Keys.Earliest(forecast.Keys))
  }

  /** The calculator a new month starts with: no turbines, the requested
      scope, the normalisation value cast to `int` as installed capacity. */
  function NewMonth(scope: seq<int>, omd: ObservationMetaData): (r: Result<H.Calculator>)
    ensures r.Success? <==> H.Distinct(scope)
    ensures r.Success? ==> r.value.Registered == 0 && r.value.Scope == scope
    ensures r.Success? ==> r.value.InstalledCapacity == P.Truncate(omd.NormalizationValue)
  {
    H.NewCalculator([], scope, P.Truncate(omd.NormalizationValue), -1, true)
  }

  /** The calculator of month `key`: the one already there, or a new one. */
  function MonthCalculator(results: Results, key: U.UtcDateTime, scope: seq<int>, omd: ObservationMetaData)
    : (r: Result<H.Calculator>)
    ensures r.Success? <==> key in results || H.Distinct(scope)
    ensures key in results ==> r == Success(results[key])
    ensures key !in results && r.Success? ==> r.value.Registered == 0 && r.value.Scope == scope
  {
    if key in results then Success(results[key]) else NewMonth(scope, omd)
  }

  /** A calculator with one more forecast file walked hour by hour, from
      its first hour to its last, against the hourly observations. */
  function Scored(c: H.Calculator, forecast: Values, observed: Values, fmd: ForecastMetaData): (r: H.Calculator)
    requires |forecast| > 0
    ensures r.Registered == c.Registered + 1 && r.Scope == c.Scope
  {
    H.AddDiscrete(c, HourlyTimes(Keys.Earliest(forecast.Keys), Keys.Latest(forecast.Keys)), forecast, observed,
                  fmd.OffsetHoursAhead)
  }

  /** One forecast file, at hourly resolution, scored into the calculator
      of its month, which is created on first use. An empty forecast throws
      (`Keys.First()`), and so does creating a calculator for a scope with a
      repeated entry. */
  function Score(results: Results, forecast: Values, observed: Values, fmd: ForecastMetaData,
                 omd: ObservationMetaData, scope: seq<int>, env: Platform): (r: Result<Results>)
    ensures r.Failure? <==> |forecast| == 0 || (Month(forecast, env) !in results && !H.Distinct(scope))
    ensures r.Success? ==> var key := Month(forecast, env);
      key in r.value && r.value == results[key := r.value[key]]
      && r.value[key].Registered == (if key in results then results[key].Registered else 0) + 1
      && r.value[key].Scope == (if key in results then results[key].Scope else scope)
  {
    if |forecast| == 0 then Failure("Sequence contains no elements")
    else
      var key := Month(forecast, env);
      var calculator :- MonthCalculator(results, key, scope, omd);
      Success(results[key := Scored(calculator, forecast, observed, fmd)])
  }

  /** What a scored file adds to bin `k` of its month's calculator, the
      one already there or the fresh one the file creates: for an
      hour-ahead bin, the pair at the `k - OffsetHoursAhead`-th hour after
      the file's first hour, when both series hold it; the catch-all bin
      takes every such pair, the one whose lead time is -1 twice. */
  lemma ScoreBin(results: Results, forecast: Values, observed: Values, fmd: ForecastMetaData,
                 omd: ObservationMetaData, scope: seq<int>, env: Platform, k: int)
    requires Score(results, forecast, observed, fmd, omd, scope, env).Success?
    requires k in MonthCalculator(results, Month(forecast, env), scope, omd).value.Bins
    ensures var before := MonthCalculator(results, Month(forecast, env), scope, omd).value;
      var after := Score(results, forecast, observed, fmd, omd, scope, env).value[Month(forecast, env)];
      var times := HourlyTimes(Keys.Earliest(forecast.Keys), Keys.Latest(forecast.Keys));
      var i := k - fmd.OffsetHoursAhead;
      k != H.Any ==>
        after.Bins[k] ==
          if 0 <= i < |times| && H.Paired(times[i], forecast, observed)
          then B.Register(before.Bins[k], observed[times[i]], forecast[times[i]])
          else before.Bins[k]
    ensures var before := MonthCalculator(results, Month(forecast, env), scope, omd).value;
      var after := Score(results, forecast, observed, fmd, omd, scope, env).value[Month(forecast, env)];
      var times := HourlyTimes(Keys.Earliest(forecast.Keys), Keys.Latest(forecast.Keys));
      k == H.Any ==>
        after.Bins[k]
          == B.RegisterAll(before.Bins[k], H.AllPairsRepeating(times, forecast, observed, -1 - fmd.OffsetHoursAhead))
  {
    var before := MonthCalculator(results, Month(forecast, env), scope, omd).value;
    var times := HourlyTimes(Keys.Earliest(forecast.Keys), Keys.Latest(forecast.Keys));
    assert Score(results, forecast, observed, fmd, omd, scope, env).value[Month(forecast, env)]
        == H.AddDiscrete(before, times, forecast, observed, fmd.OffsetHoursAhead);
    H.AddDiscreteMeaning(before, times, forecast, observed, fmd.OffsetHoursAhead, k);
  }

  /** How many files each month has registered. */
  function Registrations(results: Results): (m: map<U.UtcDateTime, int>)
    ensures m.Keys == results.Keys
    ensures forall k :: k in m ==> m[k] == results[k].Registered
  {
    map k | k in results :: results[k].Registered
  }

  /** The number of files registered over all months. */
  function TotalRegistered(results: Results): int {
    Keys.Total(Registrations(results))
  }

  /** Replacing one month's calculator replaces only its count. */
  lemma RegistrationsUpdate(results: Results, key: U.UtcDateTime, c: H.Calculator)
    ensures Registrations(results[key := c]) == Registrations(results)[key := c.Registered]
  {
  }

  /** Scoring a file registers exactly one more file over all months. */
  lemma ScoreRegistersOne(results: Results, forecast: Values, observed: Values, fmd: ForecastMetaData,
                          omd: ObservationMetaData, scope: seq<int>, env: Platform)
    requires Score(results, forecast, observed, fmd, omd, scope, env).Success?
    ensures TotalRegistered(Score(results, forecast, observed, fmd, omd, scope, env).value)
         == TotalRegistered(results) + 1
  {
    var r := Score(results, forecast, observed, fmd, omd, scope, env).value;
    var key := Month(forecast, env);
    var count := if key in results then results[key].Registered else 0;
    assert r == results[key := r[key]] && r[key].Registered == count + 1;
    RegistrationsUpdate(results, key, r[key]);
    Keys.TotalUpdate(Registrations(results), key, count + 1);
  }

  /** Every month's calculator has the requested scope. */
  predicate ScopedBy(results: Results, scope: seq<int>) {
    forall k :: k in results ==> results[k].Scope == scope
  }

  /** Scoring keeps every month it was given, and a new month's calculator
      gets the requested scope. */
  lemma ScoreKeepsMonths(results: Results, forecast: Values, observed: Values, fmd: ForecastMetaData,
                         omd: ObservationMetaData, scope: seq<int>, env: Platform)
    requires Score(results, forecast, observed, fmd, omd, scope, env).Success?
    ensures results.Keys <= Score(results, forecast, observed, fmd, omd, scope, env).value.Keys
    ensures ScopedBy(results, scope) ==> ScopedBy(Score(results, forecast, observed, fmd, omd, scope, env).value, scope)
  {
  }

  /** The forecast files in order, each read with the pattern left by the
      ones before it, brought to hourly resolution and scored. */
  function ScoreFiles(results: Results, pattern: string, files: seq<seq<string>>, observed: Values,
                      fmd: ForecastMetaData, omd: ObservationMetaData, scope: seq<int>, env: Platform)
    : (r: Result<Results>)
    ensures r.Success? ==> results.Keys <= r.value.Keys
    ensures r.Success? ==> TotalRegistered(r.value) == TotalRegistered(results) + |files|
    ensures r.Success? && ScopedBy(results, scope) ==> ScopedBy(r.value, scope)
    decreases |files|
  {
    if |files| == 0 then Success(results)
    else
      var st :- ReadForecast(pattern, files[0], fmd, env);
      var forecast :- ConvertToHourly(st.series);
      var next :- Score(results, forecast, observed, fmd, omd, scope, env);
      ScoreRegistersOne(results, forecast, observed, fmd, omd, scope, env);
      ScoreKeepsMonths(results, forecast, observed, fmd, omd, scope, env);
      ScoreFiles(next, st.pattern, files[1..], observed, fmd, omd, scope, env)
  }

  /** `Calculate`: the observations are read and brought to hourly
      resolution, then every forecast file is scored into its month. */
  function Calculate(fmd: ForecastMetaData, observationLines: seq<string>, omd: ObservationMetaData,
                     files: seq<seq<string>>, scope: seq<int>, env: Platform): (r: Result<Results>)
    ensures r.Success? ==> TotalRegistered(r.value) == |files|
    ensures r.Success? ==> ScopedBy(r.value, scope)
  {
    var observed :- ReadObservations(observationLines, omd, env);
    var hourly :- ConvertToHourly(observed);
    ScoreFiles(map[], "", files, hourly, fmd, omd, scope, env)
  }

  /** A scope with a repeated entry fails the first forecast file to be
      scored, so any run over files fails. */
  lemma RepeatedScopeFails(results: Results, pattern: string, files: seq<seq<string>>, observed: Values,
                           fmd: ForecastMetaData, omd: ObservationMetaData, scope: seq<int>, env: Platform)
    requires |files| > 0 && !H.Distinct(scope) && results == map[]
    ensures ScoreFiles(results, pattern, files, observed, fmd, omd, scope, env).Failure?
  {
    var st := ReadForecast(pattern, files[0], fmd, env);
    if st.Success? {
      var forecast := ConvertToHourly(st.value.series);
      if forecast.Success? {
        assert Score(results, forecast.value, observed, fmd, omd, scope, env).Failure?;
      }
    }
  }
}
