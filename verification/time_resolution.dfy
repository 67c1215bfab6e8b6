/** `TimeResolution`: a unit together with a step count, the predefined
    resolutions, and the check whether an instant lies on a resolution's
    grid within its day. */
module TimeResolutions {
  import opened Wrappers
  import opened TimeSpans
  import Int32
  import RT = TimeResolutionTypeExt
  import U = UtcDateTimes
  import TimeSpanExt
  import Arith

  datatype TimeResolution = TimeResolution(Type: RT.TimeResolutionType, IntervalStepInResolution: int)

  const Millisecond := TimeResolution(RT.Milliseconds, 1)
  const Second := TimeResolution(RT.Seconds, 1)
  const Minute := TimeResolution(RT.Minute, 1)
  const Minute5th := TimeResolution(RT.Minute, 5)
  const Minute6th := TimeResolution(RT.Minute, 6)
  const Minute10th := TimeResolution(RT.Minute, 10)
  const Minute12th := TimeResolution(RT.Minute, 12)
  const Minute15th := TimeResolution(RT.Minute, 15)
  const Minute20th := TimeResolution(RT.Minute, 20)
  const Minute30th := TimeResolution(RT.Minute, 30)
  const Hour := TimeResolution(RT.Hour, 1)
  const Day := TimeResolution(RT.Day, 1)
  const Week := TimeResolution(RT.Day, 7)
  /** Months, quarters, seasons and years are approximated by fixed day counts. */
  const Month := TimeResolution(RT.Day, 30)
  const Quarter := TimeResolution(RT.Day, 91)
  const Season := TimeResolution(RT.Day, 182)
  const Year := TimeResolution(RT.Day, 365)

  /** The predefined resolutions, in the order `GetResolution` tries them. */
  const Predefined: seq<TimeResolution> :=
    [Millisecond, Second, Minute, Minute5th, Minute6th, Minute10th, Minute12th, Minute15th,
     Minute20th, Minute30th, Hour, Day, Week, Month, Quarter, Season, Year]

  /** `ToTimeSpan()`: the resolution's length, `IntervalStepInResolution`
      units; it throws for a unit the conversions do not know. */
  function ToTimeSpan(res: TimeResolution): (r: Result<TimeSpan>)
    ensures r.Success? <==> RT.Known(res.Type)
    ensures r.Success? ==>
      r.value == res.IntervalStepInResolution * RT.ToMilliseconds(res.Type).value * TicksPerMillisecond
  {
    RT.ToTimeSpanSteps(res.Type, res.IntervalStepInResolution)
  }

  function CustomResolution(t: RT.TimeResolutionType, steps: int): TimeResolution {
    TimeResolution(t, steps)
  }

  /** The first entry of `list` with the given unit and step count. */
  function FindPredefined(list: seq<TimeResolution>, t: RT.TimeResolutionType, steps: int): (r: Option<TimeResolution>)
    ensures r.Some? <==> TimeResolution(t, steps) in list
    ensures r.Some? ==> r.value == TimeResolution(t, steps)
  {
    if |list| == 0 then None
    else if list[0].Type == t && list[0].IntervalStepInResolution == steps then Some(list[0])
    else FindPredefined(list[1..], t, steps)
  }

  /** `GetResolution`: the predefined resolution with this unit and step
      count when there is one, otherwise a custom one; either way it has
      exactly the requested unit and step count. */
  function GetResolution(t: RT.TimeResolutionType, steps: int): (r: TimeResolution)
    ensures r.Type == t && r.IntervalStepInResolution == steps
  {
    match FindPredefined(Predefined, t, steps)
    case Some(res) => res
    case None => CustomResolution(t, steps)
  }

  /** `FromMilliseconds`: the resolution a span of `milliseconds` is
      classified as; spans under one millisecond are refused. */
  function FromMilliseconds(milliseconds: int): (r: Result<TimeResolution>)
    ensures r.Success? <==> milliseconds >= 1
    ensures r.Success? ==>
      var c := TimeSpanExt.ToTimeResolution(TimeSpans.FromMilliseconds(milliseconds)).value;
      r.value == TimeResolution(c.0, c.1)
  {
    var classified :- TimeSpanExt.ToTimeResolution(TimeSpans.FromMilliseconds(milliseconds));
    Success(GetResolution(classified.0, classified.1))
  }

  /** Millisecond counts that one resolution describes exactly: under a
      second, whole minutes under an hour, whole hours under a day, and
      whole days. */
  predicate Canonical(milliseconds: int) {
    || (1 <= milliseconds < 1000)
    || (60_000 <= milliseconds < 3_600_000 && milliseconds % 60_000 == 0)
    || (3_600_000 <= milliseconds < 86_400_000 && milliseconds % 3_600_000 == 0)
    || (86_400_000 <= milliseconds && milliseconds % 86_400_000 == 0)
  }

  /** The resolution found for a span is exactly as long as the span iff
      the span is canonical; any other span comes back shorter, because
      the classification keeps only one component. */
  lemma FromMillisecondsRoundTrip(milliseconds: int)
    requires milliseconds >= 1
    ensures ToTimeSpan(FromMilliseconds(milliseconds).value).Success?
    ensures ToTimeSpan(FromMilliseconds(milliseconds).value).value == milliseconds * TicksPerMillisecond
        <==> Canonical(milliseconds)
    ensures ToTimeSpan(FromMilliseconds(milliseconds).value).value <= milliseconds * TicksPerMillisecond
  {
    if milliseconds < 60_000 {
      BelowMinuteRoundTrip(milliseconds);
    } else if milliseconds < 3_600_000 {
      MinutesRoundTrip(milliseconds);
    } else if milliseconds < 86_400_000 {
      HoursRoundTrip(milliseconds);
    } else {
      DaysRoundTrip(milliseconds);
    }
  }

  /** The three facts of `FromMillisecondsRoundTrip` for one span. */
  predicate RoundTrips(milliseconds: int)
    requires milliseconds >= 1
  {
    var back := ToTimeSpan(FromMilliseconds(milliseconds).value);
    && back.Success?
    && (back.value == milliseconds * TicksPerMillisecond <==> Canonical(milliseconds))
    && back.value <= milliseconds * TicksPerMillisecond
  }

  lemma BelowMinuteRoundTrip(milliseconds: int)
    requires 1 <= milliseconds < 60_000
    ensures RoundTrips(milliseconds)
  {
    var res := FromMilliseconds(milliseconds).value;
    var steps := milliseconds % 1000;
    RoundTripBelowMinute(milliseconds);
    assert ToTimeSpan(res).value == steps * TicksPerMillisecond;
    assert Canonical(milliseconds) <==> milliseconds < 1000;
    if milliseconds < 1000 {
      assert steps == milliseconds;
    } else {
      assert steps < milliseconds;
    }
  }

  lemma MinutesRoundTrip(milliseconds: int)
    requires 60_000 <= milliseconds < 3_600_000
    ensures RoundTrips(milliseconds)
  {
    var res := FromMilliseconds(milliseconds).value;
    var steps := res.IntervalStepInResolution;
    RoundTripMinutes(milliseconds);
    assert ToTimeSpan(res).value == steps * 60_000 * TicksPerMillisecond;
    assert Canonical(milliseconds) <==> milliseconds % 60_000 == 0;
    Arith.DivModUnique(milliseconds, 60_000, steps, milliseconds - steps * 60_000);
  }

  lemma HoursRoundTrip(milliseconds: int)
    requires 3_600_000 <= milliseconds < 86_400_000
    ensures RoundTrips(milliseconds)
  {
    var res := FromMilliseconds(milliseconds).value;
    var steps := res.IntervalStepInResolution;
    RoundTripHours(milliseconds);
    assert ToTimeSpan(res).value == steps * 3_600_000 * TicksPerMillisecond;
    assert Canonical(milliseconds) <==> milliseconds % 3_600_000 == 0;
    Arith.DivModUnique(milliseconds, 3_600_000, steps, milliseconds - steps * 3_600_000);
  }

  lemma DaysRoundTrip(milliseconds: int)
    requires 86_400_000 <= milliseconds
    ensures RoundTrips(milliseconds)
  {
    var res := FromMilliseconds(milliseconds).value;
    RoundTripDays(milliseconds);
    assert ToTimeSpan(res).value == res.IntervalStepInResolution * 86_400_000 * TicksPerMillisecond;
    assert Canonical(milliseconds) <==> milliseconds % 86_400_000 == 0;
  }

  lemma RoundTripBelowMinute(milliseconds: int)
    requires 1 <= milliseconds < 60_000
    ensures FromMilliseconds(milliseconds) == Success(TimeResolution(RT.Milliseconds, milliseconds % 1000))
  {
    var c := TimeSpanExt.ToTimeResolution(TimeSpans.FromMilliseconds(milliseconds)).value;
    assert c == (RT.Milliseconds, (milliseconds * TicksPerMillisecond / TicksPerMillisecond) % 1000);
  }

  lemma RoundTripMinutes(milliseconds: int)
    requires 60_000 <= milliseconds < 3_600_000
    ensures FromMilliseconds(milliseconds).value.Type == RT.Minute
    ensures var steps := FromMilliseconds(milliseconds).value.IntervalStepInResolution;
      steps * 60_000 <= milliseconds < (steps + 1) * 60_000
  {
    TimeSpanExt.Classification(TimeSpans.FromMilliseconds(milliseconds));
  }

  lemma RoundTripHours(milliseconds: int)
    requires 3_600_000 <= milliseconds < 86_400_000
    ensures FromMilliseconds(milliseconds).value.Type == RT.Hour
    ensures var steps := FromMilliseconds(milliseconds).value.IntervalStepInResolution;
      steps * 3_600_000 <= milliseconds < (steps + 1) * 3_600_000
  {
    TimeSpanExt.Classification(TimeSpans.FromMilliseconds(milliseconds));
  }

  lemma RoundTripDays(milliseconds: int)
    requires 86_400_000 <= milliseconds
    ensures FromMilliseconds(milliseconds) == Success(TimeResolution(RT.Day, milliseconds / 86_400_000))
  {
    var span := TimeSpans.FromMilliseconds(milliseconds);
    Arith.DivModAddMultiple(0, 1, 0);
    assert span == 86_400_000 * TicksPerMillisecond * (milliseconds / 86_400_000)
      + (milliseconds % 86_400_000) * TicksPerMillisecond;
    Arith.DivModUnique(span, TicksPerDay, milliseconds / 86_400_000, (milliseconds % 86_400_000) * TicksPerMillisecond);
  }

  // ---------------------------------------------------------------------
  // Grid check

  /** The length of a resolution whose unit is known. */
  function SpanOf(res: TimeResolution): TimeSpan
    requires RT.Known(res.Type)
  {
    ToTimeSpan(res).value
  }

  function EqualMilliseconds(span: TimeSpan, resolutionSpan: TimeSpan): bool {
    Milliseconds(span) == Milliseconds(resolutionSpan)
  }

  function EqualSeconds(span: TimeSpan, resolutionSpan: TimeSpan): bool {
    Seconds(span) == Seconds(resolutionSpan)
  }

  /** Minute agreement: with `steps` zero the minute component must be zero,
      otherwise it must be a multiple of the resolution's minute component
      (compared through the tick counts of those minute counts). */
  function EqualMinutes(span: TimeSpan, span2: TimeSpan, steps: int): bool
    requires steps == 0 || Minutes(span2) != 0
  {
    var min1 := Minutes(span);
    var min2 := Minutes(span2);
    if steps == 0 then min1 == 0
    else if min1 == min2 then true
    else Int32.Rem(FromMinutes(min1), FromMinutes(min2)) == 0
  }

  /** Agreement below the minute: no seconds and no milliseconds. */
  function OnTheMinute(span: TimeSpan, resolutionSpan: TimeSpan): bool {
    EqualSeconds(span, resolutionSpan) && EqualMilliseconds(span, resolutionSpan)
  }

  /** `IsValid(time, res, resolutionSpan)`: whether the time of day of `time`
      lies on the grid of a resolution of length `resolutionSpan`. Only the
      spans of the predefined resolutions up to one hour are understood; any
      other span throws. */
  function IsValidWith(time: U.UtcDateTime, resolutionSpan: TimeSpan): Result<bool> {
    var span := U.TimeOfDay(time);
    if resolutionSpan == SpanOf(Millisecond) then Success(true)
    else if resolutionSpan == SpanOf(Second) then Success(EqualMilliseconds(span, resolutionSpan))
    else if resolutionSpan == SpanOf(Minute) then Success(OnTheMinute(span, resolutionSpan))
    else if resolutionSpan == SpanOf(Minute5th) then
      Success(EqualMinutes(span, resolutionSpan, Minute5th.IntervalStepInResolution) && OnTheMinute(span, resolutionSpan))
    else if resolutionSpan == SpanOf(Minute6th) then
      Success(EqualMinutes(span, resolutionSpan, Minute6th.IntervalStepInResolution) && OnTheMinute(span, resolutionSpan))
    else if resolutionSpan == SpanOf(Minute10th) then
      Success(EqualMinutes(span, resolutionSpan, Minute10th.IntervalStepInResolution) && OnTheMinute(span, resolutionSpan))
    else if resolutionSpan == SpanOf(Minute12th) then
      Success(EqualMinutes(span, resolutionSpan, Minute12th.IntervalStepInResolution) && OnTheMinute(span, resolutionSpan))
    else if resolutionSpan == SpanOf(Minute15th) then
      Success(EqualMinutes(span, resolutionSpan, Minute15th.IntervalStepInResolution) && OnTheMinute(span, resolutionSpan))
    else if resolutionSpan == SpanOf(Minute20th) then
      Success(EqualMinutes(span, resolutionSpan, Minute20th.IntervalStepInResolution) && OnTheMinute(span, resolutionSpan))
    else if resolutionSpan == SpanOf(Minute30th) then
      Success(EqualMinutes(span, resolutionSpan, Minute30th.IntervalStepInResolution) && OnTheMinute(span, resolutionSpan))
    else if resolutionSpan == SpanOf(Hour) then
      Success(EqualMinutes(span, resolutionSpan, 0) && OnTheMinute(span, resolutionSpan))
    else Failure("Unable to verify TimeResolution.Type")
  }

  /** `IsValid(time)`: the grid check against this resolution's own length. */
  function IsValid(res: TimeResolution, time: U.UtcDateTime): (r: Result<bool>)
    ensures r.Success? ==> RT.Known(res.Type)
  {
    var span :- ToTimeSpan(res);
    IsValidWith(time, span)
  }

  /** The minute divisors of an hour that have a predefined resolution. */
  predicate MinuteStep(n: int) {
    n == 5 || n == 6 || n == 10 || n == 12 || n == 15 || n == 20 || n == 30
  }

  /** The time-of-day components are the instant's calendar components. */
  lemma TimeOfDayComponents(time: U.UtcDateTime)
    ensures Milliseconds(U.TimeOfDay(time)) == U.Millisecond(time)
    ensures Seconds(U.TimeOfDay(time)) == U.Second(time)
    ensures Minutes(U.TimeOfDay(time)) == U.Minute(time)
  {
    Arith.DivModOfMod(time.Ticks, TicksPerMillisecond, 1000, 86_400);
    Arith.DivModOfMod(time.Ticks, TicksPerSecond, 60, 1440);
    Arith.DivModOfMod(time.Ticks, TicksPerMinute, 60, 24);
  }

  /** Below the minute, the grid check asks for zero milliseconds (and zero
      seconds) of the time of day. */
  lemma IsValidWithBelowMinute(time: U.UtcDateTime, resolutionSpan: TimeSpan)
    ensures resolutionSpan == TicksPerMillisecond ==> IsValidWith(time, resolutionSpan) == Success(true)
    ensures resolutionSpan == TicksPerSecond ==>
      IsValidWith(time, resolutionSpan) == Success(U.Millisecond(time) == 0)
    ensures resolutionSpan == TicksPerMinute ==>
      IsValidWith(time, resolutionSpan) == Success(U.Second(time) == 0 && U.Millisecond(time) == 0)
  {
    TimeOfDayComponents(time);
  }

  /** For an N-minute resolution the minute must be a multiple of N. */
  lemma IsValidWithMinuteSteps(time: U.UtcDateTime, n: int)
    requires MinuteStep(n)
    ensures IsValidWith(time, n * TicksPerMinute)
      == Success(U.Minute(time) % n == 0 && U.Second(time) == 0 && U.Millisecond(time) == 0)
  {
    TimeOfDayComponents(time);
    var span := U.TimeOfDay(time);
    EqualMinutesMeaning(span, n);
    var expected := Success(Minutes(span) % n == 0 && OnTheMinute(span, n * TicksPerMinute));
    if n == 5 {
      assert IsValidWith(time, 5 * TicksPerMinute) == expected;
    } else if n == 6 {
      assert IsValidWith(time, 6 * TicksPerMinute) == expected;
    } else if n == 10 {
      assert IsValidWith(time, 10 * TicksPerMinute) == expected;
    } else if n == 12 {
      assert IsValidWith(time, 12 * TicksPerMinute) == expected;
    } else if n == 15 {
      assert IsValidWith(time, 15 * TicksPerMinute) == expected;
    } else if n == 20 {
      assert IsValidWith(time, 20 * TicksPerMinute) == expected;
    } else {
      assert IsValidWith(time, 30 * TicksPerMinute) == expected;
    }
  }

  /** Minute agreement with an N-minute span is divisibility by N. */
  lemma EqualMinutesMeaning(span: TimeSpan, n: int)
    requires MinuteStep(n) && 0 <= span
    ensures Minutes(n * TicksPerMinute) == n
    ensures Seconds(n * TicksPerMinute) == 0 && Milliseconds(n * TicksPerMinute) == 0
    ensures EqualMinutes(span, n * TicksPerMinute, n) == (Minutes(span) % n == 0)
  {
    var m := Minutes(span);
    assert 0 <= m < 60;
    var rs := n * TicksPerMinute;
    Arith.DivModUnique(rs, TicksPerMinute, n, 0);
    Arith.DivModUnique(n, 60, 0, n);
    assert Minutes(rs) == n;
    assert rs == TicksPerSecond * (n * 60);
    Arith.DivModUnique(rs, TicksPerSecond, n * 60, 0);
    Arith.DivModUnique(n * 60, 60, n, 0);
    assert Seconds(rs) == 0;
    assert rs == TicksPerMillisecond * (n * 60_000);
    Arith.DivModUnique(rs, TicksPerMillisecond, n * 60_000, 0);
    Arith.DivModUnique(n * 60_000, 1000, n * 60, 0);
    assert Milliseconds(rs) == 0;
    if m == n {
      Arith.DivModUnique(m, n, 1, 0);
      assert EqualMinutes(span, rs, n);
      assert m % n == 0;
    } else {
      var r := Int32.Rem(FromMinutes(m), FromMinutes(n));
      assert r == (m * TicksPerMinute) % (n * TicksPerMinute);
      Arith.MultipleOfScaled(m, n, TicksPerMinute);
      assert (r == 0) == (m % n == 0);
      assert EqualMinutes(span, rs, n) == (r == 0);
    }
  }

  /** For the hour resolution the minute must be zero. */
  lemma IsValidWithHour(time: U.UtcDateTime)
    ensures IsValidWith(time, TicksPerHour)
      == Success(U.Minute(time) == 0 && U.Second(time) == 0 && U.Millisecond(time) == 0)
  {
    TimeOfDayComponents(time);
  }

  /** The spans the grid check understands: those of the predefined
      resolutions from one millisecond up to one hour. */
  const GridSpans: set<TimeSpan> :=
    {TicksPerMillisecond, TicksPerSecond, TicksPerMinute, 5 * TicksPerMinute, 6 * TicksPerMinute,
     10 * TicksPerMinute, 12 * TicksPerMinute, 15 * TicksPerMinute, 20 * TicksPerMinute,
     30 * TicksPerMinute, TicksPerHour}

  /** Any other span, such as a day or a custom seven-minute step, throws. */
  lemma IsValidWithRefuses(time: U.UtcDateTime, resolutionSpan: TimeSpan)
    ensures IsValidWith(time, resolutionSpan).Success? <==> resolutionSpan in GridSpans
  {
  }
}
