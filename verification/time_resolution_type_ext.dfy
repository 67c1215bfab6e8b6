/** The resolution units and their conversions to milliseconds and spans
    (`TimeResolutionTypeExt`). */
module TimeResolutionTypeExt {
  import opened Wrappers
  import opened TimeSpans

  /** The units the conversions know, and any other value the enumeration
      type can hold (`Other`), for which every conversion throws. */
  datatype TimeResolutionType = Milliseconds | Seconds | Minute | Hour | Day | Other(code: int)

  predicate Known(t: TimeResolutionType) {
    !t.Other?
  }

  /** Length of one unit in milliseconds. */
  function ToMilliseconds(t: TimeResolutionType): (r: Result<int>)
    ensures r.Success? <==> Known(t)
    ensures r.Success? ==> r.value > 0
  {
    match t
    case Milliseconds => Success(1)
    case Seconds => Success(1000)
    case Minute => Success(60000)
    case Hour => Success(3600000)
    case Day => Success(86400000)
    case Other(_) => Failure("Unable to convert TimeResolution to milliseconds")
  }

  /** One unit as a span, built with the `TimeSpan` constructors; it is
      exactly `ToMilliseconds(t)` milliseconds long. */
  function ToTimeSpan(t: TimeResolutionType): (r: Result<TimeSpan>)
    ensures r.Success? <==> ToMilliseconds(t).Success?
    ensures r.Success? ==> r.value == ToMilliseconds(t).value * TicksPerMillisecond
  {
    match t
    case Milliseconds => Success(FromParts(0, 0, 0, 0, 1))
    case Seconds => Success(FromParts(0, 0, 0, 1, 0))
    case Minute => Success(FromParts(0, 0, 1, 0, 0))
    case Hour => Success(FromParts(0, 1, 0, 0, 0))
    case Day => Success(FromParts(1, 0, 0, 0, 0))
    case Other(_) => Failure("Unable to convert TimeResolution to milliseconds")
  }

  /** `steps` units as a span, built with the `TimeSpan.FromX` factories;
      it is `steps` times the single-unit span. */
  function ToTimeSpanSteps(t: TimeResolutionType, steps: int): (r: Result<TimeSpan>)
    ensures r.Success? <==> Known(t)
    ensures r.Success? ==> r.value == steps * ToTimeSpan(t).value
    ensures steps == 1 ==> r == ToTimeSpan(t)
  {
    match t
    case Milliseconds => Success(FromMilliseconds(steps))
    case Seconds => Success(FromSeconds(steps))
    case Minute => Success(FromMinutes(steps))
    case Hour => Success(FromHours(steps))
    case Day => Success(FromDays(steps))
    case Other(_) => Failure("Unable to convert TimeResolution to milliseconds")
  }
}
