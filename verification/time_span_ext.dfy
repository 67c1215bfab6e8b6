/** Classification of a span into a resolution unit and a step count
    (`TimeSpanExt.ToTimeResolution`). */
module TimeSpanExt {
  import opened Wrappers
  import TS = TimeSpans
  import opened TimeResolutionTypeExt

  /** The coarsest unit the span reaches, with the span's component in that
      unit as the step count. Only the component is kept: spans of one hour
      or more lose their minutes, and spans under a minute keep only the
      millisecond component, so `Seconds` is never chosen. Spans shorter than
      a millisecond (zero and negative included) are rejected. */
  function ToTimeResolution(span: TS.TimeSpan): (r: Result<(TimeResolutionType, int)>)
    ensures r.Success? <==> span >= TS.TicksPerMillisecond
    ensures r.Success? ==> r.value.0 in {Day, Hour, Minute, Milliseconds}
  {
    if span >= TS.TicksPerDay then Success((Day, TS.Days(span)))
    else if span >= TS.TicksPerHour then Success((Hour, TS.Hours(span)))
    else if span >= TS.TicksPerMinute then Success((Minute, TS.Minutes(span)))
    else if span >= TS.TicksPerMillisecond then Success((Milliseconds, TS.Milliseconds(span)))
    else Failure("Unable to resolve TimeSpan to a TimeResolution")
  }

  /** Which unit a span is classified in, and how its step count bounds
      it. */
  lemma Classification(span: TS.TimeSpan)
    ensures span >= TS.TicksPerDay ==> ToTimeResolution(span) == Success((Day, span / TS.TicksPerDay))
    ensures TS.TicksPerHour <= span < TS.TicksPerDay ==>
      var c := ToTimeResolution(span).value;
      c.0 == Hour && 1 <= c.1 < 24 && c.1 * TS.TicksPerHour <= span < (c.1 + 1) * TS.TicksPerHour
    ensures TS.TicksPerMinute <= span < TS.TicksPerHour ==>
      var c := ToTimeResolution(span).value;
      c.0 == Minute && 1 <= c.1 < 60 && c.1 * TS.TicksPerMinute <= span < (c.1 + 1) * TS.TicksPerMinute
    ensures TS.TicksPerMillisecond <= span < TS.TicksPerMinute ==>
      ToTimeResolution(span) == Success((Milliseconds, (span / TS.TicksPerMillisecond) % 1000))
  {
  }

  /** Ninety minutes classify as one hour: the leftover half hour is dropped. */
  lemma NinetyMinutesIsOneHour()
    ensures ToTimeResolution(TS.FromMinutes(90)) == Success((Hour, 1))
  {
  }

  /** The usual SCADA step of ten minutes classifies as (Minute, 10). */
  lemma TenMinutesIsMinuteTen()
    ensures ToTimeResolution(TS.FromMinutes(10)) == Success((Minute, 10))
  {
  }

  /** A whole number of seconds below a minute classifies with zero steps. */
  lemma WholeSecondsGiveZeroSteps(seconds: int)
    requires 1 <= seconds < 60
    ensures ToTimeResolution(TS.FromSeconds(seconds)) == Success((Milliseconds, 0))
  {
  }
}
