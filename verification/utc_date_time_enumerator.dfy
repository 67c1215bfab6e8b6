/** `UtcDateTimeEnumerator`: the instants from a start instant up to (and,
    for `LtEq`, including) an end instant, one resolution step apart. */
module UtcDateTimeEnumerators {
  import opened Wrappers
  import opened TimeSpans
  import Int32
  import Arith
  import RT = TimeResolutionTypeExt
  import U = UtcDateTimes
  import R = TimeResolutions

  datatype ConditionalOperator = Lt | LtEq

  /** An enumerator: `Empty` is the one whose inner enumerator is null;
      `Stepping` walks from `Start` in steps of `TimeStepPeriod`
      milliseconds while the comparison with `End` holds. */
  datatype UtcDateTimeEnumerator =
    | Empty
    | Stepping(Start: U.UtcDateTime, End: U.UtcDateTime, Resolution: R.TimeResolution,
               TimeStepPeriod: int, Comparer: ConditionalOperator)

  /** The step the source computes: the unit's milliseconds times the
      interval, stored in a 32-bit `int` without overflow checking. */
  function StepAsWritten(resolution: R.TimeResolution): (r: Result<int>)
    ensures r.Success? <==> RT.Known(resolution.Type)
    ensures r.Success? ==> Int32.InRange(r.value)
  {
    var unit :- RT.ToMilliseconds(resolution.Type);
    Success(Int32.Wrap(unit * resolution.IntervalStepInResolution))
  }

  /** The step as evidently intended: the exact product. */
  function Step(resolution: R.TimeResolution): (r: Result<int>)
    ensures r.Success? <==> RT.Known(resolution.Type)
    ensures r.Success? ==> r.value * TicksPerMillisecond == R.ToTimeSpan(resolution).value
  {
    var unit :- RT.ToMilliseconds(resolution.Type);
    Success(unit * resolution.IntervalStepInResolution)
  }

  /** The two steps agree whenever the product fits in 32 bits, which it
      does for every predefined resolution up to a week. */
  lemma StepAgreesWhenInRange(resolution: R.TimeResolution)
    requires RT.Known(resolution.Type)
    requires Int32.InRange(Step(resolution).value)
    ensures StepAsWritten(resolution) == Step(resolution)
  {
  }

  /** The protected constructor as written: it stores the wrapped step and
      throws for a unit that has no millisecond length. */
  function StartAsWritten(start: U.UtcDateTime, end: U.UtcDateTime, resolution: R.TimeResolution,
                          comparer: ConditionalOperator): (r: Result<UtcDateTimeEnumerator>)
    ensures r.Success? <==> RT.Known(resolution.Type)
    ensures r.Success? ==> r.value.Stepping? && r.value.TimeStepPeriod == StepAsWritten(resolution).value
  {
    var step :- StepAsWritten(resolution);
    Success(Stepping(start, end, resolution, step, comparer))
  }

  /** `new UtcDateTimeEnumerator(start, end, resolution, comparer)`, with
      the step computed exactly. The code as written goes through the
      protected constructor and stores the wrapped step (`StartAsWritten`);
      the rest of the model uses this corrected constructor. */
  function New(start: U.UtcDateTime, end: U.UtcDateTime, resolution: R.TimeResolution,
               comparer: ConditionalOperator): (r: Result<UtcDateTimeEnumerator>)
    ensures r.Success? <==> RT.Known(resolution.Type)
    ensures r.Success? ==> r.value == Stepping(start, end, resolution, Step(resolution).value, comparer)
  {
    var step :- Step(resolution);
    Success(Stepping(start, end, resolution, step, comparer))
  }

  /** The corrected constructor differs from the one as written only when the
      step in milliseconds does not fit in 32 bits (2^31 ms is about 24.8
      days). */
  lemma NewAgreesWhenInRange(start: U.UtcDateTime, end: U.UtcDateTime, resolution: R.TimeResolution,
                             comparer: ConditionalOperator)
    requires RT.Known(resolution.Type)
    requires Int32.InRange(Step(resolution).value)
    ensures New(start, end, resolution, comparer) == StartAsWritten(start, end, resolution, comparer)
  {
    StepAgreesWhenInRange(resolution);
  }

  /** `new UtcDateTimeEnumerator(start, end, type, interval, comparer)`: the
      resolution is looked up with `GetResolution`. */
  function NewWithType(start: U.UtcDateTime, end: U.UtcDateTime, t: RT.TimeResolutionType,
                       interval: int, comparer: ConditionalOperator): (r: Result<UtcDateTimeEnumerator>)
    ensures r == New(start, end, R.TimeResolution(t, interval), comparer)
  {
    New(start, end, R.GetResolution(t, interval), comparer)
  }

  /** `EmptyEnumerator()`: binds the protected constructor, so the inner
      enumerator stays null and nothing is enumerated. */
  function EmptyEnumerator(): (r: UtcDateTimeEnumerator)
    ensures Elements(r) == Success([])
  {
    Empty
  }

  /** Whether the loop continues at `current`. */
  predicate Continues(comparer: ConditionalOperator, current: int, end: int) {
    match comparer
    case Lt => current < end
    case LtEq => current <= end
  }

  /** The loop of the nested enumerators, on tick counts. */
  function Walk(current: int, end: int, step: int, comparer: ConditionalOperator): seq<int>
    requires step > 0
    decreases end - current + 1
  {
    if Continues(comparer, current, end) then [current] + Walk(current + step, end, step, comparer)
    else []
  }

  /** What enumerating yields. A non-positive step with a loop that would
      start never reaches the end: with a negative step the source runs
      until `DateTime` leaves its range and throws, with a zero step it
      never ends; both are reported as a failure here. */
  function Elements(e: UtcDateTimeEnumerator): (r: Result<seq<U.UtcDateTime>>)
    ensures e.Empty? ==> r == Success([])
    ensures e.Stepping? && e.TimeStepPeriod > 0 ==> r.Success?
    ensures e.Stepping? ==>
      (r.Failure? <==> e.TimeStepPeriod <= 0 && Continues(e.Comparer, e.Start.Ticks, e.End.Ticks))
  {
    match e
    case Empty => Success([])
    case Stepping(start, end, _, step, comparer) =>
      if step > 0 then
        var ticks := Walk(start.Ticks, end.Ticks, step * TicksPerMillisecond, comparer);
        Success(seq(|ticks|, i requires 0 <= i < |ticks| => U.UtcDateTime(ticks[i])))
      else if Continues(comparer, start.Ticks, end.Ticks) then
        Failure("the enumeration never reaches its end")
      else Success([])
  }

  // ---------------------------------------------------------------------
  // Shape of a walk

  /** The number of grid points from `start` that pass the comparison with `end`. */
  function Count(start: int, end: int, step: int, comparer: ConditionalOperator): nat
    requires step > 0
  {
    match comparer
    case LtEq => if start <= end then (end - start) / step + 1 else 0
    case Lt => if start < end then (end - start - 1) / step + 1 else 0
  }

  /** The i-th instant is `i` steps after the start, and there are exactly
      `Count` of them. */
  lemma {:induction false} WalkShape(start: int, end: int, step: int, comparer: ConditionalOperator)
    requires step > 0
    ensures |Walk(start, end, step, comparer)| == Count(start, end, step, comparer)
    ensures forall i :: 0 <= i < |Walk(start, end, step, comparer)| ==>
      Walk(start, end, step, comparer)[i] == start + i * step
    decreases end - start + 1
  {
    var w := Walk(start, end, step, comparer);
    if Continues(comparer, start, end) {
      var rest := Walk(start + step, end, step, comparer);
      WalkShape(start + step, end, step, comparer);
      assert w == [start] + rest;
      CountStep(start, end, step, comparer);
      forall i | 0 <= i < |w| ensures w[i] == start + i * step {
        if i > 0 {
          assert w[i] == rest[i - 1] == start + step + (i - 1) * step;
        }
      }
    }
  }

  /** One step forward leaves one grid point fewer. */
  lemma CountStep(start: int, end: int, step: int, comparer: ConditionalOperator)
    requires step > 0 && Continues(comparer, start, end)
    ensures Count(start, end, step, comparer) == Count(start + step, end, step, comparer) + 1
  {
    var span := if comparer == LtEq then end - start else end - start - 1;
    assert 0 <= span;
    if span >= step {
      Arith.DivModAddMultiple(span - step, step, 1);
      assert span == step * 1 + (span - step);
    } else {
      Arith.DivModUnique(span, step, 0, span);
    }
  }

  /** An instant is enumerated iff it lies on the step grid from `start`
      and passes the comparison with `end`. */
  lemma WalkMembership(start: int, end: int, step: int, comparer: ConditionalOperator, t: int)
    requires step > 0
    ensures t in Walk(start, end, step, comparer) <==>
      start <= t && Continues(comparer, t, end) && (t - start) % step == 0
  {
    if t in Walk(start, end, step, comparer) {
      WalkOnGrid(start, end, step, comparer, t);
    }
    if start <= t && Continues(comparer, t, end) && (t - start) % step == 0 {
      GridInWalk(start, end, step, comparer, t);
    }
  }

  lemma WalkOnGrid(start: int, end: int, step: int, comparer: ConditionalOperator, t: int)
    requires step > 0 && t in Walk(start, end, step, comparer)
    ensures start <= t && Continues(comparer, t, end) && (t - start) % step == 0
  {
    var w := Walk(start, end, step, comparer);
    WalkShape(start, end, step, comparer);
    var i :| 0 <= i < |w| && w[i] == t;
    assert t - start == step * i + 0;
    Arith.DivModUnique(t - start, step, i, 0);
    LastOnGrid(start, end, step, comparer, i);
  }

  lemma GridInWalk(start: int, end: int, step: int, comparer: ConditionalOperator, t: int)
    requires step > 0 && start <= t && Continues(comparer, t, end) && (t - start) % step == 0
    ensures t in Walk(start, end, step, comparer)
  {
    var w := Walk(start, end, step, comparer);
    WalkShape(start, end, step, comparer);
    var i := (t - start) / step;
    assert t == start + i * step;
    InGrid(start, end, step, comparer, i);
    assert w[i] == t;
  }

  /** Every index below `Count` is a grid point that passes the comparison. */
  lemma LastOnGrid(start: int, end: int, step: int, comparer: ConditionalOperator, i: int)
    requires step > 0 && 0 <= i < Count(start, end, step, comparer)
    ensures Continues(comparer, start + i * step, end)
  {
    var span := if comparer == LtEq then end - start else end - start - 1;
    assert i <= span / step;
    assert step * (span / step) <= span;
    assert i * step <= (span / step) * step;
  }

  /** Every grid point that passes the comparison has an index below `Count`. */
  lemma InGrid(start: int, end: int, step: int, comparer: ConditionalOperator, i: int)
    requires step > 0 && 0 <= i && Continues(comparer, start + i * step, end)
    ensures i < Count(start, end, step, comparer)
  {
    var span := if comparer == LtEq then end - start else end - start - 1;
    assert i * step <= span;
    Arith.DivModAddMultiple(span - i * step, step, i);
    assert span == step * i + (span - i * step);
  }

  /** Enumerated instants are strictly increasing, hence distinct. */
  lemma WalkIncreasing(start: int, end: int, step: int, comparer: ConditionalOperator, i: int, j: int)
    requires step > 0
    requires 0 <= i < j < |Walk(start, end, step, comparer)|
    ensures Walk(start, end, step, comparer)[i] < Walk(start, end, step, comparer)[j]
  {
    WalkShape(start, end, step, comparer);
    assert j * step - i * step == (j - i) * step;
    Arith.MulAtLeast(step, j - i);
  }

  /** `Lt` yields the `LtEq` instants except the end itself: nothing when
      start and end coincide, and the end is never included. */
  lemma LtDropsEnd(start: int, end: int, step: int)
    requires step > 0
    ensures Walk(start, start, step, Lt) == []
    ensures end !in Walk(start, end, step, Lt)
    ensures forall t :: t in Walk(start, end, step, Lt) <==> t in Walk(start, end, step, LtEq) && t != end
  {
    forall t ensures t in Walk(start, end, step, Lt) <==> t in Walk(start, end, step, LtEq) && t != end {
      WalkMembership(start, end, step, Lt, t);
      WalkMembership(start, end, step, LtEq, t);
    }
    WalkMembership(start, end, step, Lt, end);
  }

  /** With a positive step, an instant is enumerated iff it lies on the
      step grid from the start and passes the comparison with the end. */
  lemma ElementsOnGrid(e: UtcDateTimeEnumerator, t: U.UtcDateTime)
    requires e.Stepping? && e.TimeStepPeriod > 0
    ensures t in Elements(e).value <==>
      e.Start.Ticks <= t.Ticks && Continues(e.Comparer, t.Ticks, e.End.Ticks)
      && (t.Ticks - e.Start.Ticks) % (e.TimeStepPeriod * TicksPerMillisecond) == 0
  {
    var ticks := Walk(e.Start.Ticks, e.End.Ticks, e.TimeStepPeriod * TicksPerMillisecond, e.Comparer);
    var elems := Elements(e).value;
    assert elems == seq(|ticks|, i requires 0 <= i < |ticks| => U.UtcDateTime(ticks[i]));
    WalkMembership(e.Start.Ticks, e.End.Ticks, e.TimeStepPeriod * TicksPerMillisecond, e.Comparer, t.Ticks);
    if t in elems {
      var i :| 0 <= i < |elems| && elems[i] == t;
      assert ticks[i] == t.Ticks;
    }
    if t.Ticks in ticks {
      var i :| 0 <= i < |ticks| && ticks[i] == t.Ticks;
      assert elems[i] == t;
    }
  }

  // ---------------------------------------------------------------------
  // The 32-bit step overflows for the long predefined resolutions

  /** As written, the millisecond step of `Month` (30 days), `Quarter` and
      `Season` wraps to a negative `int`, and the one of `Year` wraps to
      about 17 days. */
  lemma StepAsWrittenOverflows()
    ensures StepAsWritten(R.Month) == Success(-1_702_967_296)
    ensures StepAsWritten(R.Quarter) == Success(-727_534_592)
    ensures StepAsWritten(R.Season) == Success(-1_455_069_184)
    ensures StepAsWritten(R.Year) == Success(1_471_228_928)
    ensures Step(R.Year) == Success(31_536_000_000)
  {
  }

  /** As written, enumerating a non-empty range by `Month` never reaches
      its end. */
  lemma MonthEnumerationAsWritten(start: U.UtcDateTime, end: U.UtcDateTime)
    requires start.Ticks <= end.Ticks
    ensures StartAsWritten(start, end, R.Month, LtEq).Success?
    ensures Elements(StartAsWritten(start, end, R.Month, LtEq).value).Failure?
  {
    StepAsWrittenOverflows();
  }

  /** With the exact step, enumerating by `Month` yields the instants 30
      days apart from the start up to the end. */
  lemma MonthEnumerationCorrected(start: U.UtcDateTime, end: U.UtcDateTime, t: int)
    ensures New(start, end, R.Month, LtEq).Success?
    ensures Elements(New(start, end, R.Month, LtEq).value).Success?
    ensures U.UtcDateTime(t) in Elements(New(start, end, R.Month, LtEq).value).value <==>
      start.Ticks <= t <= end.Ticks && (t - start.Ticks) % FromDays(30) == 0
  {
    assert Step(R.Month).value * TicksPerMillisecond == FromDays(30);
    ElementsOnGrid(New(start, end, R.Month, LtEq).value, U.UtcDateTime(t));
  }
}
