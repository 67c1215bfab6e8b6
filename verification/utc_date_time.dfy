/** `UtcDateTime`: a wrapper around a .NET `DateTime` that only ever holds a
    UTC-kind instant. Instants are tick counts since 0001-01-01 00:00. */
module UtcDateTimes {
  import opened Wrappers
  import opened TimeSpans

  datatype DateTimeKind = Unspecified | Utc | Local

  /** A .NET `DateTime`: a tick count and a kind. */
  datatype DateTime = DateTime(Ticks: int, Kind: DateTimeKind)

  datatype UtcDateTime = UtcDateTime(Ticks: int)

  /** `new UtcDateTime(DateTime)`: only a UTC-kind value is accepted and it
      is kept unchanged. */
  function FromDateTime(d: DateTime): (r: Result<UtcDateTime>)
    ensures r.Success? <==> d.Kind == Utc
    ensures r.Success? ==> r.value.Ticks == d.Ticks
  {
    if d.Kind == Utc then Success(UtcDateTime(d.Ticks))
    else Failure("Unable to create UtcDateTime instance when DateTimeKind is not set to Utc.")
  }

  /** The wrapped value (`UtcTime`, also the implicit conversion to `DateTime`). */
  function ToDateTime(u: UtcDateTime): (d: DateTime)
    ensures d.Kind == Utc
    ensures FromDateTime(d) == Success(u)
  {
    DateTime(u.Ticks, Utc)
  }

  /** Wrapping and unwrapping are inverse on UTC-kind values. */
  lemma FromDateTimeRoundTrip(d: DateTime)
    requires d.Kind == Utc
    ensures ToDateTime(FromDateTime(d).value) == d
  {
  }

  /** `new UtcDateTime(long ticks)`. */
  function FromTicks(ticks: int): (u: UtcDateTime)
    ensures FromDateTime(DateTime(ticks, Utc)) == Success(u)
  {
    UtcDateTime(ticks)
  }

  /** `CreateFromUnspecifiedDateTime`: a UTC value is taken as is, an
      unspecified one is relabelled as UTC without shifting, a local one is
      refused. */
  function CreateFromUnspecifiedDateTime(d: DateTime): (r: Result<UtcDateTime>)
    ensures r.Success? <==> !d.Kind.Local?
    ensures r.Success? ==> r.value.Ticks == d.Ticks
  {
    if d.Kind.Utc? then FromDateTime(d)
    else if d.Kind.Unspecified? then FromDateTime(d.(Kind := Utc))
    else Failure("Unable to create UtcDateTime instance from unspecified date time")
  }

  // ---------------------------------------------------------------------
  // Arithmetic

  function Add(u: UtcDateTime, span: TimeSpan): UtcDateTime {
    UtcDateTime(u.Ticks + span)
  }

  function Subtract(u: UtcDateTime, span: TimeSpan): UtcDateTime {
    UtcDateTime(u.Ticks - span)
  }

  function AddHours(u: UtcDateTime, hours: int): UtcDateTime {
    UtcDateTime(u.Ticks + hours * TicksPerHour)
  }

  function AddMinutes(u: UtcDateTime, minutes: int): UtcDateTime {
    UtcDateTime(u.Ticks + minutes * TicksPerMinute)
  }

  function AddSeconds(u: UtcDateTime, seconds: int): UtcDateTime {
    UtcDateTime(u.Ticks + seconds * TicksPerSecond)
  }

  /** Subtracting a span undoes adding it, and the unit-specific adders are
      `Add` of the matching span. */
  lemma AddSubtract(u: UtcDateTime, span: TimeSpan, n: int)
    ensures Subtract(Add(u, span), span) == u
    ensures Add(Subtract(u, span), span) == u
    ensures AddHours(u, n) == Add(u, FromHours(n))
    ensures AddMinutes(u, n) == Add(u, FromMinutes(n))
    ensures AddSeconds(u, n) == Add(u, FromSeconds(n))
  {
  }

  // ---------------------------------------------------------------------
  // Comparison

  predicate Less(a: UtcDateTime, b: UtcDateTime) { a.Ticks < b.Ticks }
  predicate LessEq(a: UtcDateTime, b: UtcDateTime) { a.Ticks <= b.Ticks }
  predicate Greater(a: UtcDateTime, b: UtcDateTime) { a.Ticks > b.Ticks }
  predicate GreaterEq(a: UtcDateTime, b: UtcDateTime) { a.Ticks >= b.Ticks }

  /** `CompareTo`: the sign of the tick difference. */
  function CompareTo(a: UtcDateTime, b: UtcDateTime): (r: int)
    ensures r < 0 <==> Less(a, b)
    ensures r == 0 <==> a == b
    ensures r > 0 <==> Greater(a, b)
  {
    if a.Ticks < b.Ticks then -1 else if a.Ticks == b.Ticks then 0 else 1
  }

  /** The operators form one total order, and equality is tick equality. */
  lemma TotalOrder(a: UtcDateTime, b: UtcDateTime, c: UtcDateTime)
    ensures LessEq(a, a)
    ensures LessEq(a, b) && LessEq(b, a) ==> a == b
    ensures LessEq(a, b) && LessEq(b, c) ==> LessEq(a, c)
    ensures LessEq(a, b) || LessEq(b, a)
    ensures Less(a, b) <==> LessEq(a, b) && a != b
    ensures Greater(a, b) <==> Less(b, a)
    ensures GreaterEq(a, b) <==> LessEq(b, a)
    ensures CompareTo(a, b) == -CompareTo(b, a)
  {
  }

  /** `Min`: the earlier of the two (the right one on a tie). */
  function Min(left: UtcDateTime, right: UtcDateTime): (r: UtcDateTime)
    ensures r == left || r == right
    ensures LessEq(r, left) && LessEq(r, right)
  {
    if Less(left, right) then left else right
  }

  /** `Max`: the later of the two (the right one on a tie). */
  function Max(left: UtcDateTime, right: UtcDateTime): (r: UtcDateTime)
    ensures r == left || r == right
    ensures LessEq(left, r) && LessEq(right, r)
  {
    if Greater(left, right) then left else right
  }

  // ---------------------------------------------------------------------
  // Calendar components that do not need the calendar

  /** `TimeOfDay`: the span elapsed since midnight. */
  function TimeOfDay(u: UtcDateTime): (r: TimeSpan)
    ensures 0 <= r < TicksPerDay
    ensures (u.Ticks - r) % TicksPerDay == 0
  {
    u.Ticks % TicksPerDay
  }

  /** `Hour`: the hour of the day, 0..23. */
  function Hour(u: UtcDateTime): (r: int)
    ensures 0 <= r < 24
    ensures r * TicksPerHour <= TimeOfDay(u) < (r + 1) * TicksPerHour
  {
    (u.Ticks / TicksPerHour) % 24
  }

  /** `Minute`: the minute of the hour, 0..59. */
  function Minute(u: UtcDateTime): (r: int)
    ensures 0 <= r < 60
  {
    (u.Ticks / TicksPerMinute) % 60
  }

  /** `Second`: the second of the minute, 0..59. */
  function Second(u: UtcDateTime): (r: int)
    ensures 0 <= r < 60
  {
    (u.Ticks / TicksPerSecond) % 60
  }

  /** `Millisecond`: the millisecond of the second, 0..999. */
  function Millisecond(u: UtcDateTime): (r: int)
    ensures 0 <= r < 1000
  {
    (u.Ticks / TicksPerMillisecond) % 1000
  }

  /** `new UtcDateTime(Year, Month, Day, Hour)`: the instant truncated to
      the whole hour. */
  function TruncateToHour(u: UtcDateTime): (r: UtcDateTime)
    ensures r.Ticks % TicksPerHour == 0
    ensures r.Ticks <= u.Ticks < r.Ticks + TicksPerHour
    ensures Hour(r) == Hour(u)
  {
    UtcDateTime(u.Ticks - u.Ticks % TicksPerHour)
  }
}
