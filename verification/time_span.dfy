/** .NET `TimeSpan` values, represented by their signed tick count
    (one tick is 100 ns), with the component accessors and factory methods
    the modelled code uses. Component accessors truncate toward zero as the
    .NET ones do. */
module TimeSpans {
  import Int32

  type TimeSpan = int

  const TicksPerMillisecond: int := 10_000
  const TicksPerSecond: int := 10_000_000
  const TicksPerMinute: int := 600_000_000
  const TicksPerHour: int := 36_000_000_000
  const TicksPerDay: int := 864_000_000_000

  /** `new TimeSpan(days, hours, minutes, seconds, milliseconds)`. */
  function FromParts(days: int, hours: int, minutes: int, seconds: int, milliseconds: int): TimeSpan {
    ((((days * 24 + hours) * 60 + minutes) * 60 + seconds) * 1000 + milliseconds) * TicksPerMillisecond
  }

  function FromMilliseconds(n: int): TimeSpan { n * TicksPerMillisecond }
  function FromSeconds(n: int): TimeSpan { n * TicksPerSecond }
  function FromMinutes(n: int): TimeSpan { n * TicksPerMinute }
  function FromHours(n: int): TimeSpan { n * TicksPerHour }
  function FromDays(n: int): TimeSpan { n * TicksPerDay }

  /** `TimeSpan.Days`: whole days. */
  function Days(span: TimeSpan): int { Int32.Quot(span, TicksPerDay) }

  /** `TimeSpan.Hours`: the hour component, -23..23. */
  function Hours(span: TimeSpan): int { Int32.Rem(Int32.Quot(span, TicksPerHour), 24) }

  /** `TimeSpan.Minutes`: the minute component, -59..59. */
  function Minutes(span: TimeSpan): int { Int32.Rem(Int32.Quot(span, TicksPerMinute), 60) }

  /** `TimeSpan.Seconds`: the second component, -59..59. */
  function Seconds(span: TimeSpan): int { Int32.Rem(Int32.Quot(span, TicksPerSecond), 60) }

  /** `TimeSpan.Milliseconds`: the millisecond component, -999..999. */
  function Milliseconds(span: TimeSpan): int { Int32.Rem(Int32.Quot(span, TicksPerMillisecond), 1000) }

  /** `TimeSpan.TotalMinutes`, exactly. */
  function TotalMinutes(span: TimeSpan): real { span as real / TicksPerMinute as real }
}
