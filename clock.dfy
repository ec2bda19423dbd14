/**
 * .NET `DateTime` and `TimeSpan` as tick counts (100 ns each). Adding a
 * span whose result leaves DateTime's range throws
 * ArgumentOutOfRangeException; so does `new TimeSpan(hours, 0, 0)` beyond
 * TimeSpan's range. Both are modelled as `None`.
 */
module Clock {
  import opened Wrappers

  const TicksPerSecond: int := 10_000_000
  const TicksPerHour: int := 3600 * TicksPerSecond

  /** `DateTime.MaxValue.Ticks`. */
  const MaxTicks: int := 3_155_378_975_999_999_999
  /** `long.MaxValue`, the largest `TimeSpan.Ticks`. */
  const MaxLong: int := 9_223_372_036_854_775_807
  /** `TimeSpan`'s bound on whole seconds: `long.MaxValue / TicksPerSecond`. */
  const MaxSeconds: int := 922_337_203_685

  type DateTime = t: int | 0 <= t <= MaxTicks
  type TimeSpan = s: int | -MaxLong - 1 <= s <= MaxLong
  type Int32 = n: int | -0x8000_0000 <= n < 0x8000_0000

  /** What `File.GetLastWriteTime` / `GetCreationTime` return for a path
      that names no file: midnight, 1 January 1601. */
  const FileTimeEpoch: DateTime := 504_911_232_000_000_000

  /** `t + span`, or None where .NET throws because the sum leaves the
      DateTime range. */
  function AddSpan(t: DateTime, span: TimeSpan): (r: Option<DateTime>)
    ensures r.Some? <==> 0 <= t + span <= MaxTicks
    ensures r.Some? ==> r.value == t + span
  {
    if 0 <= t + span <= MaxTicks then Some(t + span) else None
  }

  /** `new TimeSpan(hours, 0, 0)`, or None where .NET throws because the
      number of seconds exceeds TimeSpan's range. */
  function Hours(hours: Int32): (r: Option<TimeSpan>)
    ensures r.Some? <==> -MaxSeconds <= hours * 3600 <= MaxSeconds
    ensures r.Some? ==> r.value == hours * TicksPerHour
  {
    if -MaxSeconds <= hours * 3600 <= MaxSeconds then Some(hours * TicksPerHour) else None
  }
}
