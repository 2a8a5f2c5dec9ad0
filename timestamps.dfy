/**
 * chrono's `DateTime<FixedOffset>`, reduced to what the task tracker uses:
 * an instant and the UTC offset it is displayed in. chrono's RFC 3339 and
 * RFC 2822 renderings are not modelled; the operations that print a
 * timestamp take the renderer as a parameter of type `Renderer`.
 */
module Timestamps {

  /** An instant, in nanoseconds since the Unix epoch, shown at a fixed UTC offset (in seconds). */
  datatype Timestamp = Timestamp(nanos: int, offsetSeconds: int)

  /** A chrono formatter such as `to_rfc3339` or `to_rfc2822`, left opaque. */
  type Renderer = Timestamp -> string

  const NanosPerSecond: int := 1_000_000_000
  const SecondsPerMinute: int := 60

  /** Integer division rounding toward zero, as Rust's `/` on `i64` does. */
  function TruncDiv(a: int, b: int): (q: int)
    requires b > 0
    ensures a >= 0 ==> q >= 0
    ensures a <= 0 ==> q <= 0
    ensures a >= 0 ==> q * b <= a < q * b + b
  {
    if a >= 0 then
      assert a == (a / b) * b + a % b;
      a / b
    else -((-a) / b)
  }

  /**
   * `deadline.signed_duration_since(now).num_minutes()`: the signed
   * difference, truncated to whole seconds and then to whole minutes,
   * both toward zero.
   */
  function MinutesUntil(deadline: Timestamp, now: Timestamp): (m: int)
    ensures deadline.nanos <= now.nanos ==> m <= 0
    ensures deadline.nanos >= now.nanos ==> 0 <= m && m * SecondsPerMinute * NanosPerSecond <= deadline.nanos - now.nanos
  {
    TruncDiv(TruncDiv(deadline.nanos - now.nanos, NanosPerSecond), SecondsPerMinute)
  }

  /** A deadline at least one minute ahead is at least one whole minute away. */
  lemma DeadlineAheadCountsWholeMinutes(deadline: Timestamp, now: Timestamp, m: nat)
    requires deadline.nanos - now.nanos >= m * SecondsPerMinute * NanosPerSecond
    ensures MinutesUntil(deadline, now) >= m
  {
    var d := deadline.nanos - now.nanos;
    DivAtLeast(d, NanosPerSecond, m * SecondsPerMinute);
    DivAtLeast(d / NanosPerSecond, SecondsPerMinute, m);
  }

  lemma DivAtLeast(a: int, b: int, k: nat)
    requires b > 0 && a >= k * b
    ensures a / b >= k
  {
    var q, r := a / b, a % b;
    assert a == q * b + r && r < b;
    assert (k - (q + 1)) * b < 0;
  }

}
