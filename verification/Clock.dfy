/** The two conversions between a system_clock time_point and a token's timestamp. How
    many ticks a second has depends on the platform and is a parameter. */
module Clock {
  import opened Prelude

  function Magnitude(x: int): nat {
    if x >= 0 then x else -x
  }

  /** duration_cast to seconds, which truncates toward zero. */
  function Seconds(ticks: i64, perSecond: nat): i64
    requires perSecond > 0
  {
    QuotientBound(Magnitude(ticks), perSecond);
    var q := Magnitude(ticks) / perSecond;
    if ticks >= 0 then q else -q
  }

  /** The timestamp a clock reading becomes in a token. */
  function Stamp(ticks: i64, perSecond: nat): u64
    requires perSecond > 0
  {
    ToU64(Seconds(ticks, perSecond))
  }

  /** time_point(seconds(ts)); None where the product leaves the signed 64-bit range, which
      C++ leaves undefined. */
  function TimePoint(ts: u64, perSecond: nat): Option<i64>
    requires perSecond > 0
  {
    var ticks := ToI64(ts) * perSecond;
    if -I64_LIMIT <= ticks < I64_LIMIT then Some(ticks) else None
  }

  lemma QuotientBound(x: nat, d: nat)
    requires d > 0
    ensures 0 <= x / d <= x && x / d * d == x - x % d && 0 <= x % d < d
  {
    var q := x / d;
    assert q * d == x - x % d;
    assert q <= q * d by { Grows(q, d); }
  }

  lemma Grows(q: nat, d: nat)
    requires d > 0
    ensures q <= q * d
  {
    assert q * d == q + q * (d - 1);
  }

  /** The time point read from a token is the clock it was sealed at, cut to whole seconds
      toward zero, for every clock reading, also one before 1970. */
  lemma TimePointOfStamp(ticks: i64, perSecond: nat)
    requires perSecond > 0
    ensures var cut := Magnitude(ticks) % perSecond;
      TimePoint(Stamp(ticks, perSecond), perSecond) == Some(if ticks >= 0 then ticks - cut else ticks + cut)
  {
    QuotientBound(Magnitude(ticks), perSecond);
    var q, s := Magnitude(ticks) / perSecond, Seconds(ticks, perSecond);
    assert ToI64(ToU64(s)) == s;
    assert s * perSecond == if ticks >= 0 then q * perSecond else -(q * perSecond);
  }

  /** A timestamp of any other origin is read as the time it stands for exactly if that
      time fits the clock. */
  lemma TimePointIsExact(ts: u64, perSecond: nat)
    requires perSecond > 0
    ensures TimePoint(ts, perSecond) == Some(ts * perSecond) <==> ts * perSecond < I64_LIMIT
  {
    Grows(ts, perSecond);
    if ts >= I64_LIMIT {
      Lower(ToI64(ts), ts, perSecond);
    }
  }

  lemma Lower(x: int, y: int, d: nat)
    requires x < y && d > 0
    ensures x * d < y * d
  {
  }

  /** With nanoseconds that is until the year 2262. */
  lemma LastNanosecond()
    ensures TimePoint(9223372036, 1_000_000_000) == Some(9223372036_000_000_000)
    ensures TimePoint(9223372037, 1_000_000_000) == None
  {
  }
}
