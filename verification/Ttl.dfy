/** The age policies of the two decryption functions, in uint64 arithmetic. */
module Ttl {
  import opened Prelude

  const CLOCK_SKEW_TOLERANCE_SECS: int := 60

  function Age(ts: u64, now: u64): u64 {
    if now >= ts then now - ts else 0
  }

  /** Natron::decrypt; None is acceptance. */
  function SingleCheck(ts: u64, now: u64, ttl: Option<i64>): Option<Error> {
    match ttl
    case None => None
    case Some(secs) =>
      if ts > (now + CLOCK_SKEW_TOLERANCE_SECS) % U64_LIMIT then Some(LogicError(FutureTimestamp))
      else if Age(ts, now) > ToU64(secs) then Some(ExpiredToken(Age(ts, now)))
      else None
  }

  /** NatronMultiKey::decrypt, which has no check for timestamps in the future. */
  function RingCheck(ts: u64, now: u64, ttl: Option<i64>): Option<Error> {
    match ttl
    case None => None
    case Some(secs) => if Age(ts, now) > ToU64(secs) then Some(ExpiredToken(Age(ts, now))) else None
  }

  /** The checks as the two functions make them. */
  method CheckSingle(ts: u64, now: u64, ttl: Option<i64>) returns (r: Option<Error>)
    ensures r == SingleCheck(ts, now, ttl)
  {
    if ttl.Some? {
      if ts > (now + CLOCK_SKEW_TOLERANCE_SECS) % U64_LIMIT {
        return Some(LogicError(FutureTimestamp));
      }
      var age := if now >= ts then now - ts else 0;
      if age > ToU64(ttl.value) {
        return Some(ExpiredToken(age));
      }
    }
    r := None;
  }

  method CheckRing(ts: u64, now: u64, ttl: Option<i64>) returns (r: Option<Error>)
    ensures r == RingCheck(ts, now, ttl)
  {
    if ttl.Some? {
      var age := if now >= ts then now - ts else 0;
      if age > ToU64(ttl.value) {
        return Some(ExpiredToken(age));
      }
    }
    r := None;
  }

  /** What the documentation asks for, over unbounded integers: not from the future by
      more than the tolerance, and not older than the TTL. */
  ghost predicate Fresh(ts: int, now: int, ttl: int) {
    ts <= now + CLOCK_SKEW_TOLERANCE_SECS && 0 <= ttl && now - ts <= ttl
  }

  /** The clock and TTL for which no uint64 operation wraps around. */
  predicate NoWrap(now: u64, ttl: i64) {
    ttl >= 0 && now + CLOCK_SKEW_TOLERANCE_SECS < U64_LIMIT
  }

  /** Without wrap-around, acceptance is the interval ts-60 <= now <= ts+ttl. */
  lemma TtlWindow(ts: u64, now: u64, ttl: i64)
    requires NoWrap(now, ttl)
    ensures SingleCheck(ts, now, Some(ttl)) == None <==> ts - CLOCK_SKEW_TOLERANCE_SECS <= now <= ts + ttl
    ensures SingleCheck(ts, now, Some(ttl)) == None <==> Fresh(ts, now, ttl)
  {
  }

  /** The ring has no lower end to its window, and no clock is too late for it. A negative
      TTL is one of 2^64 seconds more. */
  lemma RingWindow(ts: u64, now: u64, ttl: i64)
    ensures var limit := if ttl >= 0 then ttl else ttl + 0x1_0000_0000_0000_0000;
      RingCheck(ts, now, Some(ttl)) == if now <= ts + limit then None else Some(ExpiredToken(now - ts))
  {
  }

  /** The single-key check is that of the ring, once the timestamp is within a minute of
      the clock; a clock in the last minute of its range starts over. */
  lemma SingleWindow(ts: u64, now: u64, ttl: i64)
    ensures var latest := if now + 60 < 0x1_0000_0000_0000_0000 then now + 60 else now + 60 - 0x1_0000_0000_0000_0000;
      SingleCheck(ts, now, Some(ttl))
        == if ts > latest then Some(LogicError(FutureTimestamp)) else RingCheck(ts, now, Some(ttl))
  {
  }

  /** Hence a longer TTL accepts at least as much, and acceptance never comes back. */
  lemma TtlMonotone(ts: u64, now: u64, later: u64, ttl: i64, longer: i64)
    requires NoWrap(later, ttl) && ttl <= longer && now <= later
    ensures SingleCheck(ts, now, Some(ttl)) == None ==> SingleCheck(ts, now, Some(longer)) == None
    ensures SingleCheck(ts, now, Some(ttl)) == None && SingleCheck(ts, later, Some(ttl)) != None
      ==> SingleCheck(ts, later, Some(ttl)) == Some(ExpiredToken(later - ts))
  {
  }

  /** The check means Fresh for every timestamp exactly when nothing wraps around, or
      when both the clock sum and the TTL wrap so far that nothing is ever accepted. */
  lemma CheckIsFreshness(now: u64, ttl: i64)
    ensures (forall ts: u64 :: SingleCheck(ts, now, Some(ttl)) == None <==> Fresh(ts, now, ttl))
      <==> NoWrap(now, ttl) || (ttl < -CLOCK_SKEW_TOLERANCE_SECS && now + CLOCK_SKEW_TOLERANCE_SECS >= U64_LIMIT)
  {
    var wrapped := (now + CLOCK_SKEW_TOLERANCE_SECS) % U64_LIMIT;
    if NoWrap(now, ttl) {
      forall ts: u64
        ensures SingleCheck(ts, now, Some(ttl)) == None <==> Fresh(ts, now, ttl)
      {
        TtlWindow(ts, now, ttl);
      }
    } else if now + CLOCK_SKEW_TOLERANCE_SECS < U64_LIMIT {
      assert SingleCheck(now, now, Some(ttl)) == None && !Fresh(now, now, ttl);
    } else {
      assert wrapped == now + CLOCK_SKEW_TOLERANCE_SECS - U64_LIMIT;
      if ttl >= 0 {
        assert SingleCheck(now, now, Some(ttl)) != None && Fresh(now, now, ttl);
      } else if ttl >= -CLOCK_SKEW_TOLERANCE_SECS {
        assert SingleCheck(wrapped, now, Some(ttl)) == None && !Fresh(wrapped, now, ttl);
      }
    }
  }

  /** The ring's check means "not older than the TTL" for every timestamp exactly when
      the TTL is not negative; a negative one accepts what it ought to reject. */
  lemma RingCheckIsAge(now: u64, ttl: i64)
    ensures (forall ts: u64 :: RingCheck(ts, now, Some(ttl)) == None <==> 0 <= ttl && now - ts <= ttl) <==> ttl >= 0
  {
    if ttl < 0 {
      assert RingCheck(now, now, Some(ttl)) == None;
    }
  }

  /** A token sealed at 0 has expired at 1000 under a TTL of 300; one of 1000 has not. */
  lemma ExpiryExample()
    ensures SingleCheck(0, 1000, Some(300)) == Some(ExpiredToken(1000))
    ensures SingleCheck(1000, 1000, Some(300)) == None
  {
  }

  lemma FutureIsNotWrapped(ts: u64, now: u64)
    requires ts > now + CLOCK_SKEW_TOLERANCE_SECS
    ensures ts > (now + CLOCK_SKEW_TOLERANCE_SECS) % U64_LIMIT
  {
  }

  /** With a TTL of minus one second both accept a token of this very second. */
  lemma NegativeTtlAccepts(now: u64)
    requires now + CLOCK_SKEW_TOLERANCE_SECS < U64_LIMIT
    ensures SingleCheck(now, now, Some(-1)) == None && RingCheck(now, now, Some(-1)) == None
    ensures !Fresh(now, now, -1)
  {
  }
}
