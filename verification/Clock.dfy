/**
 * The three readings of one instant. The process clock counts milliseconds, stored times are
 * whole seconds (the text format has no fraction), and a remaining time is a whole number of
 * seconds truncated toward zero.
 */
module Clock {
  import opened Basics

  const MS: int := 1000
  const SECONDS_PER_DAY: int := 86400

  /** `datetime('now')`, and every time formatted with `%H:%M:%S`. */
  function Stamp(now: nat): nat {
    now / MS
  }

  /** Division truncating toward zero, as chrono's `num_seconds`. */
  function TruncatedSeconds(ms: int): int {
    if ms >= 0 then ms / MS else -((-ms) / MS)
  }

  /** What a remaining time would be without the clamp. */
  function SecondsUntil(expiresAt: int, now: nat): int {
    TruncatedSeconds(MS * expiresAt - now)
  }

  /** The remaining seconds of a row, never negative. */
  function Remaining(expiresAt: int, now: nat): int {
    Max(SecondsUntil(expiresAt, now), 0)
  }

  /** The SQL comparison `expires_at > datetime('now')`. */
  predicate SqlLive(expiresAt: int, now: nat) {
    expiresAt > Stamp(now)
  }

  /** A firewall deadline strictly within one second of a stored expiry. */
  predicate Near(deadline: int, expiresAt: int) {
    -MS < deadline - MS * expiresAt < MS
  }

  /** SQL and the clock disagree about a row exactly during its last second. */
  lemma LivenessGap(expiresAt: int, now: nat)
    ensures Remaining(expiresAt, now) > 0 ==> SqlLive(expiresAt, now)
    ensures (SqlLive(expiresAt, now) <==> Remaining(expiresAt, now) > 0)
       <==> !(0 < MS * expiresAt - now < MS)
  {
    var left := MS * expiresAt - now;
    assert SqlLive(expiresAt, now) <==> left > 0;
    assert Remaining(expiresAt, now) > 0 <==> left >= MS;
  }
}
