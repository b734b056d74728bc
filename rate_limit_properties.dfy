/** What the rate-limit snapshot promises: the fallback when the server's clock
    is unknown, the skew correction when it is known, the placeholder's window,
    expiry and value equality. */
module RateLimitProperties {
  import opened JavaLong
  import opened RateLimit

  // ---- The reset instant ----

  /** Without a server time the capture time cancels out: the reset instant is
      the server's reset time itself, in milliseconds. */
  lemma NoHeaderGivesServerReset(resetEpochSeconds: int64, createdAtEpochSeconds: int64)
    ensures ResetInstantMillis(resetEpochSeconds, createdAtEpochSeconds, NoHeader)
         == Wrap64(resetEpochSeconds as int * 1000)
    ensures LONG_MIN <= resetEpochSeconds as int * 1000 <= LONG_MAX ==>
      ResetInstantMillis(resetEpochSeconds, createdAtEpochSeconds, NoHeader) as int
      == resetEpochSeconds as int * 1000
  {
  }

  /** A header that fails to parse is treated exactly like an absent one. */
  lemma MalformedFallsBack(resetEpochSeconds: int64, createdAtEpochSeconds: int64)
    ensures ResetInstantMillis(resetEpochSeconds, createdAtEpochSeconds, Malformed)
         == ResetInstantMillis(resetEpochSeconds, createdAtEpochSeconds, NoHeader)
    ensures ResetInstantMillis(resetEpochSeconds, createdAtEpochSeconds, Malformed)
         == Wrap64(resetEpochSeconds as int * 1000)
  {
  }

  /** With server time s the reset instant is the local capture time plus the
      server's distance to reset, and that is exact whenever it fits a `long`. */
  lemma ServerTimeReset(resetEpochSeconds: int64, createdAtEpochSeconds: int64, s: int64)
    ensures ResetInstantMillis(resetEpochSeconds, createdAtEpochSeconds, ServerTime(s))
         == Wrap64((createdAtEpochSeconds as int + (resetEpochSeconds as int - s as int)) * 1000)
    ensures LONG_MIN <= (createdAtEpochSeconds as int + resetEpochSeconds as int - s as int) * 1000 <= LONG_MAX ==>
      ResetInstantMillis(resetEpochSeconds, createdAtEpochSeconds, ServerTime(s)) as int
      == (createdAtEpochSeconds as int + resetEpochSeconds as int - s as int) * 1000
  {
  }

  /** The estimate lies as far after the local capture time as the server's
      reset lies after the server's own clock, to the second. */
  lemma DistanceToResetPreserved(resetEpochSeconds: int64, createdAtEpochSeconds: int64, s: int64)
    requires LONG_MIN <= (createdAtEpochSeconds as int + resetEpochSeconds as int - s as int) * 1000 <= LONG_MAX
    ensures ResetInstantMillis(resetEpochSeconds, createdAtEpochSeconds, ServerTime(s)) as int % 1000 == 0
    ensures ResetInstantMillis(resetEpochSeconds, createdAtEpochSeconds, ServerTime(s)) as int / 1000
            - createdAtEpochSeconds as int
         == resetEpochSeconds as int - s as int
  {
    var k := createdAtEpochSeconds as int + resetEpochSeconds as int - s as int;
    ServerTimeReset(resetEpochSeconds, createdAtEpochSeconds, s);
    assert ResetInstantMillis(resetEpochSeconds, createdAtEpochSeconds, ServerTime(s)) as int == k * 1000;
  }

  /** A server clock that runs ahead of the local one by some seconds moves the
      estimate that many seconds before the raw reset time; one that runs behind
      moves it after. */
  lemma SkewShiftsEstimate(resetEpochSeconds: int64, createdAtEpochSeconds: int64, s: int64)
    requires LONG_MIN <= (createdAtEpochSeconds as int + resetEpochSeconds as int - s as int) * 1000 <= LONG_MAX
    ensures ResetInstantMillis(resetEpochSeconds, createdAtEpochSeconds, ServerTime(s)) as int
         == resetEpochSeconds as int * 1000 - (s as int - createdAtEpochSeconds as int) * 1000
  {
    ServerTimeReset(resetEpochSeconds, createdAtEpochSeconds, s);
  }

  /** The worked case: captured at t, reset at t + 100 and the server's clock at
      t + 50 (50 seconds ahead): the window resets 50 seconds after capture,
      50 seconds before the raw reset time suggests. */
  lemma SkewExample(t: int64)
    requires LONG_MIN <= t as int * 1000 && (t as int + 100) * 1000 <= LONG_MAX
    ensures ResetInstantMillis((t as int + 100) as int64, t, ServerTime((t as int + 50) as int64)) as int
         == (t as int + 50) * 1000
  {
    ServerTimeReset((t as int + 100) as int64, t, (t as int + 50) as int64);
  }

  /** Without a server time the estimate does not depend on when the snapshot
      was captured. */
  lemma CaptureTimeIrrelevantWithoutServerTime(resetEpochSeconds: int64, c1: int64, c2: int64,
                                                updatedAt: DateHeader)
    requires !updatedAt.ServerTime?
    ensures ResetInstantMillis(resetEpochSeconds, c1, updatedAt)
         == ResetInstantMillis(resetEpochSeconds, c2, updatedAt)
  {
  }

  // ---- The bias of the estimate against real clocks ----
  //
  // A clock model: the header is stamped when the local clock reads sentMillis,
  // and the server's clock then reads serverMillis, so the server runs
  // serverMillis - sentMillis ahead of the local clock. The header carries the
  // server's clock truncated to the second, MillisToSeconds(serverMillis). The
  // snapshot is captured at local nowMillis, no earlier than the stamp. The window
  // really resets when the server's clock reaches reset * 1000, which is local
  // time reset * 1000 - (serverMillis - sentMillis).

  /** Whatever the skew, the estimate is less than a second before the real reset,
      and later than it by less than the response's latency plus one second: the
      local capture time and the server's clock in the header are each truncated
      to whole seconds before they are compared. */
  lemma EstimateBoundsForAnySkew(resetEpochSeconds: int64, nowMillis: int64,
                                       sentMillis: int64, serverMillis: int64)
    requires 0 <= sentMillis <= nowMillis && 0 <= serverMillis
    requires LONG_MIN <= (MillisToSeconds(nowMillis) as int + resetEpochSeconds as int
                          - MillisToSeconds(serverMillis) as int) * 1000 <= LONG_MAX
    ensures ResetInstantMillis(resetEpochSeconds, MillisToSeconds(nowMillis),
                               ServerTime(MillisToSeconds(serverMillis))) as int
          > resetEpochSeconds as int * 1000 - (serverMillis as int - sentMillis as int) - 1000
    ensures ResetInstantMillis(resetEpochSeconds, MillisToSeconds(nowMillis),
                               ServerTime(MillisToSeconds(serverMillis))) as int
          < resetEpochSeconds as int * 1000 - (serverMillis as int - sentMillis as int)
            + (nowMillis as int - sentMillis as int) + 1000
  {
    ServerTimeReset(resetEpochSeconds, MillisToSeconds(nowMillis), MillisToSeconds(serverMillis));
  }

  /** When the skew is a whole number of seconds, the estimate is never before the
      real reset, and late by less than the response's latency plus one second. */
  lemma EstimateNeverEarlyForWholeSecondSkew(resetEpochSeconds: int64, nowMillis: int64,
                                             sentMillis: int64, serverMillis: int64)
    requires 0 <= sentMillis <= nowMillis && 0 <= serverMillis
    requires (serverMillis as int - sentMillis as int) % 1000 == 0
    requires LONG_MIN <= (MillisToSeconds(nowMillis) as int + resetEpochSeconds as int
                          - MillisToSeconds(serverMillis) as int) * 1000 <= LONG_MAX
    ensures ResetInstantMillis(resetEpochSeconds, MillisToSeconds(nowMillis),
                               ServerTime(MillisToSeconds(serverMillis))) as int
         >= resetEpochSeconds as int * 1000 - (serverMillis as int - sentMillis as int)
    ensures ResetInstantMillis(resetEpochSeconds, MillisToSeconds(nowMillis),
                               ServerTime(MillisToSeconds(serverMillis))) as int
          < resetEpochSeconds as int * 1000 - (serverMillis as int - sentMillis as int)
            + (nowMillis as int - sentMillis as int) + 1000
  {
    var skewSeconds := (serverMillis as int - sentMillis as int) / 1000;
    assert serverMillis as int == sentMillis as int + 1000 * skewSeconds;
    assert MillisToSeconds(serverMillis) as int == MillisToSeconds(sentMillis) as int + skewSeconds;
    assert MillisToSeconds(nowMillis) >= MillisToSeconds(sentMillis);
    ServerTimeReset(resetEpochSeconds, MillisToSeconds(nowMillis), MillisToSeconds(serverMillis));
  }

  /** A skew of a fraction of a second can make the estimate early. The local clock
      runs 500 ms ahead and the response is instant: the server reads 400 ms while
      the local clock reads 900 ms, and the window resets at 100 s server time. The
      estimate is 100000 ms, 500 ms before the real reset at local 100500 ms. */
  lemma EstimateEarlyForSubSecondSkew()
    ensures ResetInstantMillis(100, MillisToSeconds(900), ServerTime(MillisToSeconds(400))) == 100000
    ensures 100000 < 100 * 1000 - (400 - 900)
  {
    assert MillisToSeconds(900) == 0 && MillisToSeconds(400) == 0;
  }

  /** The lateness can approach the latency plus a whole second. The clocks agree,
      the header is stamped at local 999 ms and the snapshot captured at 1000 ms, and
      the window resets at 100 s. The estimate is 101000 ms, 1000 ms after the real
      reset for a latency of 1 ms. */
  lemma EstimateLateByTruncation()
    ensures ResetInstantMillis(100, MillisToSeconds(1000), ServerTime(MillisToSeconds(999))) == 101000
    ensures 101000 == 100 * 1000 - (999 - 999) + 1000
  {
    assert MillisToSeconds(1000) == 1 && MillisToSeconds(999) == 0;
  }

  // ---- Expiry ----

  /** Once expired, a snapshot stays expired at every later clock reading. */
  lemma ExpiryIsMonotone(p: GHRateLimit, n: int64, m: int64)
    requires p.Valid() && p.IsExpired(n) && n <= m
    ensures p.IsExpired(m)
  {
  }

  /** A snapshot is not expired at its reset instant and is expired one
      millisecond later. */
  lemma ExpiryAtResetInstant(p: GHRateLimit)
    requires p.Valid()
    ensures !p.IsExpired(p.GetResetDate())
    ensures p.GetResetDate() as int < LONG_MAX ==> p.IsExpired((p.GetResetDate() as int + 1) as int64)
  {
  }

  // ---- The placeholder ----

  /** The placeholder's reset instant is its reset time in milliseconds, when
      that fits a `long`. */
  lemma PlaceholderResetInstant(clockMillis: int64, createdAtEpochSeconds: int64)
    requires clockMillis as int <= LONG_MAX - 3_600_000
    ensures ResetInstantMillis(PlaceholderResetSeconds(clockMillis), createdAtEpochSeconds, NoHeader) as int
         == (MillisToSeconds(clockMillis) as int + 3600) * 1000
  {
    var t := MillisToSeconds(clockMillis) as int;
    assert LONG_MIN <= (t + 3600) * 1000 <= LONG_MAX;
    NoHeaderGivesServerReset(PlaceholderResetSeconds(clockMillis), createdAtEpochSeconds);
  }

  /** A placeholder made at clockMillis is not expired at any reading up to
      3599.001 seconds later: the hour is counted from the clock reading
      truncated to whole seconds. */
  lemma PlaceholderNotExpiredWithinHour(p: GHRateLimit, clockMillis: int64, n: int64)
    requires p.Valid() && p.lastUpdatedAt == NoHeader
    requires p.resetEpochSeconds == PlaceholderResetSeconds(clockMillis)
    requires clockMillis as int <= LONG_MAX - 3_600_000
    requires n as int <= clockMillis as int + 3_599_001
    ensures !p.IsExpired(n)
  {
    PlaceholderResetInstant(clockMillis, p.createdAtEpochSeconds);
  }

  /** The hour is not a full hour: made at 999 ms, the placeholder is expired at
      3600001 ms, less than an hour after it was made. */
  lemma PlaceholderExpiresBeforeFullHour(p: GHRateLimit)
    requires p.Valid() && p.lastUpdatedAt == NoHeader
    requires p.resetEpochSeconds == PlaceholderResetSeconds(999)
    ensures p.IsExpired(3_600_001) && 3_600_001 < 999 + 3_600_000
  {
    PlaceholderResetInstant(999, p.createdAtEpochSeconds);
  }

  // ---- Equality ----

  lemma EqualsReflexive(a: GHRateLimit)
    requires a.Valid()
    ensures a.Equals(a)
  {
  }

  lemma EqualsSymmetric(a: GHRateLimit, b: GHRateLimit)
    requires a.Valid() && b.Valid()
    ensures a.Equals(b) <==> b.Equals(a)
  {
  }

  lemma EqualsTransitive(a: GHRateLimit, b: GHRateLimit, c: GHRateLimit)
    requires a.Valid() && b.Valid() && c.Valid()
    requires a.Equals(b) && b.Equals(c)
    ensures a.Equals(c)
  {
  }

  /** Nothing equals null (or an object of another class). */
  lemma NotEqualToNull(a: GHRateLimit)
    requires a.Valid()
    ensures !a.Equals(null)
  {
  }

  /** Snapshots that differ in the remaining count are unequal. */
  lemma DifferentRemainingUnequal(a: GHRateLimit, b: GHRateLimit)
    requires a.Valid() && b.Valid() && a.remainingCount != b.remainingCount
    ensures !a.Equals(b)
  {
  }

  /** Snapshots built from the same arguments at the same clock second are equal. */
  lemma SameObservationEqual(a: GHRateLimit, b: GHRateLimit)
    requires a.Valid() && b.Valid()
    requires a.limitCount == b.limitCount && a.remainingCount == b.remainingCount
    requires a.resetEpochSeconds == b.resetEpochSeconds
    requires a.createdAtEpochSeconds == b.createdAtEpochSeconds
    requires a.lastUpdatedAt == b.lastUpdatedAt
    ensures a.Equals(b)
  {
  }

  /** Without a server time, snapshots with the same counts and reset time are
      equal whenever they were captured. */
  lemma EqualWithoutServerTime(a: GHRateLimit, b: GHRateLimit)
    requires a.Valid() && b.Valid()
    requires a.limitCount == b.limitCount && a.remainingCount == b.remainingCount
    requires a.resetEpochSeconds == b.resetEpochSeconds
    requires !a.lastUpdatedAt.ServerTime? && !b.lastUpdatedAt.ServerTime?
    ensures a.Equals(b)
  {
    MalformedFallsBack(a.resetEpochSeconds, a.createdAtEpochSeconds);
    MalformedFallsBack(b.resetEpochSeconds, b.createdAtEpochSeconds);
  }

  /** With a parsed server time the capture second does matter: the same
      arguments and header captured in different seconds give unequal snapshots
      (whenever the reset instants fit a `long`). */
  lemma CaptureTimeMattersWithServerTime(a: GHRateLimit, b: GHRateLimit)
    requires a.Valid() && b.Valid()
    requires a.resetEpochSeconds == b.resetEpochSeconds
    requires a.lastUpdatedAt.ServerTime? && a.lastUpdatedAt == b.lastUpdatedAt
    requires a.createdAtEpochSeconds != b.createdAtEpochSeconds
    requires LONG_MIN <= (a.createdAtEpochSeconds as int + a.resetEpochSeconds as int
                          - a.lastUpdatedAt.epochSeconds as int) * 1000 <= LONG_MAX
    requires LONG_MIN <= (b.createdAtEpochSeconds as int + b.resetEpochSeconds as int
                          - b.lastUpdatedAt.epochSeconds as int) * 1000 <= LONG_MAX
    ensures a.GetResetDate() != b.GetResetDate()
    ensures !a.Equals(b)
  {
    ServerTimeReset(a.resetEpochSeconds, a.createdAtEpochSeconds, a.lastUpdatedAt.epochSeconds);
    ServerTimeReset(b.resetEpochSeconds, b.createdAtEpochSeconds, b.lastUpdatedAt.epochSeconds);
  }

  /** Equal snapshots hash the same values. */
  lemma EqualGivesEqualHashInputs(a: GHRateLimit, b: GHRateLimit)
    requires a.Valid() && b.Valid() && a.Equals(b)
    ensures a.Key() == b.Key()
  {
  }
}
